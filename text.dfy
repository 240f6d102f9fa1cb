/** Character-level helpers shared by the server (PHP) and the client (JavaScript):
    the leading-integer parser behind PHP `intval` and JavaScript `parseInt`,
    string splitting (`explode` / `String.split`), decimal rendering of integers
    (`String(n)`, PHP string interpolation) and `padStart(2, '0')`. */
module Text {

  datatype Option<T> = None | Some(value: T) {
    function GetOr(default: T): T {
      match this
      case Some(v) => v
      case None => default
    }
  }

  predicate IsDigit(c: char) { '0' <= c <= '9' }

  function DigitValue(c: char): nat
    requires IsDigit(c)
  {
    (c as int) - ('0' as int)
  }

  function DigitChar(d: nat): (c: char)
    requires d < 10
    ensures IsDigit(c) && DigitValue(c) == d
  {
    (('0' as int) + d) as char
  }

  /** The blanks both parsers skip before a number. */
  predicate IsBlank(c: char) { c == ' ' || c == '\t' || c == '\n' || c == '\r' }

  predicate AllDigits(s: string) { forall i :: 0 <= i < |s| ==> IsDigit(s[i]) }

  /** The value of a run of decimal digits, most significant digit first. */
  function DigitsValue(s: string): nat
    requires AllDigits(s)
  {
    if s == [] then 0 else 10 * DigitsValue(s[..|s| - 1]) + DigitValue(s[|s| - 1])
  }

  /** The length of the longest run of digits at the head of `s`. */
  function DigitPrefixLength(s: string): (n: nat)
    ensures n <= |s|
    ensures AllDigits(s[..n])
    ensures n < |s| ==> !IsDigit(s[n])
  {
    if s == [] || !IsDigit(s[0]) then 0
    else
      var n := 1 + DigitPrefixLength(s[1..]);
      assert s[..n] == [s[0]] + s[1..][..n - 1];
      n
  }

  function TrimStart(s: string): (t: string)
    ensures |t| <= |s| && t == s[|s| - |t|..]
    ensures t != [] ==> !IsBlank(t[0])
  {
    if s != [] && IsBlank(s[0]) then TrimStart(s[1..]) else s
  }

  function TrimEnd(s: string): (t: string)
    ensures |t| <= |s| && t == s[..|t|]
    ensures t != [] ==> !IsBlank(t[|t| - 1])
  {
    if s != [] && IsBlank(s[|s| - 1]) then TrimEnd(s[..|s| - 1]) else s
  }

  function Trim(s: string): string { TrimEnd(TrimStart(s)) }

  /** Trimming the end keeps every character up to a non-blank one. */
  lemma {:induction false} TrimEndKeeps(s: string, i: nat)
    requires i < |s| && !IsBlank(s[i])
    ensures |TrimEnd(s)| > i
  {
    if IsBlank(s[|s| - 1]) {
      TrimEndKeeps(s[..|s| - 1], i);
    }
  }

  /** Leading blanks, an optional sign, then the longest run of digits.
      None when there is no digit: JavaScript's `parseInt` then gives NaN,
      PHP's `intval` gives 0. */
  function LeadingInt(s: string): Option<int>
  {
    var t := TrimStart(s);
    if t != [] && t[0] == '-' then Negated(DigitRun(t[1..]))
    else if t != [] && t[0] == '+' then DigitRun(t[1..])
    else DigitRun(t)
  }

  /** The value of the digits at the head of `u`, if there are any. */
  function DigitRun(u: string): Option<int>
  {
    var n := DigitPrefixLength(u);
    if n == 0 then None else Some(DigitsValue(u[..n]) as int)
  }

  function Negated(o: Option<int>): Option<int>
  {
    match o
    case None => None
    case Some(v) => Some(-v)
  }

  /** PHP `intval` of a string. */
  function Intval(s: string): int { LeadingInt(s).GetOr(0) }

  /** JavaScript `parseInt(s)`; None stands for NaN. */
  function ParseInt(s: string): Option<int> { LeadingInt(s) }

  /** PHP `empty()` of a string: the empty string and "0". */
  predicate PhpEmpty(s: string) { s == "" || s == "0" }

  /** `explode(sep, s)` in PHP and `s.split(sep)` in JavaScript for a
      one-character separator: never empty, "" gives [""]. */
  function Split(s: string, sep: char): (parts: seq<string>)
    ensures |parts| >= 1
    ensures forall i :: 0 <= i < |parts| ==> sep !in parts[i]
  {
    if s == [] then [""]
    else if s[0] == sep then [""] + Split(s[1..], sep)
    else
      var rest := Split(s[1..], sep);
      [[s[0]] + rest[0]] + rest[1..]
  }

  /** `parts.join(sep)` / `implode(sep, parts)`. */
  function Join(parts: seq<string>, sep: char): string
  {
    if parts == [] then ""
    else if |parts| == 1 then parts[0]
    else parts[0] + [sep] + Join(parts[1..], sep)
  }

  function NatToString(n: nat): (s: string)
    ensures s != [] && AllDigits(s)
  {
    if n < 10 then [DigitChar(n)] else NatToString(n / 10) + [DigitChar(n % 10)]
  }

  /** `String(n)` for an integer, and PHP's string conversion of an int. */
  function IntToString(i: int): (s: string)
    ensures s != [] && (IsDigit(s[0]) || s[0] == '-')
  {
    if i < 0 then "-" + NatToString(-i) else NatToString(i)
  }

  /** `s.padStart(2, '0')`. */
  function PadStart2(s: string): (t: string)
    ensures |t| == if |s| < 2 then 2 else |s|
  {
    if |s| == 0 then "00" else if |s| == 1 then "0" + s else s
  }

  // ---------------------------------------------------------------------
  // Lemmas

  lemma {:induction false} NatToStringValue(n: nat)
    ensures DigitsValue(NatToString(n)) == n
  {
    if n >= 10 {
      var s := NatToString(n / 10) + [DigitChar(n % 10)];
      assert s[..|s| - 1] == NatToString(n / 10);
      NatToStringValue(n / 10);
    }
  }

  lemma {:induction false} DigitsValueLeadingZero(s: string)
    requires AllDigits(s)
    ensures AllDigits("0" + s) && DigitsValue("0" + s) == DigitsValue(s)
  {
    if s != [] {
      assert ("0" + s)[..|"0" + s| - 1] == "0" + s[..|s| - 1];
      DigitsValueLeadingZero(s[..|s| - 1]);
    }
  }

  /** Padding a decimal rendering keeps its value. */
  lemma PadStart2Value(s: string)
    requires AllDigits(s)
    ensures AllDigits(PadStart2(s)) && DigitsValue(PadStart2(s)) == DigitsValue(s)
  {
    if |s| == 0 {
      assert DigitsValue("00") == 0 by { assert "00"[..1] == "0"; assert "0"[..0] == ""; }
    } else if |s| == 1 {
      DigitsValueLeadingZero(s);
    }
  }

  lemma {:induction false} DigitPrefixOfDigits(ds: string, rest: string)
    requires AllDigits(ds)
    requires rest == [] || !IsDigit(rest[0])
    ensures DigitPrefixLength(ds + rest) == |ds|
  {
    if ds != [] {
      assert (ds + rest)[1..] == ds[1..] + rest;
      DigitPrefixOfDigits(ds[1..], rest);
    }
  }

  lemma DigitRunOfDigits(ds: string, rest: string)
    requires ds != [] && AllDigits(ds)
    requires rest == [] || !IsDigit(rest[0])
    ensures DigitRun(ds + rest) == Some(DigitsValue(ds) as int)
  {
    DigitPrefixOfDigits(ds, rest);
    assert (ds + rest)[..|ds|] == ds;
  }

  /** A run of digits followed by a non-digit parses to its value. */
  lemma LeadingIntOfDigits(ds: string, rest: string)
    requires ds != [] && AllDigits(ds)
    requires rest == [] || !IsDigit(rest[0])
    ensures LeadingInt(ds + rest) == Some(DigitsValue(ds) as int)
  {
    var s := ds + rest;
    assert s[0] == ds[0];
    LeadingIntOfUnsigned(s);
    DigitRunOfDigits(ds, rest);
  }

  /** Text that starts with a digit parses as its leading digit run. */
  lemma LeadingIntOfUnsigned(s: string)
    requires s != [] && IsDigit(s[0])
    ensures LeadingInt(s) == DigitRun(s)
  {
    assert TrimStart(s) == s;
  }

  /** `parseInt(String(i) + rest)` and `intval(i . rest)` give back `i` when
      `rest` does not continue the digits. */
  lemma {:induction false} LeadingIntOfIntToString(i: int, rest: string)
    requires rest == [] || !IsDigit(rest[0])
    ensures LeadingInt(IntToString(i) + rest) == Some(i)
  {
    if i < 0 {
      LeadingIntOfNegativeInt(i, rest);
    } else {
      var ds := NatToString(i);
      LeadingIntOfDigits(ds, rest);
      NatToStringValue(i);
    }
  }

  /** `parseInt(String(i))` gives back `i`. */
  lemma ParseIntOfIntToString(i: int)
    ensures ParseInt(IntToString(i)) == Some(i)
  {
    LeadingIntOfIntToString(i, "");
    assert IntToString(i) + "" == IntToString(i);
  }

  lemma {:induction false} LeadingIntOfNegativeInt(i: int, rest: string)
    requires i < 0
    requires rest == [] || !IsDigit(rest[0])
    ensures LeadingInt(IntToString(i) + rest) == Some(i)
  {
    var ds := NatToString(-i);
    assert IntToString(i) == "-" + ds;
    LeadingIntOfNegative(ds, rest);
    assert LeadingInt("-" + ds + rest) == Some(-(DigitsValue(ds) as int));
    NatToStringValue(-i);
    assert DigitsValue(ds) == -i;
  }

  lemma {:induction false} LeadingIntOfNegative(ds: string, rest: string)
    requires ds != [] && AllDigits(ds)
    requires rest == [] || !IsDigit(rest[0])
    ensures LeadingInt("-" + ds + rest) == Some(-(DigitsValue(ds) as int))
  {
    var s := "-" + ds + rest;
    assert s[0] == '-';
    assert TrimStart(s) == s;
    assert s[1..] == ds + rest;
    DigitRunOfDigits(ds, rest);
  }

  lemma {:induction false} SplitWithoutSeparator(s: string, sep: char)
    requires sep !in s
    ensures Split(s, sep) == [s]
  {
    if s != [] {
      SplitWithoutSeparator(s[1..], sep);
      assert [s[0]] + s[1..] == s;
    }
  }

  lemma {:induction false} SplitAtSeparator(a: string, sep: char, b: string)
    requires sep !in a
    ensures Split(a + [sep] + b, sep) == [a] + Split(b, sep)
  {
    if a == [] {
      assert a + [sep] + b == [sep] + b;
      assert ([sep] + b)[1..] == b;
    } else {
      var s := a + [sep] + b;
      assert s[0] == a[0];
      assert s[1..] == a[1..] + [sep] + b;
      SplitAtSeparator(a[1..], sep, b);
      assert [a[0]] + a[1..] == a;
    }
  }

  /** A join begins with its first part. */
  lemma JoinStartsWith(parts: seq<string>, sep: char)
    requires |parts| >= 1
    ensures Join(parts, sep)[..|parts[0]|] == parts[0]
  {
  }

  /** `explode` undoes `implode` when no part contains the separator. */
  lemma {:induction false} SplitJoin(parts: seq<string>, sep: char)
    requires |parts| >= 1
    requires forall i :: 0 <= i < |parts| ==> sep !in parts[i]
    ensures Split(Join(parts, sep), sep) == parts
  {
    if |parts| == 1 {
      SplitWithoutSeparator(parts[0], sep);
    } else {
      SplitAtSeparator(parts[0], sep, Join(parts[1..], sep));
      SplitJoin(parts[1..], sep);
    }
  }

  /** The first piece of `b + rest` is `b` when `rest` is empty or starts a new piece. */
  lemma SplitHead(b: string, sep: char, rest: string)
    requires sep !in b
    requires rest == [] || rest[0] == sep
    ensures Split(b + rest, sep)[0] == b
  {
    if rest == [] {
      assert b + rest == b;
      SplitWithoutSeparator(b, sep);
    } else {
      assert b + rest == b + [sep] + rest[1..];
      SplitAtSeparator(b, sep, rest[1..]);
    }
  }

  lemma DigitsHaveNoSeparator(s: string, sep: char)
    requires AllDigits(s) && !IsDigit(sep)
    ensures sep !in s
  {
    assert forall i :: 0 <= i < |s| ==> s[i] != sep;
  }

  lemma IntToStringHasNoSeparator(i: int, sep: char)
    requires !IsDigit(sep) && sep != '-'
    ensures sep !in IntToString(i)
  {
    if i < 0 {
      DigitsHaveNoSeparator(NatToString(-i), sep);
    } else {
      DigitsHaveNoSeparator(NatToString(i), sep);
    }
  }
}
