/** The booking form's small text and interval helpers: `timeToMinutes`,
    `intervalsOverlap`, `formatTime12h`, `formatDate`, and JavaScript's
    `Number()` as the calendar uses it on the weekend-day list. */
module Formats {
  import opened Text

  /** "H:MM" from a clock reading, as a `TIME` column or an `<input
      type=time>` gives it: both fields padded to two digits. */
  function ClockText(h: nat, m: nat): string
  {
    PadStart2(NatToString(h)) + ":" + PadStart2(NatToString(m))
  }

  /** `timeToMinutes`: hours and minutes from the first two `:`-separated
      fields, each 0 when it does not parse. */
  function TimeToMinutes(time: string): int
  {
    if time == "" then 0
    else
      var parts := Split(time, ':');
      var hours := ParseInt(parts[0]).GetOr(0);
      var minutes := if |parts| > 1 then ParseInt(parts[1]).GetOr(0) else 0;
      hours * 60 + minutes
  }

  /** `intervalsOverlap`: the half-open intervals [startA, endA) and
      [startB, endB) overlap. */
  predicate IntervalsOverlap(startA: int, endA: int, startB: int, endB: int)
  {
    startA < endB && endA > startB
  }

  /** JavaScript's `%`, which truncates toward zero: it keeps the sign of
      `a`, so on a negative `a` it is the modulus minus `b` unless `b`
      divides `a`. */
  function JsRem(a: int, b: int): (r: int)
    requires b > 0
    ensures a >= 0 ==> r == a % b
    ensures a < 0 ==> r <= 0 && r == (if a % b == 0 then 0 else a % b - b)
    ensures -b < r < b
  {
    if a >= 0 then a % b
    else
      var q := (-a) / b;
      var m := (-a) % b;
      assert a % b == (if m == 0 then 0 else b - m) by {
        if m == 0 {
          ModUnique(a, b, -q, 0);
        } else {
          ModUnique(a, b, -q - 1, b - m);
        }
      }
      -m
  }

  /** Euclidean division is unique: a quotient and a remainder in range
      are `/` and `%`. */
  lemma ModUnique(a: int, b: int, q: int, m: int)
    requires b > 0 && 0 <= m < b && a == q * b + m
    ensures a % b == m
  {
    var d := q - a / b;
    assert d * b == a % b - m;
    MulOutsideUnit(d, b);
  }

  /** A non-zero multiple of `b` is at least `b` away from zero. */
  lemma MulOutsideUnit(d: int, b: int)
    requires b > 0
    ensures d >= 1 ==> d * b >= b
    ensures d <= -1 ==> d * b <= -b
  {
  }

  /** `formatTime12h`: the hour on a 12-hour clock, the minute field as
      written, and AM/PM. An hour that does not parse reads as 12 AM;
      a missing minute field prints as "undefined". */
  function FormatTime12h(time: string): string
  {
    if time == "" then ""
    else
      var parts := Split(time, ':');
      var m := if |parts| > 1 then parts[1] else "undefined";
      var hour := ParseInt(parts[0]);
      var pm := hour.Some? && hour.value >= 12;
      var r := if hour.Some? then JsRem(hour.value, 12) else 0;
      var hour12 := if r == 0 then 12 else r;
      IntToString(hour12) + ":" + m + " " + (if pm then "PM" else "AM")
  }

  /** The hour on a 12-hour clock face. */
  function Hour12(h: nat): (r: nat)
    requires h < 24
    ensures 1 <= r <= 12
    ensures r % 12 == h % 12
  {
    if h == 0 then 12 else if h <= 12 then h else h - 12
  }

  /** `formatDate`: year, then month and day padded to two digits, joined by '-'. */
  function FormatDate(y: int, m: int, d: int): string
  {
    IntToString(y) + "-" + PadStart2(IntToString(m)) + "-" + PadStart2(IntToString(d))
  }

  /** Reading a `YYYY-MM-DD` key back into its three numbers. */
  function ParseDate(s: string): Option<(nat, nat, nat)>
  {
    var parts := Split(s, '-');
    if |parts| == 3 && parts[0] != [] && parts[1] != [] && parts[2] != []
       && AllDigits(parts[0]) && AllDigits(parts[1]) && AllDigits(parts[2])
    then Some((DigitsValue(parts[0]), DigitsValue(parts[1]), DigitsValue(parts[2])))
    else None
  }

  /** JavaScript `Number(s)` on integer text: blanks trimmed, "" is 0, an
      optional sign and digits give their value, anything else NaN (None). */
  function JsNumber(s: string): Option<int>
  {
    var t := Trim(s);
    if t == "" then Some(0)
    else if t[0] == '-' && |t| > 1 && AllDigits(t[1..]) then Some(-(DigitsValue(t[1..]) as int))
    else if t[0] == '+' && |t| > 1 && AllDigits(t[1..]) then Some(DigitsValue(t[1..]) as int)
    else if AllDigits(t) then Some(DigitsValue(t) as int)
    else None
  }

  // ---------------------------------------------------------------------
  // Lemmas

  /** The two-digit rendering of a number is nonempty digits with its value. */
  lemma PaddedDigits(n: nat)
    ensures var p := PadStart2(NatToString(n));
      p != [] && AllDigits(p) && DigitsValue(p) == n && ':' !in p && '-' !in p
  {
    var p := PadStart2(NatToString(n));
    PadStart2Value(NatToString(n));
    NatToStringValue(n);
    DigitsHaveNoSeparator(p, ':');
    DigitsHaveNoSeparator(p, '-');
  }

  /** The first two `:`-fields of a clock text followed by more fields. */
  lemma ClockFields(h: nat, m: nat, rest: string)
    requires rest == [] || rest[0] == ':'
    ensures var parts := Split(ClockText(h, m) + rest, ':');
      |parts| >= 2 && parts[0] == PadStart2(NatToString(h)) && parts[1] == PadStart2(NatToString(m))
  {
    var hh := PadStart2(NatToString(h));
    var mm := PadStart2(NatToString(m));
    PaddedDigits(h);
    PaddedDigits(m);
    assert ClockText(h, m) + rest == hh + [':'] + (mm + rest);
    SplitAtSeparator(hh, ':', mm + rest);
    SplitHead(mm, ':', rest);
  }

  /** `timeToMinutes("HH:MM")` and `timeToMinutes("HH:MM:SS")` are HH*60 + MM. */
  lemma TimeToMinutesOfClock(h: nat, m: nat, rest: string)
    requires rest == [] || rest[0] == ':'
    ensures TimeToMinutes(ClockText(h, m) + rest) == h * 60 + m
  {
    var hh := PadStart2(NatToString(h));
    var mm := PadStart2(NatToString(m));
    ClockFields(h, m, rest);
    PaddedDigits(h);
    PaddedDigits(m);
    LeadingIntOfDigits(hh, "");
    LeadingIntOfDigits(mm, "");
    assert hh + "" == hh && mm + "" == mm;
    TimeToMinutesOfFields(ClockText(h, m) + rest, h, m);
  }

  /** A time whose first two `:`-fields read as `h` and `m` is `h * 60 + m`. */
  lemma TimeToMinutesOfFields(time: string, h: int, m: int)
    requires time != "" && |Split(time, ':')| > 1
    requires ParseInt(Split(time, ':')[0]) == Some(h) && ParseInt(Split(time, ':')[1]) == Some(m)
    ensures TimeToMinutes(time) == h * 60 + m
  {
  }

  lemma {:induction false} SplitPartsWithin(s: string, sep: char)
    ensures forall i, c :: 0 <= i < |Split(s, sep)| && c in Split(s, sep)[i] ==> c in s
  {
    if s != [] {
      SplitPartsWithin(s[1..], sep);
      var rest := Split(s[1..], sep);
      forall i, c | 0 <= i < |rest| && c in rest[i] ensures c in s {
        assert c in s[1..];
      }
    }
  }

  predicate NoDigit(s: string) { forall i :: 0 <= i < |s| ==> !IsDigit(s[i]) }

  lemma LeadingIntOfNoDigits(s: string)
    requires NoDigit(s)
    ensures LeadingInt(s) == None
  {
    var t := TrimStart(s);
    assert forall i :: 0 <= i < |t| ==> t[i] == s[|s| - |t| + i];
    if t != [] {
      assert forall i :: 0 <= i < |t[1..]| ==> t[1..][i] == t[i + 1];
      assert t[1..] == [] || !IsDigit(t[1..][0]);
    }
  }

  /** `timeToMinutes` of text without a single digit is 0, whatever it holds. */
  lemma TimeToMinutesNoDigits(s: string)
    requires NoDigit(s)
    ensures TimeToMinutes(s) == 0
  {
    if s != "" {
      var parts := Split(s, ':');
      SplitPartsWithin(s, ':');
      forall i | 0 <= i < |parts| ensures NoDigit(parts[i]) {
        forall k | 0 <= k < |parts[i]| ensures !IsDigit(parts[i][k]) {
          assert parts[i][k] in parts[i];
          assert parts[i][k] in s;
          var j :| 0 <= j < |s| && s[j] == parts[i][k];
        }
      }
      LeadingIntOfNoDigits(parts[0]);
      if |parts| > 1 {
        LeadingIntOfNoDigits(parts[1]);
      }
    }
  }

  /** Overlap is symmetric. */
  lemma OverlapSymmetric(sa: int, ea: int, sb: int, eb: int)
    ensures IntervalsOverlap(sa, ea, sb, eb) == IntervalsOverlap(sb, eb, sa, ea)
  {
  }

  /** Back-to-back intervals do not overlap. */
  lemma AdjacentDoNotOverlap(sa: int, ea: int, eb: int)
    ensures !IntervalsOverlap(sa, ea, ea, eb)
  {
  }

  /** Minute `t` lies in the half-open interval [start, end). */
  predicate Within(t: int, start: int, end: int) { start <= t < end }

  /** Two non-empty half-open intervals overlap exactly when some minute
      lies in both. */
  lemma OverlapMeansSharedMinute(sa: int, ea: int, sb: int, eb: int)
    requires sa < ea && sb < eb
    ensures IntervalsOverlap(sa, ea, sb, eb) <==> exists t :: Within(t, sa, ea) && Within(t, sb, eb)
  {
    if IntervalsOverlap(sa, ea, sb, eb) {
      var t := if sa <= sb then sb else sa;
      assert Within(t, sa, ea) && Within(t, sb, eb);
    }
  }

  /** `hour % 12 || 12` is the 12-hour clock face. */
  lemma Hour12OfRem(h: nat)
    requires h < 24
    ensures Hour12(h) == if JsRem(h, 12) == 0 then 12 else JsRem(h, 12)
  {
    if h < 12 {
      assert h % 12 == h;
    } else {
      assert h % 12 == h - 12;
    }
  }

  /** `formatTime12h` of text whose first `:`-field parses to an hour of
      the day and which has a second field. */
  lemma FormatTime12hOfFields(time: string, h: nat)
    requires h < 24
    requires time != ""
    requires |Split(time, ':')| > 1 && ParseInt(Split(time, ':')[0]) == Some(h)
    ensures FormatTime12h(time) ==
      IntToString(Hour12(h)) + ":" + Split(time, ':')[1] + " " + (if h >= 12 then "PM" else "AM")
  {
    var parts := Split(time, ':');
    var r := JsRem(h, 12);
    var hour12 := if r == 0 then 12 else r;
    Hour12OfRem(h);
    var suffix := if h >= 12 then "PM" else "AM";
    assert FormatTime12h(time) == IntToString(hour12) + ":" + parts[1] + " " + suffix;
  }

  /** `formatTime12h` of a 24-hour clock text: the 12-hour face, the minutes
      as written, and PM exactly from noon on. */
  lemma FormatTime12hOfClock(h: nat, m: nat, rest: string)
    requires h < 24
    requires rest == [] || rest[0] == ':'
    ensures FormatTime12h(ClockText(h, m) + rest) ==
      IntToString(Hour12(h)) + ":" + PadStart2(NatToString(m)) + " " + (if h >= 12 then "PM" else "AM")
  {
    var time := ClockText(h, m) + rest;
    var hh := PadStart2(NatToString(h));
    ClockFields(h, m, rest);
    PaddedDigits(h);
    LeadingIntOfDigits(hh, "");
    assert hh + "" == hh;
    assert ParseInt(Split(time, ':')[0]) == Some(h);
    FormatTime12hOfFields(time, h);
  }

  /** `formatDate` followed by reading the key back gives the same date. */
  lemma FormatDateRoundTrip(y: nat, m: nat, d: nat)
    ensures ParseDate(FormatDate(y, m, d)) == Some((y, m, d))
  {
    DateKeyParts(y, m, d);
    NatToStringValue(y);
    PaddedDigits(m);
    PaddedDigits(d);
  }

  /** A date key splits at its dashes into the year, month and day texts. */
  lemma DateKeyParts(y: nat, m: nat, d: nat)
    ensures Split(FormatDate(y, m, d), '-') == [NatToString(y), PadStart2(NatToString(m)), PadStart2(NatToString(d))]
  {
    DigitsHaveNoSeparator(NatToString(y), '-');
    PaddedDigits(m);
    PaddedDigits(d);
    SplitTriple(NatToString(y), PadStart2(NatToString(m)), PadStart2(NatToString(d)), '-');
  }

  /** Three separator-free texts joined by the separator split back apart. */
  lemma SplitTriple(a: string, b: string, c: string, sep: char)
    requires sep !in a && sep !in b && sep !in c
    ensures Split(a + [sep] + b + [sep] + c, sep) == [a, b, c]
  {
    assert a + [sep] + b + [sep] + c == a + [sep] + (b + [sep] + c);
    SplitAtSeparator(a, sep, b + [sep] + c);
    SplitAtSeparator(b, sep, c);
    SplitWithoutSeparator(c, sep);
  }

  /** Distinct dates have distinct keys. */
  lemma FormatDateInjective(y: nat, m: nat, d: nat, y': nat, m': nat, d': nat)
    requires FormatDate(y, m, d) == FormatDate(y', m', d')
    ensures y == y' && m == m' && d == d'
  {
    FormatDateRoundTrip(y, m, d);
    FormatDateRoundTrip(y', m', d');
  }

  /** Nonempty digits are their own trimmed form. */
  lemma TrimDigits(s: string)
    requires s != [] && AllDigits(s)
    ensures Trim(s) == s
  {
    assert !IsBlank(s[0]);
    assert TrimStart(s) == s;
    assert !IsBlank(s[|s| - 1]);
  }

  /** `Number` of nonempty digits is their value. */
  lemma JsNumberOfDigits(s: string)
    requires s != [] && AllDigits(s)
    ensures JsNumber(s) == Some(DigitsValue(s) as int)
  {
    TrimDigits(s);
    assert s[0] != '-' && s[0] != '+' by { assert IsDigit(s[0]); }
  }

  /** `Number(String(n))` is n. */
  lemma JsNumberOfNatToString(n: nat)
    ensures JsNumber(NatToString(n)) == Some(n as int)
  {
    JsNumberOfDigits(NatToString(n));
    NatToStringValue(n);
  }
}
