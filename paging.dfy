/** Offset pagination of the admin listings (`get_bookings`, `get_holidays`)
    and the descending date order of the holiday listing. */
module Paging {

  /** `$items_per_page`. */
  const ITEMS_PER_PAGE: int := 10

  /** `($page - 1) * $this->items_per_page`. */
  function PageOffset(page: int): int { (page - 1) * ITEMS_PER_PAGE }

  /** `ceil($total / $this->items_per_page)`: the fewest pages that hold `total` rows. */
  function PageCount(total: nat): (n: nat)
    ensures n * ITEMS_PER_PAGE >= total
    ensures n > 0 ==> (n - 1) * ITEMS_PER_PAGE < total
    ensures n == 0 <==> total == 0
  {
    (total + ITEMS_PER_PAGE - 1) / ITEMS_PER_PAGE
  }

  /** `LIMIT 10 OFFSET offset` over the ordered rows. A page below 1 gives a
      negative OFFSET, which the database refuses: no rows come back. */
  function PageRows<T>(rows: seq<T>, page: int): (r: seq<T>)
    ensures |r| <= ITEMS_PER_PAGE
    ensures page >= 1 ==> forall k :: 0 <= k < |r| ==> PageOffset(page) + k < |rows| && r[k] == rows[PageOffset(page) + k]
    ensures page >= 1 && PageOffset(page) + ITEMS_PER_PAGE <= |rows| ==> |r| == ITEMS_PER_PAGE
    ensures page >= 1 ==> |r| == if |rows| <= PageOffset(page) then 0 else Min(ITEMS_PER_PAGE, |rows| - PageOffset(page))
    ensures page > PageCount(|rows|) || page < 1 ==> r == []
  {
    var off := PageOffset(page);
    if off < 0 || off >= |rows| then []
    else if off + ITEMS_PER_PAGE <= |rows| then rows[off..off + ITEMS_PER_PAGE]
    else rows[off..]
  }

  /** Pages 1 to n, one after the other. */
  function FirstPages<T>(rows: seq<T>, n: nat): seq<T>
  {
    if n == 0 then [] else FirstPages(rows, n - 1) + PageRows(rows, n)
  }

  function Min(a: int, b: int): int { if a <= b then a else b }

  /** Reading the first n pages gives the first n * 10 rows. */
  lemma {:induction false} FirstPagesPrefix<T>(rows: seq<T>, n: nat)
    ensures FirstPages(rows, n) == rows[..Min(n * ITEMS_PER_PAGE, |rows|)]
  {
    if n > 0 {
      FirstPagesPrefix(rows, n - 1);
      var p := (n - 1) * ITEMS_PER_PAGE;
      assert n * ITEMS_PER_PAGE == p + ITEMS_PER_PAGE;
      assert PageOffset(n) == p;
      var lo := Min(p, |rows|);
      var hi := Min(p + ITEMS_PER_PAGE, |rows|);
      PageRowsSlice(rows, n);
      assert rows[..lo] + rows[lo..hi] == rows[..hi];
    }
  }

  /** Page n (from 1) is the slice of rows from its offset to ten rows on,
      both cut at the end of the rows. */
  lemma PageRowsSlice<T>(rows: seq<T>, n: nat)
    requires n >= 1
    ensures PageRows(rows, n) == rows[Min(PageOffset(n), |rows|)..Min(PageOffset(n) + ITEMS_PER_PAGE, |rows|)]
  {
    var off := PageOffset(n);
    if off >= |rows| {
      assert rows[|rows|..|rows|] == [];
    }
  }

  /** Paging through pages 1 to `pages` shows every row exactly once, in order. */
  lemma PagesCoverRows<T>(rows: seq<T>)
    ensures FirstPages(rows, PageCount(|rows|)) == rows
  {
    FirstPagesPrefix(rows, PageCount(|rows|));
    assert Min(PageCount(|rows|) * ITEMS_PER_PAGE, |rows|) == |rows|;
    assert rows[..|rows|] == rows;
  }

  // ---------------------------------------------------------------------
  // ORDER BY ... DESC

  predicate SortedDesc(xs: seq<int>)
  {
    forall i, j :: 0 <= i < j < |xs| ==> xs[i] >= xs[j]
  }

  /** Inserts `x` before the first element it is not smaller than. */
  function InsertDesc(x: int, xs: seq<int>): seq<int>
  {
    if xs == [] || x >= xs[0] then [x] + xs
    else [xs[0]] + InsertDesc(x, xs[1..])
  }

  /** Inserting into a sorted sequence keeps it sorted and adds exactly
      that one value. */
  lemma {:induction false} InsertDescSorted(x: int, xs: seq<int>)
    requires SortedDesc(xs)
    ensures SortedDesc(InsertDesc(x, xs)) && multiset(InsertDesc(x, xs)) == multiset(xs) + multiset{x}
  {
    if xs == [] || x >= xs[0] {
      assert InsertDesc(x, xs) == [x] + xs;
      assert forall k :: 0 <= k < |xs| ==> xs[k] <= xs[0];
      ConsSortedDesc(x, xs);
    } else {
      var tail := xs[1..];
      SortedDescTail(xs);
      InsertDescSorted(x, tail);
      var rest := InsertDesc(x, tail);
      assert InsertDesc(x, xs) == [xs[0]] + rest;
      HeadBoundsInsert(xs[0], tail, x, rest);
      ConsSortedDesc(xs[0], rest);
      MultisetCons(xs[0], tail, x, rest);
      assert [xs[0]] + tail == xs;
    }
  }

  /** Dropping the head keeps a sequence sorted. */
  lemma SortedDescTail(xs: seq<int>)
    requires SortedDesc(xs) && xs != []
    ensures SortedDesc(xs[1..])
  {
    var tail := xs[1..];
    forall i, j | 0 <= i < j < |tail| ensures tail[i] >= tail[j] {
      assert tail[i] == xs[i + 1] && tail[j] == xs[j + 1];
    }
  }

  /** Putting the head back in front of the tail with `x` inserted gives
      the original values plus `x`. */
  lemma MultisetCons(h: int, tail: seq<int>, x: int, rest: seq<int>)
    requires multiset(rest) == multiset(tail) + multiset{x}
    ensures multiset([h] + rest) == multiset([h] + tail) + multiset{x}
  {
    assert multiset([h] + rest) == multiset{h} + multiset(rest);
    assert multiset([h] + tail) == multiset{h} + multiset(tail);
  }

  /** A head no smaller than a sorted tail keeps the sequence sorted. */
  lemma ConsSortedDesc(h: int, rest: seq<int>)
    requires SortedDesc(rest) && forall k :: 0 <= k < |rest| ==> rest[k] <= h
    ensures SortedDesc([h] + rest)
  {
    var r := [h] + rest;
    forall i, j | 0 <= i < j < |r| ensures r[i] >= r[j] {
      assert r[j] == rest[j - 1];
      if i > 0 {
        assert r[i] == rest[i - 1];
      }
    }
  }

  /** Inserting a value no larger than `h` into a tail bounded by `h`
      keeps every element bounded by `h`. */
  lemma HeadBoundsInsert(h: int, tail: seq<int>, x: int, rest: seq<int>)
    requires forall k :: 0 <= k < |tail| ==> tail[k] <= h
    requires x <= h && multiset(rest) == multiset(tail) + multiset{x}
    ensures forall k :: 0 <= k < |rest| ==> rest[k] <= h
  {
    forall k | 0 <= k < |rest| ensures rest[k] <= h {
      assert rest[k] in multiset(rest);
      if rest[k] != x {
        assert rest[k] in multiset(tail);
        var j :| 0 <= j < |tail| && tail[j] == rest[k];
      }
    }
  }

  /** The values in descending order, each as often as it occurs. */
  function SortDesc(xs: seq<int>): (r: seq<int>)
    ensures SortedDesc(r) && multiset(r) == multiset(xs)
  {
    if xs == [] then []
    else
      assert xs == [xs[0]] + xs[1..];
      InsertDescSorted(xs[0], SortDesc(xs[1..]));
      InsertDesc(xs[0], SortDesc(xs[1..]))
  }
}
