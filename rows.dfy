/** The row-level table updates of the admin handlers: a status change on
    one booking (`UPDATE ... WHERE id`), deleting a booking (`DELETE ...
    WHERE id`), and the holiday upsert/delete on the unique `holiday_date`
    key; with the facts that keep the ledger invariants across them. */
module Rows {
  import opened Schema
  import opened Admission

  // ---------------------------------------------------------------------
  // Bookings

  /** `UPDATE bt_bookings SET status = st WHERE id = id`: only the status of
      the rows with that id changes; nothing happens when there is none. */
  function SetStatus(bs: seq<Booking>, id: int, st: Status): (r: seq<Booking>)
    ensures |r| == |bs|
    ensures forall i :: 0 <= i < |bs| ==> r[i] == if bs[i].id == id then bs[i].(status := st) else bs[i]
  {
    if bs == [] then []
    else
      var b := bs[|bs| - 1];
      SetStatus(bs[..|bs| - 1], id, st) + [if b.id == id then b.(status := st) else b]
  }

  /** `DELETE FROM bt_bookings WHERE id = id`: the other rows stay, in order. */
  function RemoveBooking(bs: seq<Booking>, id: int): (r: seq<Booking>)
    ensures forall b :: b in r <==> b in bs && b.id != id
    ensures |r| <= |bs|
  {
    if bs == [] then []
    else
      var b := bs[|bs| - 1];
      RemoveBooking(bs[..|bs| - 1], id) + (if b.id == id then [] else [b])
  }

  /** The status column holds only pending or approved: rejecting deletes. */
  ghost predicate AllActive(bs: seq<Booking>)
  {
    forall b :: b in bs ==> IsActive(b.status)
  }

  /** Ids follow insertion order (the auto-increment key). */
  ghost predicate IdsIncreasing(bs: seq<Booking>)
  {
    forall i, j :: 0 <= i < j < |bs| ==> bs[i].id < bs[j].id
  }

  /** Appending a pending or approved row under the next id keeps the ids
      increasing and below the new next id. */
  lemma AppendKeepsRows(bs: seq<Booking>, row: Booking, next: int)
    requires IdsIncreasing(bs) && AllActive(bs) && (forall b :: b in bs ==> b.id < next)
    requires row.id == next && IsActive(row.status)
    ensures IdsIncreasing(bs + [row]) && AllActive(bs + [row])
    ensures forall b :: b in bs + [row] ==> b.id < next + 1
  {
    var r := bs + [row];
    forall i, j | 0 <= i < j < |r| ensures r[i].id < r[j].id {
      assert r[i] == bs[i] && bs[i] in bs;
    }
  }

  lemma {:induction false} RemoveKeepsIdsIncreasing(bs: seq<Booking>, id: int)
    requires IdsIncreasing(bs)
    ensures IdsIncreasing(RemoveBooking(bs, id))
  {
    if bs != [] {
      var init := bs[..|bs| - 1];
      var b := bs[|bs| - 1];
      assert IdsIncreasing(init);
      RemoveKeepsIdsIncreasing(init, id);
      var r0 := RemoveBooking(init, id);
      forall k | 0 <= k < |r0| ensures r0[k].id < b.id {
        assert r0[k] in init;
        var j :| 0 <= j < |init| && init[j] == r0[k];
        assert bs[j] == init[j];
      }
    }
  }

  /** A status change to pending or approved leaves every per-day count alone. */
  lemma {:induction false} SetStatusCountActive(bs: seq<Booking>, id: int, st: Status, t: int, d: Date)
    requires IsActive(st) && AllActive(bs)
    ensures CountActive(SetStatus(bs, id, st), t, d) == CountActive(bs, t, d)
  {
    if bs != [] {
      var init := bs[..|bs| - 1];
      var r := SetStatus(bs, id, st);
      assert r[..|r| - 1] == SetStatus(init, id, st);
      assert bs[|bs| - 1] in bs;
      SetStatusCountActive(init, id, st, t, d);
    }
  }

  /** Deleting a row never raises a per-day count. */
  lemma {:induction false} RemoveCountActive(bs: seq<Booking>, id: int, t: int, d: Date)
    ensures CountActive(RemoveBooking(bs, id), t, d) <= CountActive(bs, t, d)
  {
    if bs != [] {
      var init := bs[..|bs| - 1];
      var b := bs[|bs| - 1];
      var r0 := RemoveBooking(init, id);
      RemoveCountActive(init, id, t, d);
      assert CountActive(bs, t, d) == CountActive(init, t, d) + (if ActiveOn(b, t, d) then 1 else 0);
      if b.id != id {
        assert RemoveBooking(bs, id) == r0 + [b];
        CountActiveSnoc(r0, b, t, d);
      } else {
        assert RemoveBooking(bs, id) == r0;
      }
    }
  }

  lemma SetStatusKeepsAllActive(bs: seq<Booking>, id: int, st: Status)
    requires IsActive(st) && AllActive(bs)
    ensures AllActive(SetStatus(bs, id, st))
  {
    var r := SetStatus(bs, id, st);
    forall b | b in r ensures IsActive(b.status) {
      var i :| 0 <= i < |r| && r[i] == b;
      assert bs[i] in bs;
    }
  }

  lemma SetStatusKeepsHallSlots(types: seq<BookingType>, bs: seq<Booking>, id: int, st: Status)
    requires AllActive(bs) && HallSlotsExclusive(types, bs)
    ensures HallSlotsExclusive(types, SetStatus(bs, id, st))
  {
    var r := SetStatus(bs, id, st);
    forall a, b | a in r && b in r && a.id != b.id && IsTypeOf(types, a.typeId, Hall)
        && ActiveOn(a, b.typeId, b.date) && IsActive(b.status)
      ensures !Intersects(BookedIds(a), BookedIds(b))
    {
      var a0 := SetStatusSource(bs, id, st, a);
      var b0 := SetStatusSource(bs, id, st, b);
      assert BookedIds(a) == BookedIds(a0) && BookedIds(b) == BookedIds(b0);
      HallPairDisjoint(types, bs, a0, b0);
    }
  }

  /** Each row after a status change comes from a stored row that differs
      from it at most in its status. */
  lemma SetStatusSource(bs: seq<Booking>, id: int, st: Status, a: Booking) returns (o: Booking)
    requires a in SetStatus(bs, id, st)
    ensures o in bs && o.id == a.id && o.typeId == a.typeId && o.date == a.date && o.slotIds == a.slotIds
  {
    var r := SetStatus(bs, id, st);
    var i :| 0 <= i < |r| && r[i] == a;
    o := bs[i];
  }

  /** The hall invariant, applied to two stored rows. */
  lemma HallPairDisjoint(types: seq<BookingType>, bs: seq<Booking>, a: Booking, b: Booking)
    requires HallSlotsExclusive(types, bs) && AllActive(bs)
    requires a in bs && b in bs && a.id != b.id && IsTypeOf(types, a.typeId, Hall)
    requires a.typeId == b.typeId && a.date == b.date
    ensures !Intersects(BookedIds(a), BookedIds(b))
  {
  }

  /** A status change to pending or approved keeps the three exclusivity
      invariants and leaves no rejected row. */
  lemma SetStatusKeepsInvariant(types: seq<BookingType>, bs: seq<Booking>, id: int, st: Status)
    requires IsActive(st) && AllActive(bs) && LedgerInvariant(types, bs)
    ensures AllActive(SetStatus(bs, id, st))
    ensures LedgerInvariant(types, SetStatus(bs, id, st))
  {
    var r := SetStatus(bs, id, st);
    SetStatusKeepsAllActive(bs, id, st);
    SetStatusKeepsHallSlots(types, bs, id, st);
    forall t, d ensures CountActive(r, t, d) == CountActive(bs, t, d) {
      SetStatusCountActive(bs, id, st, t, d);
    }
    assert EventDatesExclusive(types, r);
    forall d ensures !(HasActiveOfFirst(types, r, IndividualTour, d) && HasActiveOfFirst(types, r, EventTour, d)) {
      assert !(HasActiveOfFirst(types, bs, IndividualTour, d) && HasActiveOfFirst(types, bs, EventTour, d));
    }
  }

  /** Deleting a booking keeps the three exclusivity invariants. */
  lemma RemoveKeepsInvariant(types: seq<BookingType>, bs: seq<Booking>, id: int)
    requires AllActive(bs) && LedgerInvariant(types, bs)
    ensures AllActive(RemoveBooking(bs, id))
    ensures LedgerInvariant(types, RemoveBooking(bs, id))
  {
    var r := RemoveBooking(bs, id);
    forall t, d ensures CountActive(r, t, d) <= CountActive(bs, t, d) {
      RemoveCountActive(bs, id, t, d);
    }
    assert EventDatesExclusive(types, r);
    forall d ensures !(HasActiveOfFirst(types, r, IndividualTour, d) && HasActiveOfFirst(types, r, EventTour, d)) {
      assert !(HasActiveOfFirst(types, bs, IndividualTour, d) && HasActiveOfFirst(types, bs, EventTour, d));
    }
    assert HallSlotsExclusive(types, r);
  }

  // ---------------------------------------------------------------------
  // Holidays

  ghost predicate Distinct(xs: seq<Date>)
  {
    forall i, j :: 0 <= i < j < |xs| ==> xs[i] != xs[j]
  }

  /** `DELETE FROM bt_holidays WHERE holiday_date = d`. */
  function WithoutDate(hs: seq<Date>, d: Date): (r: seq<Date>)
    ensures forall x :: x in r <==> x in hs && x != d
  {
    if hs == [] then []
    else (if hs[0] == d then [] else [hs[0]]) + WithoutDate(hs[1..], d)
  }

  /** `save_holiday`: REPLACE on the unique key (the old row for `d`, if
      any, goes and one comes back) when `on`, DELETE otherwise. */
  function SaveHolidayRows(hs: seq<Date>, d: Date, on: bool): seq<Date>
  {
    if on then WithoutDate(hs, d) + [d] else WithoutDate(hs, d)
  }

  lemma {:induction false} WithoutDateAbsent(hs: seq<Date>, d: Date)
    requires d !in hs
    ensures WithoutDate(hs, d) == hs
  {
    if hs != [] {
      WithoutDateAbsent(hs[1..], d);
      assert [hs[0]] + hs[1..] == hs;
    }
  }

  lemma {:induction false} WithoutDateKeepsDistinct(hs: seq<Date>, d: Date)
    requires Distinct(hs)
    ensures Distinct(WithoutDate(hs, d))
  {
    if hs != [] {
      assert Distinct(hs[1..]) by {
        forall i, j | 0 <= i < j < |hs[1..]| ensures hs[1..][i] != hs[1..][j] {
          assert hs[1..][i] == hs[i + 1] && hs[1..][j] == hs[j + 1];
        }
      }
      WithoutDateKeepsDistinct(hs[1..], d);
      assert hs[0] !in hs[1..] by {
        forall k | 0 <= k < |hs[1..]| ensures hs[1..][k] != hs[0] {
          assert hs[1..][k] == hs[k + 1];
        }
      }
    }
  }

  /** Marking a holiday leaves exactly one row for that date and the other
      dates as they were. */
  lemma SaveHolidayOn(hs: seq<Date>, d: Date)
    ensures multiset(SaveHolidayRows(hs, d, true))[d] == 1
    ensures forall x :: x != d ==> (x in SaveHolidayRows(hs, d, true) <==> x in hs)
  {
    var w := WithoutDate(hs, d);
    assert d !in w;
    assert multiset(w)[d] == 0;
    assert multiset(w + [d]) == multiset(w) + multiset{d};
  }

  /** Clearing a holiday removes its row and leaves the other dates. */
  lemma SaveHolidayOff(hs: seq<Date>, d: Date)
    ensures d !in SaveHolidayRows(hs, d, false)
    ensures forall x :: x != d ==> (x in SaveHolidayRows(hs, d, false) <==> x in hs)
  {
  }

  /** Saving the same holiday setting twice is the same as saving it once. */
  lemma SaveHolidayIdempotent(hs: seq<Date>, d: Date, on: bool)
    ensures SaveHolidayRows(SaveHolidayRows(hs, d, on), d, on) == SaveHolidayRows(hs, d, on)
  {
    var w := WithoutDate(hs, d);
    if on {
      WithoutDateAppend(w, [d], d);
      WithoutDateAbsent(w, d);
      assert WithoutDate([d], d) == [];
    } else {
      WithoutDateAbsent(w, d);
    }
  }

  lemma {:induction false} WithoutDateAppend(a: seq<Date>, b: seq<Date>, d: Date)
    ensures WithoutDate(a + b, d) == WithoutDate(a, d) + WithoutDate(b, d)
  {
    if a != [] {
      assert (a + b)[1..] == a[1..] + b;
      WithoutDateAppend(a[1..], b, d);
    } else {
      assert a + b == b;
    }
  }

  /** The unique key survives both kinds of save. */
  lemma SaveHolidayKeepsDistinct(hs: seq<Date>, d: Date, on: bool)
    requires Distinct(hs)
    ensures Distinct(SaveHolidayRows(hs, d, on))
  {
    WithoutDateKeepsDistinct(hs, d);
    var w := WithoutDate(hs, d);
    if on {
      forall i, j | 0 <= i < j < |w + [d]| ensures (w + [d])[i] != (w + [d])[j] {
        if j == |w| {
          assert (w + [d])[i] == w[i] && w[i] in w;
        } else {
          assert (w + [d])[i] == w[i] && (w + [d])[j] == w[j];
        }
      }
    }
  }
}
