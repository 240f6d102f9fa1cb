/** What the read-side handlers (`check_availability`,
    `get_remaining_capacity`, `get_booking_data`) report, stated over the
    booking rows, and how it agrees with the admission rules. */
module Availability {
  import opened Schema
  import opened Admission
  import opened Text

  predicate NoDup(xs: seq<int>)
  {
    forall i, j :: 0 <= i < j < |xs| ==> xs[i] != xs[j]
  }

  /** `array_values(array_unique($xs))`: first occurrences, in order (the
      order is `UniqueKeepsFirstOrder`). */
  function Unique(xs: seq<int>): (r: seq<int>)
    ensures forall x :: x in r <==> x in xs
    ensures NoDup(r)
  {
    if xs == [] then []
    else
      var u := Unique(xs[..|xs| - 1]);
      var x := xs[|xs| - 1];
      assert forall y :: y in xs <==> y in xs[..|xs| - 1] || y == x by {
        assert xs == xs[..|xs| - 1] + [x];
      }
      if x in u then u else u + [x]
  }

  /** The position of the first occurrence of `x` in `xs`. */
  function FirstAt(xs: seq<int>, x: int): (r: nat)
    requires x in xs
    ensures r < |xs| && xs[r] == x
    ensures forall j :: 0 <= j < r ==> xs[j] != x
  {
    if xs[0] == x then 0 else 1 + FirstAt(xs[1..], x)
  }

  /** An element of a prefix is first met inside that prefix. */
  lemma FirstAtPrefix(xs: seq<int>, n: nat, x: int)
    requires n <= |xs| && x in xs[..n]
    ensures FirstAt(xs, x) == FirstAt(xs[..n], x)
  {
    var p := FirstAt(xs[..n], x);
    var q := FirstAt(xs, x);
    assert xs[p] == x;
    assert q <= p;
    assert xs[..n][q] == x;
  }

  /** `Unique` lists the ids in the order of their first occurrences. */
  lemma {:induction false} UniqueKeepsFirstOrder(xs: seq<int>)
    ensures forall i, j :: 0 <= i < j < |Unique(xs)| ==> FirstAt(xs, Unique(xs)[i]) < FirstAt(xs, Unique(xs)[j])
  {
    if xs != [] {
      var init := xs[..|xs| - 1];
      var x := xs[|xs| - 1];
      var u := Unique(init);
      UniqueKeepsFirstOrder(init);
      forall y | y in u ensures FirstAt(xs, y) == FirstAt(init, y) && FirstAt(init, y) < |init| {
        FirstAtPrefix(xs, |xs| - 1, y);
      }
      if x !in u {
        assert FirstAt(xs, x) == |xs| - 1;
        assert Unique(xs) == u + [x];
      } else {
        assert Unique(xs) == u;
      }
    }
  }

  /** Slot id `x` is held on `d` by an active booking of type `t`. */
  ghost predicate Held(bs: seq<Booking>, t: int, d: Date, x: int)
  {
    exists j :: 0 <= j < |bs| && ActiveOn(bs[j], t, d) && x in BookedIds(bs[j])
  }

  /** A list holding exactly the held slot ids meets the requested ids
      exactly when the server would refuse them. */
  lemma HeldIdsAgreeWithConflict(bs: seq<Booking>, t: int, d: Date, requested: seq<int>, held: seq<int>)
    requires forall x :: x in held <==> Held(bs, t, d, x)
    ensures Intersects(requested, held) <==> SlotConflict(bs, t, d, requested)
  {
    if Intersects(requested, held) {
      var x :| x in requested && x in held;
      assert Held(bs, t, d, x);
      var j :| 0 <= j < |bs| && ActiveOn(bs[j], t, d) && x in BookedIds(bs[j]);
      assert Intersects(requested, BookedIds(bs[j]));
    }
    if SlotConflict(bs, t, d, requested) {
      var j :| 0 <= j < |bs| && ActiveOn(bs[j], t, d) && Intersects(requested, BookedIds(bs[j]));
      var x :| x in requested && x in BookedIds(bs[j]);
      assert Held(bs, t, d, x);
    }
  }

  /** `$type->max_daily_capacity`; a missing type reads as 0. */
  function MaxCapacityOf(types: seq<BookingType>, t: int): int
  {
    match FindType(types, t)
    case None => 0
    case Some(bt) => bt.maxDailyCapacity
  }

  /** `get_remaining_capacity`: `max(0, max_daily_capacity - booked)`. */
  function RemainingCapacity(types: seq<BookingType>, bs: seq<Booking>, t: int, d: Date): (r: int)
    ensures r >= 0
    ensures r >= MaxCapacityOf(types, t) - TicketsBooked(bs, t, d)
    ensures r == 0 || TicketsBooked(bs, t, d) + r == MaxCapacityOf(types, t)
  {
    var left := MaxCapacityOf(types, t) - TicketsBooked(bs, t, d);
    if left > 0 then left else 0
  }

  /** For an individual tour on a date the event tour leaves free, a request
      for at least one ticket is admitted exactly when it asks for no more
      than the remaining capacity reported. */
  lemma RemainingCapacityDecidesAdmission(types: seq<BookingType>, bs: seq<Booking>, nextId: nat, req: BookingRequest)
    requires Validate(types, req).Validated?
    requires Validate(types, req).bookingType.category == IndividualTour
    requires !HasActiveOfFirst(types, bs, EventTour, Validate(types, req).date)
    requires req.ticketCount.GetOr(1) >= 1
    ensures Decide(types, bs, nextId, req).Admitted? <==>
      req.ticketCount.GetOr(1) <= RemainingCapacity(types, bs, req.typeId, Validate(types, req).date)
  {
    IndividualAdmission(types, bs, nextId, req);
  }

  /** The distinct dates from `today` on with an active booking of type `t`,
      in order of first appearance (`SELECT DISTINCT booking_date ...
      AND booking_date >= CURDATE()`, and the `in_array` loop). */
  function ActiveDates(bs: seq<Booking>, t: int, today: Date): (r: seq<Date>)
    ensures forall x :: x in r <==> x >= today && exists j :: 0 <= j < |bs| && ActiveOn(bs[j], t, x)
    ensures NoDup(r)
  {
    if bs == [] then []
    else
      var init := bs[..|bs| - 1];
      var b := bs[|bs| - 1];
      var u := ActiveDates(init, t, today);
      assert forall x, j :: 0 <= j < |init| && ActiveOn(init[j], t, x) ==> ActiveOn(bs[j], t, x);
      assert forall x, j :: 0 <= j < |bs| - 1 && ActiveOn(bs[j], t, x) ==> ActiveOn(init[j], t, x);
      AddDate(u, b, t, today)
  }

  /** One row's step of the booked-dates list: its date is appended when the
      row is an active booking of type `t` from `today` on and the date is
      not listed yet. */
  function AddDate(u: seq<Date>, b: Booking, t: int, today: Date): seq<Date>
  {
    if ActiveOn(b, t, b.date) && b.date >= today && b.date !in u then u + [b.date] else u
  }

  /** Some booking of type `t` is active on `d`. */
  ghost predicate AnyActive(bs: seq<Booking>, t: int, d: Date)
  {
    exists j :: 0 <= j < |bs| && ActiveOn(bs[j], t, d)
  }

  lemma AnyActiveSnoc(init: seq<Booking>, b: Booking, t: int)
    ensures forall dt :: AnyActive(init + [b], t, dt) <==> AnyActive(init, t, dt) || ActiveOn(b, t, dt)
  {
    var bs := init + [b];
    forall dt | AnyActive(bs, t, dt) && !ActiveOn(b, t, dt) ensures AnyActive(init, t, dt) {
      var j :| 0 <= j < |bs| && ActiveOn(bs[j], t, dt);
      assert j < |init| && init[j] == bs[j];
    }
    forall dt | AnyActive(init, t, dt) ensures AnyActive(bs, t, dt) {
      var j :| 0 <= j < |init| && ActiveOn(init[j], t, dt);
      assert init[j] == bs[j];
    }
    forall dt | ActiveOn(b, t, dt) ensures AnyActive(bs, t, dt) {
      assert bs[|init|] == b;
    }
  }

  lemma HeldSnoc(init: seq<Booking>, b: Booking, t: int)
    ensures forall dt, x :: Held(init + [b], t, dt, x) <==> Held(init, t, dt, x) || (ActiveOn(b, t, dt) && x in BookedIds(b))
  {
    var bs := init + [b];
    forall dt, x | Held(bs, t, dt, x) && !(ActiveOn(b, t, dt) && x in BookedIds(b)) ensures Held(init, t, dt, x) {
      var j :| 0 <= j < |bs| && ActiveOn(bs[j], t, dt) && x in BookedIds(bs[j]);
      assert j < |init| && init[j] == bs[j];
    }
    forall dt, x | Held(init, t, dt, x) ensures Held(bs, t, dt, x) {
      var j :| 0 <= j < |init| && ActiveOn(init[j], t, dt) && x in BookedIds(init[j]);
      assert init[j] == bs[j];
    }
    forall dt, x | ActiveOn(b, t, dt) && x in BookedIds(b) ensures Held(bs, t, dt, x) {
      assert bs[|init|] == b;
    }
  }

  /** One row's step of `check_availability`'s booked list: an active row
      on `d` adds its slot ids, and the list still holds exactly the ids
      held by the rows seen so far. */
  lemma HeldListStep(bs: seq<Booking>, i: nat, t: int, d: Date, hall: bool, acc: seq<int>)
    requires i < |bs|
    requires forall x :: x in acc <==> hall && Held(bs[..i], t, d, x)
    ensures var b := bs[i];
      var acc' := if ActiveOn(b, t, d) && hall && !PhpEmpty(b.slotIds) then acc + ParseIdList(b.slotIds) else acc;
      forall x :: x in acc' <==> hall && Held(bs[..i + 1], t, d, x)
  {
    assert bs[..i] + [bs[i]] == bs[..i + 1];
    HeldSnoc(bs[..i], bs[i], t);
  }

  /** With no active booking that day the ticket sum is 0. */
  lemma {:induction false} TicketsBookedNone(bs: seq<Booking>, t: int, d: Date)
    ensures !AnyActive(bs, t, d) ==> TicketsBooked(bs, t, d) == 0
  {
    if bs != [] && !AnyActive(bs, t, d) {
      var init := bs[..|bs| - 1];
      assert bs == init + [bs[|bs| - 1]];
      AnyActiveSnoc(init, bs[|bs| - 1], t);
      TicketsBookedNone(init, t, d);
    }
  }

  /** The hall's booked slot ids per date from `today` on, before
      de-duplication: the ids of each active booking appended in row order. */
  function SlotsByDate(bs: seq<Booking>, t: int, today: Date): map<Date, seq<int>>
  {
    if bs == [] then map[]
    else
      AddSlots(SlotsByDate(bs[..|bs| - 1], t, today), bs[|bs| - 1], t, today)
  }

  /** One row's step of the per-date slot table: an active booking of type
      `t` from `today` on appends its slot ids under its date. */
  function AddSlots(m: map<Date, seq<int>>, b: Booking, t: int, today: Date): map<Date, seq<int>>
  {
    if ActiveOn(b, t, b.date) && b.date >= today
    then m[b.date := (if b.date in m then m[b.date] else []) + BookedIds(b)]
    else m
  }

  /** The per-date table has a key for each date from `today` on with an
      active booking, and that key lists exactly the slot ids held then. */
  lemma {:induction false} SlotsByDateHeld(bs: seq<Booking>, t: int, today: Date)
    ensures forall dt :: dt in SlotsByDate(bs, t, today) <==> dt >= today && AnyActive(bs, t, dt)
    ensures forall dt, x :: dt in SlotsByDate(bs, t, today) ==> (x in SlotsByDate(bs, t, today)[dt] <==> Held(bs, t, dt, x))
  {
    if bs != [] {
      var init := bs[..|bs| - 1];
      var b := bs[|bs| - 1];
      assert bs == init + [b];
      SlotsByDateHeld(init, t, today);
      AnyActiveSnoc(init, b, t);
      HeldSnoc(init, b, t);
    }
  }

  /** The individual tour's tickets per date from `today` on. */
  function TicketsByDate(bs: seq<Booking>, t: int, today: Date): map<Date, int>
  {
    if bs == [] then map[]
    else
      AddTickets(TicketsByDate(bs[..|bs| - 1], t, today), bs[|bs| - 1], t, today)
  }

  /** One row's step of the tickets-per-date table: an active booking of
      type `t` from `today` on adds its ticket count under its date. */
  function AddTickets(m: map<Date, int>, b: Booking, t: int, today: Date): map<Date, int>
  {
    if ActiveOn(b, t, b.date) && b.date >= today
    then m[b.date := (if b.date in m then m[b.date] else 0) + b.ticketCount]
    else m
  }

  /** `ticketsByDate` has a key for each date from `today` on with an active
      booking, holding the tickets booked that day. */
  lemma {:induction false} TicketsByDateCounts(bs: seq<Booking>, t: int, today: Date)
    ensures forall dt :: dt in TicketsByDate(bs, t, today) <==> dt >= today && AnyActive(bs, t, dt)
    ensures forall dt :: dt in TicketsByDate(bs, t, today) ==> TicketsByDate(bs, t, today)[dt] == TicketsBooked(bs, t, dt)
  {
    if bs != [] {
      var init := bs[..|bs| - 1];
      var b := bs[|bs| - 1];
      assert bs == init + [b];
      TicketsByDateCounts(init, t, today);
      AnyActiveSnoc(init, b, t);
      TicketsBookedNone(init, t, b.date);
      forall dt ensures TicketsBooked(bs, t, dt) == TicketsBooked(init, t, dt) + (if ActiveOn(b, t, dt) then b.ticketCount else 0) {
        TicketsBookedSnoc(init, b, t, dt);
      }
    }
  }

  /** One row of the `get_booking_data` loop, for a hall: how the per-date
      slot table over the first `i + 1` rows follows from the first `i`. */
  lemma SlotsByDateStep(bs: seq<Booking>, t: int, today: Date, i: nat, m: map<Date, seq<int>>)
    requires i < |bs| && m == SlotsByDate(bs[..i], t, today)
    ensures SlotsByDate(bs[..i + 1], t, today) == AddSlots(m, bs[i], t, today)
  {
    assert bs[..i + 1][..i] == bs[..i];
  }

  /** The same step for the individual tour's tickets per date. */
  lemma TicketsByDateStep(bs: seq<Booking>, t: int, today: Date, i: nat, m: map<Date, int>)
    requires i < |bs| && m == TicketsByDate(bs[..i], t, today)
    ensures TicketsByDate(bs[..i + 1], t, today) == AddTickets(m, bs[i], t, today)
  {
    assert bs[..i + 1][..i] == bs[..i];
  }

  /** The same step for a tour's booked dates. */
  lemma ActiveDatesStep(bs: seq<Booking>, t: int, today: Date, i: nat, u: seq<Date>)
    requires i < |bs| && u == ActiveDates(bs[..i], t, today)
    ensures ActiveDates(bs[..i + 1], t, today) == AddDate(u, bs[i], t, today)
  {
    assert bs[..i + 1][..i] == bs[..i];
  }

  /** `get_booking_data`'s `bookedSlots` after the `array_unique` pass:
      for each date from `today` on with an active booking, exactly the slot
      ids held that day, each once. */
  function BookedSlotsByDate(bs: seq<Booking>, t: int, today: Date): (r: map<Date, seq<int>>)
    ensures forall dt :: dt in r <==> dt >= today && AnyActive(bs, t, dt)
    ensures forall dt :: dt in r ==> NoDup(r[dt])
    ensures forall dt, x :: dt in r ==> (x in r[dt] <==> Held(bs, t, dt, x))
  {
    var m := SlotsByDate(bs, t, today);
    SlotsByDateHeld(bs, t, today);
    UniquePerDate(m)
  }

  /** `array_unique` applied to each date's list. */
  function UniquePerDate(m: map<Date, seq<int>>): (r: map<Date, seq<int>>)
    ensures r.Keys == m.Keys
    ensures forall dt :: dt in r ==> NoDup(r[dt]) && (forall x :: x in r[dt] <==> x in m[dt])
  {
    map dt | dt in m :: Unique(m[dt])
  }
}
