/** The booking form's own state (frontend.js): the selected slots, the
    ticket counter, the add-on quantities and the totals shown in the
    summary. Prices are integers in minor units. */
module Form {
  import opened Text
  import opened Schema
  import opened Availability
  import opened Calendar

  /** `addons.find(a => parseInt(a.id) === id)`. */
  function FindAddon(addons: seq<Addon>, id: int): Option<Addon>
  {
    FindById(addons, id, AddonId)
  }

  function AddonId(a: Addon): int { a.id }

  /** `selectedSlots.indexOf(x)`: the first position of `x`, or -1. */
  function IndexOf(s: seq<int>, x: int): (r: int)
    ensures -1 <= r < |s|
    ensures r == -1 <==> x !in s
    ensures r >= 0 ==> s[r] == x && x !in s[..r]
  {
    if s == [] then -1
    else if s[0] == x then 0
    else
      var i := IndexOf(s[1..], x);
      assert i >= 0 ==> s[1..][..i] == s[1..i + 1];
      if i == -1 then -1 else i + 1
  }

  /** The price a selected slot id adds to the summary: its catalog slot's
      price, nothing for an id with no slot. */
  function SlotPrice(slots: seq<Slot>, id: int): int
  {
    match FindSlot(slots, id)
    case None => 0
    case Some(s) => s.price
  }

  /** The slot lines of the hall summary, in selection order. */
  function SlotsTotal(slots: seq<Slot>, selected: seq<int>): int
  {
    if selected == [] then 0
    else SlotsTotal(slots, selected[..|selected| - 1]) + SlotPrice(slots, selected[|selected| - 1])
  }

  /** One add-on line: price times quantity for a positive quantity of a
      known add-on; zero otherwise. */
  function AddonLine(addons: seq<Addon>, sel: map<int, int>, k: int): int
    requires k in sel
  {
    if sel[k] <= 0 then 0
    else match FindAddon(addons, k)
      case None => 0
      case Some(a) => a.price * sel[k]
  }

  /** Some key of a non-empty set: the one the add-ons sum takes next. */
  ghost function Pick(s: set<int>): (x: int)
    requires s != {}
    ensures x in s
  {
    HasElement(s);
    var x :| x in s;
    x
  }

  /** A non-empty set has an element. */
  lemma HasElement(s: set<int>)
    requires s != {}
    ensures exists x :: x in s
  {
    if forall x :: x !in s {
      assert false;
    }
  }

  /** The lines of the keys in `keys`, added up in any order. */
  ghost function AddonsSum(addons: seq<Addon>, sel: map<int, int>, keys: set<int>): int
    requires keys <= sel.Keys
    decreases keys
  {
    if keys == {} then 0
    else
      var k := Pick(keys);
      AddonLine(addons, sel, k) + AddonsSum(addons, sel, keys - {k})
  }

  /** The add-ons total: every selected add-on's line. */
  ghost function AddonsTotal(addons: seq<Addon>, sel: map<int, int>): int
  {
    AddonsSum(addons, sel, sel.Keys)
  }

  /** Taking any one key out of the sum takes out exactly its line. */
  lemma {:induction false} AddonsSumRemove(addons: seq<Addon>, sel: map<int, int>, keys: set<int>, k: int)
    requires keys <= sel.Keys && k in keys
    ensures AddonsSum(addons, sel, keys) == AddonLine(addons, sel, k) + AddonsSum(addons, sel, keys - {k})
    decreases keys
  {
    var j := Pick(keys);
    if j != k {
      AddonsSumRemove(addons, sel, keys - {j}, k);
      AddonsSumRemove(addons, sel, keys - {k}, j);
      assert keys - {j} - {k} == keys - {k} - {j};
    }
  }

  /** The sum over `keys` reads only the quantities of those keys. */
  lemma {:induction false} AddonsSumFrame(addons: seq<Addon>, sel: map<int, int>, sel': map<int, int>, keys: set<int>)
    requires keys <= sel.Keys && keys <= sel'.Keys
    requires forall k :: k in keys ==> sel[k] == sel'[k]
    ensures AddonsSum(addons, sel, keys) == AddonsSum(addons, sel', keys)
    decreases keys
  {
    if keys != {} {
      var k := Pick(keys);
      AddonsSumFrame(addons, sel, sel', keys - {k});
      AddonsSumRemove(addons, sel', keys, k);
    }
  }

  /** Setting one add-on's quantity changes the total by the difference
      of that add-on's lines. */
  lemma AddonsTotalUpdate(addons: seq<Addon>, sel: map<int, int>, k: int, q: int)
    ensures AddonsTotal(addons, sel[k := q]) ==
      AddonsTotal(addons, sel) - (if k in sel then AddonLine(addons, sel, k) else 0) + AddonLine(addons, sel[k := q], k)
  {
    var sel' := sel[k := q];
    var rest := sel.Keys - {k};
    assert sel'.Keys - {k} == rest;
    AddonsSumRemove(addons, sel', sel'.Keys, k);
    AddonsSumFrame(addons, sel, sel', rest);
    if k in sel {
      AddonsSumRemove(addons, sel, sel.Keys, k);
    } else {
      assert sel.Keys == rest;
    }
  }

  /** Removing an add-on from the selection takes its line off the total. */
  lemma AddonsTotalRemove(addons: seq<Addon>, sel: map<int, int>, k: int)
    requires k in sel
    ensures AddonsTotal(addons, sel - {k}) == AddonsTotal(addons, sel) - AddonLine(addons, sel, k)
  {
    var sel' := sel - {k};
    assert sel'.Keys == sel.Keys - {k};
    AddonsSumRemove(addons, sel, sel.Keys, k);
    AddonsSumFrame(addons, sel, sel', sel.Keys - {k});
  }

  /** With non-negative prices the add-ons total is never negative, and it
      is zero when nothing is selected. */
  lemma {:induction false} AddonsSumNonNegative(addons: seq<Addon>, sel: map<int, int>, keys: set<int>)
    requires keys <= sel.Keys
    requires forall i :: 0 <= i < |addons| ==> addons[i].price >= 0
    ensures AddonsSum(addons, sel, keys) >= 0
    ensures keys == {} ==> AddonsSum(addons, sel, keys) == 0
    decreases keys
  {
    if keys != {} {
      var k := Pick(keys);
      AddonsSumNonNegative(addons, sel, keys - {k});
      match FindAddon(addons, k)
      case None =>
      case Some(a) =>
        var i :| 0 <= i < |addons| && addons[i] == a;
    }
  }

  /** Removing the selected slot at position `i` takes its price off the total. */
  lemma {:induction false} SlotsTotalRemove(slots: seq<Slot>, s: seq<int>, i: nat)
    requires i < |s|
    ensures SlotsTotal(slots, s[..i] + s[i + 1..]) == SlotsTotal(slots, s) - SlotPrice(slots, s[i])
  {
    var n := |s|;
    if i == n - 1 {
      assert s[..i] + s[i + 1..] == s[..n - 1];
    } else {
      var init := s[..n - 1];
      SlotsTotalRemove(slots, init, i);
      assert init[..i] + init[i + 1..] == (s[..i] + s[i + 1..])[..n - 2];
      assert (s[..i] + s[i + 1..])[n - 2] == s[n - 1];
    }
  }

  /** Adding a selected slot adds its price to the total. */
  lemma SlotsTotalAdd(slots: seq<Slot>, s: seq<int>, id: int)
    ensures SlotsTotal(slots, s + [id]) == SlotsTotal(slots, s) + SlotPrice(slots, id)
  {
    assert (s + [id])[..|s|] == s;
  }

  /** `x` is the id of one of the slot cards. */
  predicate IsCardId(cards: seq<Slot>, x: int)
  {
    exists k :: 0 <= k < |cards| && cards[k].id == x
  }

  /** The selected ids some slot among `cards` would grey out. */
  predicate DisabledIn(catalog: seq<Slot>, cards: seq<Slot>, dateBooked: seq<int>, isToday: bool, nowMinutes: int, x: int)
  {
    exists k :: 0 <= k < |cards| && cards[k].id == x && SlotStateOf(catalog, dateBooked, cards[k], isToday, nowMinutes).Disabled()
  }

  /** The selection after `renderSlots` has looked at `cards`: every id one
      of them greys out is dropped, the rest keep their order. */
  function KeepEnabled(sel: seq<int>, catalog: seq<Slot>, cards: seq<Slot>, dateBooked: seq<int>, isToday: bool, nowMinutes: int): (r: seq<int>)
    ensures forall x :: x in r <==> x in sel && !DisabledIn(catalog, cards, dateBooked, isToday, nowMinutes, x)
    ensures NoDup(sel) ==> NoDup(r)
  {
    if sel == [] then []
    else
      var rest := KeepEnabled(sel[1..], catalog, cards, dateBooked, isToday, nowMinutes);
      assert forall x :: x in sel <==> x == sel[0] || x in sel[1..];
      assert NoDup(sel) ==> NoDup(sel[1..]) && sel[0] !in sel[1..] by {
        if NoDup(sel) {
          forall i, j | 0 <= i < j < |sel[1..]| ensures sel[1..][i] != sel[1..][j] {
            assert sel[1..][i] == sel[i + 1] && sel[1..][j] == sel[j + 1];
          }
          forall j | 0 <= j < |sel[1..]| ensures sel[1..][j] != sel[0] {
            assert sel[1..][j] == sel[j + 1];
          }
        }
      }
      if DisabledIn(catalog, cards, dateBooked, isToday, nowMinutes, sel[0]) then rest
      else [sel[0]] + rest
  }

  /** `filter(id => !booked.includes(id))`: the ids not in `booked`, in
      their order. */
  function KeepUnbooked(sel: seq<int>, booked: seq<int>): (r: seq<int>)
    ensures forall x :: x in r <==> x in sel && x !in booked
    ensures |r| <= |sel|
  {
    if sel == [] then []
    else
      var last := sel[|sel| - 1];
      KeepUnbooked(sel[..|sel| - 1], booked) + (if last in booked then [] else [last])
  }

  /** Filtering keeps a list free of duplicates. */
  lemma {:induction false} KeepUnbookedNoDup(sel: seq<int>, booked: seq<int>)
    requires NoDup(sel)
    ensures NoDup(KeepUnbooked(sel, booked))
  {
    if sel != [] {
      var init := sel[..|sel| - 1];
      var last := sel[|sel| - 1];
      assert NoDup(init) by {
        forall i, j | 0 <= i < j < |init| ensures init[i] != init[j] {
          assert init[i] == sel[i] && init[j] == sel[j];
        }
      }
      KeepUnbookedNoDup(init, booked);
      assert last !in init by {
        forall i | 0 <= i < |init| ensures init[i] != last {
          assert init[i] == sel[i];
        }
      }
    }
  }

  /** `selectedSlots.filter(id => id !== x)`. */
  function WithoutId(sel: seq<int>, x: int): (r: seq<int>)
    ensures forall y :: y in r <==> y in sel && y != x
  {
    if sel == [] then []
    else (if sel[0] == x then [] else [sel[0]]) + WithoutId(sel[1..], x)
  }

  lemma {:induction false} WithoutAbsent(sel: seq<int>, x: int)
    requires x !in sel
    ensures WithoutId(sel, x) == sel
  {
    if sel != [] {
      WithoutAbsent(sel[1..], x);
      assert [sel[0]] + sel[1..] == sel;
    }
  }

  /** Before any card is looked at the selection is unchanged. */
  lemma {:induction false} KeepEnabledNoCards(sel: seq<int>, catalog: seq<Slot>, dateBooked: seq<int>, isToday: bool, nowMinutes: int)
    ensures KeepEnabled(sel, catalog, [], dateBooked, isToday, nowMinutes) == sel
  {
    if sel != [] {
      KeepEnabledNoCards(sel[1..], catalog, dateBooked, isToday, nowMinutes);
      assert [sel[0]] + sel[1..] == sel;
    }
  }

  /** Looking at one more card drops its id exactly when it is greyed out. */
  lemma {:induction false} KeepEnabledNextCard(sel: seq<int>, catalog: seq<Slot>, cards: seq<Slot>, c: Slot, dateBooked: seq<int>, isToday: bool, nowMinutes: int)
    ensures KeepEnabled(sel, catalog, cards + [c], dateBooked, isToday, nowMinutes) ==
      if SlotStateOf(catalog, dateBooked, c, isToday, nowMinutes).Disabled()
      then WithoutId(KeepEnabled(sel, catalog, cards, dateBooked, isToday, nowMinutes), c.id)
      else KeepEnabled(sel, catalog, cards, dateBooked, isToday, nowMinutes)
  {
    if sel != [] {
      DisabledInSnoc(catalog, cards, c, dateBooked, isToday, nowMinutes, sel[0]);
      KeepEnabledNextCard(sel[1..], catalog, cards, c, dateBooked, isToday, nowMinutes);
    }
  }

  /** An id is greyed out by one more card exactly when the earlier cards
      grey it out or the new card is its own and greyed out. */
  lemma DisabledInSnoc(catalog: seq<Slot>, cards: seq<Slot>, c: Slot, dateBooked: seq<int>, isToday: bool, nowMinutes: int, x: int)
    ensures DisabledIn(catalog, cards + [c], dateBooked, isToday, nowMinutes, x) <==>
      DisabledIn(catalog, cards, dateBooked, isToday, nowMinutes, x)
      || (SlotStateOf(catalog, dateBooked, c, isToday, nowMinutes).Disabled() && x == c.id)
  {
    var cards' := cards + [c];
    if DisabledIn(catalog, cards', dateBooked, isToday, nowMinutes, x) {
      var k :| 0 <= k < |cards'| && cards'[k].id == x && SlotStateOf(catalog, dateBooked, cards'[k], isToday, nowMinutes).Disabled();
      if k < |cards| { assert cards[k] == cards'[k]; }
    }
    if DisabledIn(catalog, cards, dateBooked, isToday, nowMinutes, x) {
      var k :| 0 <= k < |cards| && cards[k].id == x && SlotStateOf(catalog, dateBooked, cards[k], isToday, nowMinutes).Disabled();
      assert cards'[k] == cards[k];
    }
    assert cards'[|cards|] == c;
  }

  /** Once `renderSlots` has run, every selected id that came from a card
      belongs to a card that is not greyed out. */
  lemma RenderedSelectionEnabled(sel: seq<int>, catalog: seq<Slot>, dateBooked: seq<int>, isToday: bool, nowMinutes: int)
    requires forall x :: x in sel ==> IsCardId(catalog, x)
    ensures forall x :: x in KeepEnabled(sel, catalog, catalog, dateBooked, isToday, nowMinutes) ==>
      exists k :: 0 <= k < |catalog| && catalog[k].id == x && !SlotStateOf(catalog, dateBooked, catalog[k], isToday, nowMinutes).Disabled()
  {
    forall x | x in KeepEnabled(sel, catalog, catalog, dateBooked, isToday, nowMinutes)
      ensures exists k :: 0 <= k < |catalog| && catalog[k].id == x && !SlotStateOf(catalog, dateBooked, catalog[k], isToday, nowMinutes).Disabled()
    {
      var k :| 0 <= k < |catalog| && catalog[k].id == x;
      assert !SlotStateOf(catalog, dateBooked, catalog[k], isToday, nowMinutes).Disabled();
    }
  }

  /** `Math.max(0, x)`. */
  function NonNeg(x: int): int { if x > 0 then x else 0 }

  /** `typeData.max_daily_capacity || 50`: the form's capacity, 50 only
      when the type carries no capacity field. A stored capacity reaches
      the form as text, and the text "0" is truthy, so 0 stays 0. */
  function CapacityShown(t: ClientType): int
  {
    if t.maxDailyCapacity.None? then 50 else t.maxDailyCapacity.value
  }

  /** `maxAvailable`: the tickets still on sale for a date with `booked`
      tickets taken. */
  function MaxAvailable(t: ClientType, booked: int): (r: int)
    ensures r >= 0
    ensures r == 0 || booked + r == CapacityShown(t)
    ensures booked >= CapacityShown(t) <==> r == 0
  {
    NonNeg(CapacityShown(t) - booked)
  }

  /** The "remaining" badge next to the ticket counter: capacity minus
      booked minus the visitor's own count, never negative. */
  function RemainingShown(t: ClientType, booked: int, ticketCount: int): (r: int)
    ensures r >= 0
    ensures 1 <= ticketCount <= MaxAvailable(t, booked) ==> r == MaxAvailable(t, booked) - ticketCount
    ensures ticketCount >= MaxAvailable(t, booked) ==> r == 0
  {
    NonNeg(CapacityShown(t) - booked - ticketCount)
  }

  // ---------------------------------------------------------------------
  // The poll

  /** The fields of a `check_availability` reply that the poll reads.
      None is a field the reply does not carry; the poll reads it as an
      empty list or an empty object. */
  datatype PollReply = PollReply(
    bookedSlots: Option<seq<int>>,
    addonsAvailability: Option<map<int, int>>,
    ticketsByDate: Option<map<Date, int>>,
    individualBlockedDates: Option<seq<Date>>,
    bookedDates: Option<seq<Date>>,
    eventBlockedDates: Option<seq<Date>>)

  /** Hall or staircase with a date selected: the reply's booked list
      replaces the date's list when the two differ once sorted. */
  predicate HallListPolled(data: CalendarData, reply: PollReply, selected: Option<Date>)
  {
    && data.typeData.Some? && IsHallCategory(data.typeData.value.category) && selected.Some?
    && multiset(reply.bookedSlots.GetOr([])) != multiset(BookedOn(data.bookedSlots, selected.value))
  }

  /** A `hall` whose polled add-on stock differs from the one held. */
  predicate AddonsPolled(data: CalendarData, reply: PollReply, held: map<int, int>)
  {
    data.typeData.Some? && data.typeData.value.category == Hall && reply.addonsAvailability.GetOr(map[]) != held
  }

  /** An individual tour whose polled tickets per date differ from the
      ones held. */
  predicate TicketsPolled(data: CalendarData, reply: PollReply)
  {
    data.typeData.Some? && data.typeData.value.category == IndividualTour && reply.ticketsByDate.GetOr(map[]) != data.ticketsByDate
  }

  /** An event tour whose polled booked dates differ from the ones held. */
  predicate BookedDatesPolled(data: CalendarData, reply: PollReply)
  {
    data.typeData.Some? && data.typeData.value.category == EventTour && reply.bookedDates.GetOr([]) != data.bookedDates
  }

  /** The loaded data once the poll has read `reply`. A hall takes the
      reply's list for the selected date; an individual tour takes its
      tickets per date and individual-tour dates; an event tour its booked
      dates and event-tour dates. With no type loaded, reading its
      category throws and nothing changes. */
  function PolledData(data: CalendarData, reply: PollReply, selected: Option<Date>): CalendarData
  {
    if data.typeData.None? then data
    else if IsHallCategory(data.typeData.value.category) then
      if HallListPolled(data, reply, selected) then
        data.(bookedSlots := data.bookedSlots[selected.value := reply.bookedSlots.GetOr([])])
      else data
    else if data.typeData.value.category == IndividualTour then
      data.(ticketsByDate := reply.ticketsByDate.GetOr(map[]),
            individualBlockedDates := reply.individualBlockedDates.GetOr([]))
    else if data.typeData.value.category == EventTour then
      data.(bookedDates := reply.bookedDates.GetOr([]),
            eventBlockedDates := reply.eventBlockedDates.GetOr([]))
    else data
  }

  /** The summary shown by `updateUI`, when there is one. */
  datatype Summary = NoSummary | Total(amount: int)

  class BookingForm {
    /** The hall's slot catalog and add-on catalog, as loaded. */
    var slots: seq<Slot>
    var addons: seq<Addon>
    /** Remaining stock per add-on id reported by the poll. */
    var addonsAvailability: map<int, int>
    /** `selectedDate`, `selectedSlots`, `ticketCount`, `selectedAddons`. */
    var selectedDate: Option<Date>
    var selectedSlots: seq<int>
    var ticketCount: int
    var selectedAddons: map<int, int>

    /** At least one ticket, no slot selected twice, no negative quantity. */
    ghost predicate Valid()
      reads this
    {
      && ticketCount >= 1
      && NoDup(selectedSlots)
      && (forall x :: x in selectedSlots ==> IsCardId(slots, x))
      && (forall k :: k in selectedAddons ==> selectedAddons[k] >= 0)
    }

    /** The form's state when the page loads. */
    constructor(slots: seq<Slot>, addons: seq<Addon>)
      ensures Valid()
      ensures this.slots == slots && this.addons == addons && addonsAvailability == map[]
      ensures selectedDate == None && selectedSlots == [] && ticketCount == 1 && selectedAddons == map[]
    {
      this.slots := slots;
      this.addons := addons;
      addonsAvailability := map[];
      selectedDate := None;
      selectedSlots := [];
      ticketCount := 1;
      selectedAddons := map[];
    }

    /** A click on day `d` of the calendar drawn from `data`: ignored on a
        greyed-out day; otherwise the day is selected and the rest of the
        selection is cleared. */
    method SelectDate(data: CalendarData, d: Date, dayOfWeek: int, today: Date, nowMinutes: int)
      requires Valid()
      modifies this
      ensures Valid()
      ensures DayDisabled(data, d, dayOfWeek, today, nowMinutes) ==>
        selectedDate == old(selectedDate) && selectedSlots == old(selectedSlots)
        && ticketCount == old(ticketCount) && selectedAddons == old(selectedAddons)
      ensures !DayDisabled(data, d, dayOfWeek, today, nowMinutes) ==>
        selectedDate == Some(d) && selectedSlots == [] && ticketCount == 1 && selectedAddons == map[]
      ensures slots == old(slots) && addons == old(addons) && addonsAvailability == old(addonsAvailability)
    {
      if DayDisabled(data, d, dayOfWeek, today, nowMinutes) {
        return;
      }
      selectedDate := Some(d);
      selectedSlots := [];
      ticketCount := 1;
      selectedAddons := map[];
    }

    // -------------------------------------------------------------------
    // Slots

    /** `renderSlots`: walk the cards and drop from the selection every id
        a greyed-out card carries. */
    method RenderSlots(dateBooked: seq<int>, isToday: bool, nowMinutes: int) returns (selectionChanged: bool)
      requires Valid()
      modifies this`selectedSlots
      ensures Valid()
      ensures selectedSlots == KeepEnabled(old(selectedSlots), slots, slots, dateBooked, isToday, nowMinutes)
      ensures selectionChanged <==> selectedSlots != old(selectedSlots)
    {
      selectionChanged := false;
      KeepEnabledNoCards(selectedSlots, slots, dateBooked, isToday, nowMinutes);
      assert slots[..0] == [];
      var i := 0;
      while i < |slots|
        invariant 0 <= i <= |slots|
        invariant selectedSlots == KeepEnabled(old(selectedSlots), slots, slots[..i], dateBooked, isToday, nowMinutes)
        invariant |selectedSlots| <= |old(selectedSlots)|
        invariant selectionChanged ==> |selectedSlots| < |old(selectedSlots)|
        invariant !selectionChanged ==> selectedSlots == old(selectedSlots)
      {
        var slot := slots[i];
        var isSelected := slot.id in selectedSlots;
        var isDisabled := SlotStateOf(slots, dateBooked, slot, isToday, nowMinutes).Disabled();
        RenderStep(old(selectedSlots), selectedSlots, slots, i, dateBooked, isToday, nowMinutes);
        if isSelected && isDisabled {
          FilterShrinks(selectedSlots, slot.id);
          selectedSlots := WithoutId(selectedSlots, slot.id);
          selectionChanged := true;
        }
        i := i + 1;
      }
      assert slots[..i] == slots;
    }

    /** A click on a slot card: ignored on a greyed-out card, otherwise the
        slot leaves the selection if it was in it and joins it if not. */
    method ToggleSlot(card: nat, dateBooked: seq<int>, isToday: bool, nowMinutes: int)
      requires Valid() && card < |slots|
      modifies this`selectedSlots
      ensures Valid()
      ensures var id := slots[card].id; var i := IndexOf(old(selectedSlots), id);
        selectedSlots ==
          if SlotStateOf(slots, dateBooked, slots[card], isToday, nowMinutes).Disabled() then old(selectedSlots)
          else if i >= 0 then old(selectedSlots)[..i] + old(selectedSlots)[i + 1..]
          else old(selectedSlots) + [id]
    {
      if SlotStateOf(slots, dateBooked, slots[card], isToday, nowMinutes).Disabled() {
        return;
      }
      var id := slots[card].id;
      var index := IndexOf(selectedSlots, id);
      if index > -1 {
        RemoveAtKeepsNoDup(selectedSlots, index);
        selectedSlots := selectedSlots[..index] + selectedSlots[index + 1..];
      } else {
        selectedSlots := selectedSlots + [id];
      }
    }

    /** The poll's `selectedSlots.filter(id => !newBooked.includes(id))`. */
    method DropPolledSlots(newBooked: seq<int>)
      requires Valid()
      modifies this`selectedSlots
      ensures Valid()
      ensures selectedSlots == KeepUnbooked(old(selectedSlots), newBooked)
    {
      var kept: seq<int> := [];
      var i := 0;
      while i < |selectedSlots|
        invariant 0 <= i <= |selectedSlots|
        invariant kept == KeepUnbooked(selectedSlots[..i], newBooked)
      {
        var x := selectedSlots[i];
        assert selectedSlots[..i + 1][..i] == selectedSlots[..i];
        if x !in newBooked {
          kept := kept + [x];
        }
        i := i + 1;
      }
      assert selectedSlots[..i] == selectedSlots;
      KeepUnbookedNoDup(selectedSlots, newBooked);
      selectedSlots := kept;
    }

    /** An event-tour poll whose booked dates now include the selected
        date drops the date. */
    method DropBookedDate(newBookedDates: seq<Date>)
      modifies this`selectedDate
      ensures selectedDate == if old(selectedDate).Some? && old(selectedDate).value in newBookedDates then None else old(selectedDate)
      ensures selectedDate.Some? ==> selectedDate.value !in newBookedDates
    {
      if selectedDate.Some? && selectedDate.value in newBookedDates {
        selectedDate := None;
      }
    }

    /** The reply handler of `checkAvailability`: the form held `data`
        and holds `polled` afterwards, and the selection follows the new
        data. The hall drops the selected ids now booked and, for a
        `hall`, clamps the add-ons to the new stock; the individual tour
        clamps the ticket count to what the new tickets leave; the event
        tour drops a selected date now booked. */
    method Poll(data: CalendarData, reply: PollReply) returns (polled: CalendarData)
      requires Valid()
      modifies this`selectedSlots, this`addonsAvailability, this`selectedAddons, this`ticketCount, this`selectedDate
      ensures Valid()
      ensures polled == PolledData(data, reply, old(selectedDate))
      ensures HallListPolled(data, reply, old(selectedDate)) ==>
        selectedSlots == KeepUnbooked(old(selectedSlots), reply.bookedSlots.GetOr([]))
      ensures !HallListPolled(data, reply, old(selectedDate)) ==> selectedSlots == old(selectedSlots)
      ensures addonsAvailability ==
        if AddonsPolled(data, reply, old(addonsAvailability)) then reply.addonsAvailability.GetOr(map[]) else old(addonsAvailability)
      ensures selectedAddons.Keys == old(selectedAddons).Keys
      ensures forall k :: k in selectedAddons ==>
        selectedAddons[k] == if AddonsPolled(data, reply, old(addonsAvailability)) && old(selectedAddons)[k] > AddonRemaining(k)
          then NonNeg(AddonRemaining(k)) else old(selectedAddons)[k]
      ensures ticketCount ==
        if TicketsPolled(data, reply) && old(selectedDate).Some?
           && old(ticketCount) > MaxAvailable(data.typeData.value, TicketsOn(polled.ticketsByDate, old(selectedDate).value))
        then (if MaxAvailable(data.typeData.value, TicketsOn(polled.ticketsByDate, old(selectedDate).value)) > 1
              then MaxAvailable(data.typeData.value, TicketsOn(polled.ticketsByDate, old(selectedDate).value)) else 1)
        else old(ticketCount)
      ensures selectedDate ==
        if BookedDatesPolled(data, reply) && old(selectedDate).Some? && old(selectedDate).value in reply.bookedDates.GetOr([])
        then None else old(selectedDate)
    {
      var selected := selectedDate;
      polled := PolledData(data, reply, selected);
      if HallListPolled(data, reply, selected) {
        DropPolledSlots(reply.bookedSlots.GetOr([]));
      }
      if AddonsPolled(data, reply, addonsAvailability) {
        addonsAvailability := reply.addonsAvailability.GetOr(map[]);
        var clamped := ClampSelectedAddons();
      }
      if TicketsPolled(data, reply) && selected.Some? {
        var booked := TicketsOn(polled.ticketsByDate, selected.value);
        var adjusted := PollTickets(MaxAvailable(data.typeData.value, booked));
      }
      if BookedDatesPolled(data, reply) {
        DropBookedDate(reply.bookedDates.GetOr([]));
      }
    }

    // -------------------------------------------------------------------
    // Tickets

    /** The minus button: one ticket fewer, never below one. */
    method TicketMinus()
      requires Valid()
      modifies this`ticketCount
      ensures Valid()
      ensures ticketCount == if old(ticketCount) > 1 then old(ticketCount) - 1 else old(ticketCount)
    {
      if ticketCount > 1 {
        ticketCount := ticketCount - 1;
      }
    }

    /** The plus button: one ticket more while below `maxAvailable`; `ok`
        is false when the stock message is shown instead. */
    method TicketPlus(maxAvailable: int) returns (ok: bool)
      requires Valid()
      modifies this`ticketCount
      ensures Valid()
      ensures ok <==> old(ticketCount) < maxAvailable
      ensures ticketCount == if ok then old(ticketCount) + 1 else old(ticketCount)
      ensures old(ticketCount) <= maxAvailable ==> ticketCount <= maxAvailable
    {
      ok := ticketCount < maxAvailable;
      if ok {
        ticketCount := ticketCount + 1;
      }
    }

    /** A poll that shrank the capacity: the count drops to
        `max(1, maxAvailable)` when it is above `maxAvailable`. */
    method PollTickets(maxAvailable: int) returns (adjusted: bool)
      requires Valid()
      modifies this`ticketCount
      ensures Valid()
      ensures adjusted <==> old(ticketCount) > maxAvailable
      ensures ticketCount == if adjusted then (if maxAvailable > 1 then maxAvailable else 1) else old(ticketCount)
      ensures maxAvailable >= 1 ==> ticketCount <= maxAvailable
    {
      adjusted := ticketCount > maxAvailable;
      if adjusted {
        ticketCount := if maxAvailable > 1 then maxAvailable else 1;
      }
    }

    // -------------------------------------------------------------------
    // Add-ons

    /** `parseInt(selectedAddons[id]) || 0`. */
    function Selected(id: int): int
      reads this
    {
      if id in selectedAddons then selectedAddons[id] else 0
    }

    /** `getAddonRemaining`: the polled stock when there is one, else the
        add-on's `max_quantity`, else 0. */
    function AddonRemaining(id: int): (r: int)
      reads this`addonsAvailability, this`addons
      ensures id !in addonsAvailability && FindAddon(addons, id).None? ==> r == 0
    {
      if id in addonsAvailability then addonsAvailability[id]
      else match FindAddon(addons, id)
        case None => 0
        case Some(a) => a.maxQuantity
    }

    /** `getAddonRemainingForUser`: what is left after this visitor's own
        selection, never negative. */
    function AddonRemainingForUser(id: int): (r: int)
      reads this
      ensures r >= 0
      ensures r == 0 || r + Selected(id) == AddonRemaining(id)
      ensures Selected(id) < AddonRemaining(id) <==> r > 0
    {
      NonNeg(AddonRemaining(id) - Selected(id))
    }

    /** The plus button of an add-on: one more only while below the
        remaining stock. */
    method AddonPlus(id: int) returns (ok: bool)
      requires Valid()
      modifies this`selectedAddons
      ensures Valid()
      ensures ok <==> old(Selected(id)) < old(AddonRemaining(id))
      ensures selectedAddons == if ok then old(selectedAddons)[id := old(Selected(id)) + 1] else old(selectedAddons)
      ensures ok ==> Selected(id) <= AddonRemaining(id)
    {
      var remaining := AddonRemaining(id);
      var current := Selected(id);
      ok := current < remaining;
      if ok {
        selectedAddons := selectedAddons[id := current + 1];
      }
    }

    /** The minus button of an add-on: one fewer while above zero; the key
        goes when the quantity reaches zero. */
    method AddonMinus(id: int)
      requires Valid()
      modifies this`selectedAddons
      ensures Valid()
      ensures old(Selected(id)) <= 0 ==> selectedAddons == old(selectedAddons)
      ensures old(Selected(id)) == 1 ==> selectedAddons == old(selectedAddons) - {id}
      ensures old(Selected(id)) > 1 ==> selectedAddons == old(selectedAddons)[id := old(Selected(id)) - 1]
    {
      var current := Selected(id);
      if current > 0 {
        selectedAddons := selectedAddons[id := current - 1];
        if selectedAddons[id] <= 0 {
          selectedAddons := selectedAddons - {id};
        }
      }
    }

    /** `clampSelectedAddons`: each quantity above its remaining stock
        becomes `max(0, remaining)`; the keys stay. */
    method ClampSelectedAddons() returns (changed: bool)
      requires Valid()
      modifies this`selectedAddons
      ensures Valid()
      ensures selectedAddons.Keys == old(selectedAddons).Keys
      ensures forall k :: k in selectedAddons ==>
        selectedAddons[k] == if old(selectedAddons)[k] > AddonRemaining(k) then NonNeg(AddonRemaining(k)) else old(selectedAddons)[k]
      ensures forall k :: k in selectedAddons ==> selectedAddons[k] <= NonNeg(AddonRemaining(k))
      ensures changed <==> exists k :: k in old(selectedAddons) && old(selectedAddons)[k] > AddonRemaining(k)
    {
      changed := false;
      var orig := selectedAddons;
      var sel := orig;
      var todo := sel.Keys;
      while todo != {}
        invariant todo <= sel.Keys && sel.Keys == orig.Keys
        invariant forall k :: k in sel ==> sel[k] >= 0
        invariant forall k :: k in todo ==> sel[k] == orig[k]
        invariant forall k :: k in sel && k !in todo ==>
          sel[k] == if orig[k] > AddonRemaining(k) then NonNeg(AddonRemaining(k)) else orig[k]
        invariant changed <==> exists k :: k in orig && k !in todo && orig[k] > AddonRemaining(k)
        decreases todo
      {
        HasElement(todo);
        var k :| k in todo;
        var qty := sel[k];
        var remaining := AddonRemaining(k);
        if qty > remaining {
          sel := sel[k := NonNeg(remaining)];
          changed := true;
        }
        todo := todo - {k};
      }
      selectedAddons := sel;
    }

    /** `calculateAddonsTotal`: price times quantity over the selected
        add-ons with a positive quantity and a catalog entry. */
    method CalculateAddonsTotal() returns (total: int)
      ensures total == AddonsTotal(addons, selectedAddons)
    {
      total := 0;
      var todo := selectedAddons.Keys;
      var done: set<int> := {};
      while todo != {}
        invariant todo + done == selectedAddons.Keys && todo !! done
        invariant total == AddonsSum(addons, selectedAddons, done)
        decreases todo
      {
        HasElement(todo);
        var k :| k in todo;
        AddonsSumRemove(addons, selectedAddons, done + {k}, k);
        assert done + {k} - {k} == done;
        total := total + AddonLine(addons, selectedAddons, k);
        todo := todo - {k};
        done := done + {k};
      }
    }

    /** The slot lines of the hall summary: `selectedSlots.forEach`. */
    method SelectedSlotsTotal() returns (total: int)
      ensures total == SlotsTotal(slots, selectedSlots)
    {
      total := 0;
      var i := 0;
      while i < |selectedSlots|
        invariant 0 <= i <= |selectedSlots|
        invariant total == SlotsTotal(slots, selectedSlots[..i])
      {
        assert selectedSlots[..i + 1][..i] == selectedSlots[..i];
        var found := FindSlot(slots, selectedSlots[i]);
        if found.Some? {
          total := total + found.value.price;
        }
        i := i + 1;
      }
      assert selectedSlots[..i] == selectedSlots;
    }

    /** `updateUI`'s total: slots plus add-ons (add-ons for a hall only,
        not a staircase) when a date and a slot are chosen; the tour price
        for an event tour; price times tickets for an individual tour. */
    method SummaryTotal(category: Category, dateChosen: bool, t: ClientType) returns (s: Summary)
      ensures s == if IsHallCategory(category) && dateChosen && |selectedSlots| > 0 then
          Total(SlotsTotal(slots, selectedSlots) + (if category == Hall then AddonsTotal(addons, selectedAddons) else 0))
        else if category == EventTour && dateChosen then Total(t.tourPrice)
        else if category == IndividualTour && dateChosen then Total(t.ticketPrice * ticketCount)
        else NoSummary
    {
      if IsHallCategory(category) && dateChosen && |selectedSlots| > 0 {
        var total := SelectedSlotsTotal();
        if category == Hall {
          var addonsTotal := CalculateAddonsTotal();
          total := total + addonsTotal;
        }
        s := Total(total);
      } else if (category == EventTour || category == IndividualTour) && dateChosen {
        s := if category == EventTour then Total(t.tourPrice) else Total(t.ticketPrice * ticketCount);
      } else {
        s := NoSummary;
      }
    }
  }

  /** One iteration of `renderSlots`: the card at `i` drops its id from
      the selection when it is greyed out and selected. */
  lemma RenderStep(sel0: seq<int>, cur: seq<int>, catalog: seq<Slot>, i: nat, dateBooked: seq<int>, isToday: bool, nowMinutes: int)
    requires i < |catalog|
    requires cur == KeepEnabled(sel0, catalog, catalog[..i], dateBooked, isToday, nowMinutes)
    ensures KeepEnabled(sel0, catalog, catalog[..i + 1], dateBooked, isToday, nowMinutes) ==
      if SlotStateOf(catalog, dateBooked, catalog[i], isToday, nowMinutes).Disabled() && catalog[i].id in cur
      then WithoutId(cur, catalog[i].id) else cur
  {
    assert catalog[..i + 1] == catalog[..i] + [catalog[i]];
    KeepEnabledNextCard(sel0, catalog, catalog[..i], catalog[i], dateBooked, isToday, nowMinutes);
    if catalog[i].id !in cur {
      WithoutAbsent(cur, catalog[i].id);
    }
  }

  lemma FilterShrinks(sel: seq<int>, x: int)
    requires x in sel
    ensures |WithoutId(sel, x)| < |sel|
  {
    FilterLength(sel, x);
  }

  lemma {:induction false} FilterLength(sel: seq<int>, x: int)
    ensures |WithoutId(sel, x)| <= |sel|
    ensures x in sel ==> |WithoutId(sel, x)| < |sel|
  {
    if sel != [] {
      FilterLength(sel[1..], x);
    }
  }

  lemma RemoveAtKeepsNoDup(s: seq<int>, i: nat)
    requires NoDup(s) && i < |s|
    ensures NoDup(s[..i] + s[i + 1..])
  {
    var r := s[..i] + s[i + 1..];
    forall a, b | 0 <= a < b < |r| ensures r[a] != r[b] {
      var a' := if a < i then a else a + 1;
      var b' := if b < i then b else b + 1;
      assert r[a] == s[a'] && r[b] == s[b'];
    }
  }
}
