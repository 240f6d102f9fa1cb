/** The plugin's tables and the AJAX handlers that read and change them:
    booking submission, the admin status change and delete, holidays,
    slots, and the availability reads the booking form polls. */
module Ledger {
  import opened Text
  import opened Schema
  import opened Admission
  import opened Rows
  import opened Availability
  import opened Paging

  datatype StatusOutcome = InvalidStatus | RejectedAndDeleted | StatusUpdated

  function StatusMessage(r: StatusOutcome): string
  {
    match r
    case InvalidStatus => "Invalid status"
    case RejectedAndDeleted => "Booking rejected and deleted"
    case StatusUpdated => "Status updated successfully"
  }

  datatype SlotOutcome = FieldsRequired | SlotAdded(slot: Slot)

  /** The reply of `check_availability`. */
  datatype AvailabilityReport = AvailabilityReport(
    bookedSlots: seq<int>,
    totalTickets: int,
    remainingCapacity: int,
    dateBlockedByEvent: bool,
    dateBlockedByIndividual: bool)

  /** The reply of `get_booking_data`, without the server clock fields. */
  datatype BookingData = BookingData(
    bookingType: Option<BookingType>,
    slots: seq<Slot>,
    holidays: seq<Date>,
    bookedSlots: map<Date, seq<int>>,
    bookedDates: seq<Date>,
    ticketsByDate: map<Date, int>,
    eventBlockedDates: seq<Date>,
    individualBlockedDates: seq<Date>)

  /** A row of the admin listing: the booking, its type's category from the
      LEFT JOIN, and for a hall booking with slot ids the slots named. */
  datatype ListedBooking = ListedBooking(booking: Booking, category: Option<Category>, slotDetails: Option<seq<Slot>>)

  datatype BookingsPage = BookingsPage(rows: seq<ListedBooking>, total: nat, pages: nat, currentPage: int)

  datatype HolidayListing = AllHolidays(dates: seq<Date>) | HolidayPage(dates: seq<Date>, total: nat, pages: nat)

  /** The category the code reads from `$type`; a missing type has none of
      the four tested for. */
  function CategoryOf(types: seq<BookingType>, t: int): Category
  {
    match FindType(types, t)
    case None => OtherCategory
    case Some(bt) => bt.category
  }

  /** The rows `get_bookings` counts and lists: a type filter when the id is
      positive and a status filter when the status text is not empty. */
  function Matching(bs: seq<Booking>, typeFilter: int, statusFilter: string): (r: seq<Booking>)
    ensures forall b :: b in r <==>
      (b in bs && (typeFilter <= 0 || b.typeId == typeFilter) && (PhpEmpty(statusFilter) || StatusName(b.status) == statusFilter))
    ensures IdsIncreasing(bs) ==> IdsIncreasing(r)
  {
    if bs == [] then []
    else
      var b := bs[0];
      var rest := Matching(bs[1..], typeFilter, statusFilter);
      assert forall k :: 0 <= k < |bs[1..]| ==> bs[1..][k] == bs[k + 1];
      if (typeFilter <= 0 || b.typeId == typeFilter) && (PhpEmpty(statusFilter) || StatusName(b.status) == statusFilter)
      then
        assert forall k :: 0 <= k < |rest| ==> rest[k] in bs[1..];
        [b] + rest
      else rest
  }

  /** `ORDER BY created_at DESC`: the latest insert first. */
  function NewestFirst(bs: seq<Booking>): (r: seq<Booking>)
    ensures |r| == |bs|
    ensures forall i :: 0 <= i < |bs| ==> r[i] == bs[|bs| - 1 - i]
    ensures forall b :: b in r <==> b in bs
  {
    if bs == [] then [] else [bs[|bs| - 1]] + NewestFirst(bs[..|bs| - 1])
  }

  /** `SELECT ... FROM bt_slots WHERE id IN (ids)`. */
  function SlotsWithIds(slots: seq<Slot>, ids: seq<int>): (r: seq<Slot>)
    ensures forall s :: s in r <==> s in slots && s.id in ids
  {
    if slots == [] then []
    else (if slots[0].id in ids then [slots[0]] else []) + SlotsWithIds(slots[1..], ids)
  }

  function ListAll(types: seq<BookingType>, slots: seq<Slot>, bs: seq<Booking>): (r: seq<ListedBooking>)
    ensures |r| == |bs|
    ensures forall k :: 0 <= k < |bs| ==> r[k] == Listed(types, slots, bs[k])
  {
    if bs == [] then [] else [Listed(types, slots, bs[0])] + ListAll(types, slots, bs[1..])
  }

  function Listed(types: seq<BookingType>, slots: seq<Slot>, b: Booking): ListedBooking
  {
    var cat := if FindType(types, b.typeId).Some? then Some(FindType(types, b.typeId).value.category) else None;
    var details := if cat == Some(Hall) && !PhpEmpty(b.slotIds) then Some(SlotsWithIds(slots, ParseIdList(b.slotIds))) else None;
    ListedBooking(b, cat, details)
  }

  class BookingLedger {
    const types: seq<BookingType>
    var bookings: seq<Booking>
    var nextBookingId: nat
    var holidays: seq<Date>
    var slots: seq<Slot>
    var nextSlotId: int

    /** Primary keys are unique, no rejected status is stored, and the
        rows obey the admission rules' exclusivity. */
    ghost predicate Valid()
      reads this
    {
      && TypeIdsDistinct(types)
      && IdsIncreasing(bookings)
      && (forall b :: b in bookings ==> b.id < nextBookingId)
      && AllActive(bookings)
      && LedgerInvariant(types, bookings)
      && Distinct(holidays)
    }

    constructor(types: seq<BookingType>)
      requires TypeIdsDistinct(types)
      ensures Valid()
      ensures this.types == types && bookings == [] && holidays == [] && slots == []
    {
      this.types := types;
      bookings := [];
      nextBookingId := 1;
      holidays := [];
      slots := [];
      nextSlotId := 1;
    }

    /** The hall loop of `submit_booking`: does an active booking of the
        hall on that date hold one of the requested slot ids? */
    method HasSlotConflict(typeId: int, d: Date, requested: seq<int>) returns (conflict: bool)
      ensures conflict == SlotConflict(bookings, typeId, d, requested)
    {
      var bs := bookings;
      var i := 0;
      while i < |bs|
        invariant 0 <= i <= |bs|
        invariant !SlotConflict(bs[..i], typeId, d, requested)
      {
        var b := bs[i];
        SlotConflictSnoc(bs[..i], b, typeId, d, requested);
        assert bs[..i] + [b] == bs[..i + 1];
        if ActiveOn(b, typeId, d) && !PhpEmpty(b.slotIds) {
          var booked := ParseIdList(b.slotIds);
          if Intersects(requested, booked) {
            assert ActiveOn(bs[i], typeId, d) && Intersects(requested, BookedIds(bs[i]));
            return true;
          }
        }
        i := i + 1;
      }
      assert bs[..i] == bs;
      return false;
    }

    /** `submit_booking`: the checks in order, then the insert of a pending
        row under the next id. */
    method SubmitBooking(req: BookingRequest) returns (outcome: Outcome)
      requires Valid()
      modifies this
      ensures Valid()
      ensures outcome == Decide(types, old(bookings), old(nextBookingId), req)
      ensures outcome.Admitted? ==> bookings == old(bookings) + [outcome.row] && nextBookingId == old(nextBookingId) + 1
      ensures outcome.Refused? ==> bookings == old(bookings) && nextBookingId == old(nextBookingId)
      ensures holidays == old(holidays) && slots == old(slots) && nextSlotId == old(nextSlotId)
    {
      var v := Validate(types, req);
      if v.Invalid? {
        return Refused(v.error);
      }
      var t := v.bookingType;
      var d := v.date;
      if t.category == Hall {
        var conflict := HasSlotConflict(t.id, d, ParseIdList(req.slotIds));
        if conflict {
          return Refused(SlotsTaken);
        }
      } else if t.category == EventTour {
        if HasActiveOfFirst(types, bookings, IndividualTour, d) {
          return Refused(DateTakenByIndividual);
        }
        if CountActive(bookings, t.id, d) > 0 {
          return Refused(EventAlreadyBooked);
        }
      } else if t.category == IndividualTour {
        var booked := TicketsBooked(bookings, t.id, d);
        if booked + req.ticketCount.GetOr(1) > t.maxDailyCapacity {
          return Refused(NotEnoughTickets(t.maxDailyCapacity - booked));
        }
        if HasActiveOfFirst(types, bookings, EventTour, d) {
          return Refused(DateTakenByEvent);
        }
      }
      var row := NewRow(nextBookingId, req, d, v.paymentImage);
      assert Decide(types, bookings, nextBookingId, req) == Admitted(row);
      AdmissionKeepsInvariant(types, bookings, nextBookingId, req);
      AppendKeepsRows(bookings, row, nextBookingId);
      bookings := bookings + [row];
      nextBookingId := nextBookingId + 1;
      outcome := Admitted(row);
    }

    /** `update_booking_status`: an unknown status is refused; `rejected`
        deletes the row; `pending` and `approved` change its status only. */
    method UpdateBookingStatus(id: int, status: string) returns (r: StatusOutcome)
      requires Valid()
      modifies this
      ensures Valid()
      ensures r == InvalidStatus <==> ParseStatus(status).None?
      ensures r == InvalidStatus ==> bookings == old(bookings)
      ensures r == RejectedAndDeleted <==> status == "rejected"
      ensures r == RejectedAndDeleted ==> bookings == RemoveBooking(old(bookings), id)
      ensures r == StatusUpdated ==> bookings == SetStatus(old(bookings), id, ParseStatus(status).value)
      ensures nextBookingId == old(nextBookingId) && holidays == old(holidays) && slots == old(slots) && nextSlotId == old(nextSlotId)
    {
      match ParseStatus(status)
      case None =>
        r := InvalidStatus;
      case Some(st) =>
        if st == Rejected {
          RemoveKeepsInvariant(types, bookings, id);
          RemoveKeepsIdsIncreasing(bookings, id);
          bookings := RemoveBooking(bookings, id);
          r := RejectedAndDeleted;
        } else {
          SetStatusKeepsInvariant(types, bookings, id, st);
          bookings := SetStatus(bookings, id, st);
          r := StatusUpdated;
        }
    }

    /** `delete_booking`. */
    method DeleteBooking(id: int)
      requires Valid()
      modifies this
      ensures Valid()
      ensures bookings == RemoveBooking(old(bookings), id)
      ensures nextBookingId == old(nextBookingId) && holidays == old(holidays) && slots == old(slots) && nextSlotId == old(nextSlotId)
    {
      RemoveKeepsInvariant(types, bookings, id);
      RemoveKeepsIdsIncreasing(bookings, id);
      bookings := RemoveBooking(bookings, id);
    }

    /** `save_holiday`: the flag is on only for the exact text "true". */
    method SaveHoliday(date: Date, isHoliday: string)
      requires Valid()
      modifies this
      ensures Valid()
      ensures holidays == SaveHolidayRows(old(holidays), date, isHoliday == "true")
      ensures bookings == old(bookings) && nextBookingId == old(nextBookingId) && slots == old(slots) && nextSlotId == old(nextSlotId)
    {
      SaveHolidayKeepsDistinct(holidays, date, isHoliday == "true");
      holidays := SaveHolidayRows(holidays, date, isHoliday == "true");
    }

    /** `delete_holiday`. */
    method DeleteHoliday(date: Date)
      requires Valid()
      modifies this
      ensures Valid()
      ensures holidays == WithoutDate(old(holidays), date)
      ensures bookings == old(bookings) && nextBookingId == old(nextBookingId) && slots == old(slots) && nextSlotId == old(nextSlotId)
    {
      WithoutDateKeepsDistinct(holidays, date);
      holidays := WithoutDate(holidays, date);
    }

    /** `save_slot`: name, start and end must be non-empty; the type id is
        not checked. */
    method SaveSlot(typeId: int, name: string, startTime: string, endTime: string, price: int) returns (r: SlotOutcome)
      requires Valid()
      modifies this
      ensures Valid()
      ensures r == FieldsRequired <==> PhpEmpty(name) || PhpEmpty(startTime) || PhpEmpty(endTime)
      ensures r == FieldsRequired ==> slots == old(slots) && nextSlotId == old(nextSlotId)
      ensures r.SlotAdded? ==>
        (r.slot == Slot(old(nextSlotId), typeId, name, startTime, endTime, price)
         && slots == old(slots) + [r.slot] && nextSlotId == old(nextSlotId) + 1)
      ensures bookings == old(bookings) && nextBookingId == old(nextBookingId) && holidays == old(holidays)
    {
      if PhpEmpty(name) || PhpEmpty(startTime) || PhpEmpty(endTime) {
        return FieldsRequired;
      }
      var s := Slot(nextSlotId, typeId, name, startTime, endTime, price);
      slots := slots + [s];
      nextSlotId := nextSlotId + 1;
      r := SlotAdded(s);
    }

    /** `check_availability`: one pass over the active bookings of the type
        on the date, collecting hall slot ids and summing tickets; the
        cross-category flags; the unclamped remaining capacity. */
    method CheckAvailability(typeId: int, d: Date) returns (r: AvailabilityReport)
      ensures forall x :: x in r.bookedSlots <==> CategoryOf(types, typeId) == Hall && Held(bookings, typeId, d, x)
      ensures NoDup(r.bookedSlots)
      ensures r.totalTickets == TicketsBooked(bookings, typeId, d)
      ensures r.remainingCapacity == MaxCapacityOf(types, typeId) - r.totalTickets
      ensures r.dateBlockedByEvent == HasActiveOfFirst(types, bookings, EventTour, d)
      ensures r.dateBlockedByIndividual == HasActiveOfFirst(types, bookings, IndividualTour, d)
    {
      var hall := CategoryOf(types, typeId) == Hall;
      var acc: seq<int> := [];
      var total := 0;
      var bs := bookings;
      var i := 0;
      while i < |bs|
        invariant 0 <= i <= |bs|
        invariant total == TicketsBooked(bs[..i], typeId, d)
        invariant forall x :: x in acc <==> hall && Held(bs[..i], typeId, d, x)
      {
        var b := bs[i];
        HeldListStep(bs, i, typeId, d, hall, acc);
        assert bs[..i] + [b] == bs[..i + 1];
        TicketsBookedSnoc(bs[..i], b, typeId, d);
        if ActiveOn(b, typeId, d) {
          if hall && !PhpEmpty(b.slotIds) {
            acc := acc + ParseIdList(b.slotIds);
          }
          total := total + b.ticketCount;
        }
        i := i + 1;
      }
      assert bs[..i] == bs;
      r := AvailabilityReport(Unique(acc), total, MaxCapacityOf(types, typeId) - total,
                              HasActiveOfFirst(types, bookings, EventTour, d),
                              HasActiveOfFirst(types, bookings, IndividualTour, d));
    }

    /** `get_booking_data` for dates from `today` on: per-date booked slot
        ids for a hall, otherwise the booked dates and, for the individual
        tour, the tickets per date; the cross-category blocked dates. */
    method GetBookingData(typeId: int, today: Date) returns (r: BookingData)
      ensures r.bookingType == FindType(types, typeId) && r.holidays == holidays
      ensures r.slots == if CategoryOf(types, typeId) == Hall then SlotsOfType(slots, typeId) else []
      ensures r.bookedSlots == if CategoryOf(types, typeId) == Hall then BookedSlotsByDate(bookings, typeId, today) else map[]
      ensures r.bookedDates == if CategoryOf(types, typeId) == Hall then [] else ActiveDates(bookings, typeId, today)
      ensures r.ticketsByDate == if CategoryOf(types, typeId) == IndividualTour then TicketsByDate(bookings, typeId, today) else map[]
      ensures r.eventBlockedDates == match FirstOfCategory(types, EventTour) case None => [] case Some(e) => ActiveDates(bookings, e, today)
      ensures r.individualBlockedDates == match FirstOfCategory(types, IndividualTour) case None => [] case Some(e) => ActiveDates(bookings, e, today)
    {
      var category := CategoryOf(types, typeId);
      var typeSlots := if category == Hall then SlotsOfType(slots, typeId) else [];
      var booked: map<Date, seq<int>> := map[];
      var dates: seq<Date> := [];
      var tickets: map<Date, int> := map[];
      var bs := bookings;
      var i := 0;
      while i < |bs|
        invariant 0 <= i <= |bs|
        invariant category == Hall ==> booked == SlotsByDate(bs[..i], typeId, today)
        invariant category != Hall ==> booked == map[]
        invariant category == Hall ==> dates == []
        invariant category != Hall ==> dates == ActiveDates(bs[..i], typeId, today)
        invariant category == IndividualTour ==> tickets == TicketsByDate(bs[..i], typeId, today)
        invariant category != IndividualTour ==> tickets == map[]
      {
        // the query keeps the active rows of this type from today on
        if category == Hall {
          SlotsByDateStep(bs, typeId, today, i, booked);
          booked := AddSlots(booked, bs[i], typeId, today);
        } else {
          ActiveDatesStep(bs, typeId, today, i, dates);
          dates := AddDate(dates, bs[i], typeId, today);
          if category == IndividualTour {
            TicketsByDateStep(bs, typeId, today, i, tickets);
            tickets := AddTickets(tickets, bs[i], typeId, today);
          }
        }
        i := i + 1;
      }
      assert bs[..i] == bs;
      var deduped := UniquePerDate(booked);
      var eventDates := match FirstOfCategory(types, EventTour) case None => [] case Some(e) => ActiveDates(bookings, e, today);
      var individualDates := match FirstOfCategory(types, IndividualTour) case None => [] case Some(e) => ActiveDates(bookings, e, today);
      r := BookingData(FindType(types, typeId), typeSlots, holidays, deduped, dates, tickets, eventDates, individualDates);
    }

    /** `get_bookings`: the matching rows newest first, one page of them,
        the match count and the page count. */
    function GetBookings(typeFilter: int, statusFilter: string, page: int): (r: BookingsPage)
      reads this
      ensures |r.rows| <= ITEMS_PER_PAGE
      ensures r.total == |Matching(bookings, typeFilter, statusFilter)| && r.pages == PageCount(r.total)
      ensures forall k :: 0 <= k < |r.rows| ==>
        (r.rows[k].booking in bookings
         && (typeFilter <= 0 || r.rows[k].booking.typeId == typeFilter)
         && (PhpEmpty(statusFilter) || StatusName(r.rows[k].booking.status) == statusFilter))
      ensures page > r.pages || page < 1 ==> r.rows == []
      ensures page >= 1 ==> |r.rows| == if r.total <= PageOffset(page) then 0 else Min(ITEMS_PER_PAGE, r.total - PageOffset(page))
      ensures page >= 1 ==> forall k :: 0 <= k < |r.rows| ==>
        PageOffset(page) + k < r.total
        && r.rows[k] == Listed(types, slots, NewestFirst(Matching(bookings, typeFilter, statusFilter))[PageOffset(page) + k])
      ensures r.currentPage == page
    {
      var m := NewestFirst(Matching(bookings, typeFilter, statusFilter));
      var shown := PageRows(m, page);
      assert forall k :: 0 <= k < |shown| ==> shown[k] in m;
      BookingsPage(ListAll(types, slots, shown), |m|, PageCount(|m|), page)
    }

    /** `get_holidays`: every date with `get_all`, else one page; latest date first. */
    function GetHolidays(page: int, getAll: bool): (r: HolidayListing)
      reads this
      ensures r.AllHolidays? <==> getAll
      ensures SortedDesc(r.dates)
      ensures getAll ==> multiset(r.dates) == multiset(holidays)
      ensures r.AllHolidays? ==> r.dates == SortDesc(holidays)
      ensures r.HolidayPage? ==> r.dates == PageRows(SortDesc(holidays), page)
      ensures r.HolidayPage? ==> |r.dates| <= ITEMS_PER_PAGE && r.total == |holidays| && r.pages == PageCount(|holidays|)
      ensures r.HolidayPage? ==> forall x :: x in r.dates ==> x in holidays
    {
      var sorted := SortDesc(holidays);
      if getAll then AllHolidays(sorted)
      else
        var shown := PageRows(sorted, page);
        SortedPage(sorted, page);
        assert forall x :: x in shown ==> x in multiset(sorted);
        HolidayPage(shown, |holidays|, PageCount(|holidays|))
    }
  }

  /** `SELECT * FROM bt_slots WHERE booking_type_id = t`. */
  function SlotsOfType(slots: seq<Slot>, t: int): (r: seq<Slot>)
    ensures forall s :: s in r <==> s in slots && s.typeId == t
  {
    if slots == [] then []
    else (if slots[0].typeId == t then [slots[0]] else []) + SlotsOfType(slots[1..], t)
  }

  /** A page of a descending list is descending and draws on the list. */
  lemma SortedPage(sorted: seq<int>, page: int)
    requires SortedDesc(sorted)
    ensures SortedDesc(PageRows(sorted, page))
    ensures forall x :: x in PageRows(sorted, page) ==> x in sorted
  {
  }
}
