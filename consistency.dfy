/** How the form's view of availability lines up with the server's
    admission rules: for a date from today on, what the calendar and the
    slot cards let a visitor submit, given the data `get_booking_data`
    sent, is what `submit_booking` admits, and what they grey out it
    refuses. A poll keeps that true for a hall, but for the two tours it
    empties the loaded dates and tickets, and the agreement is lost. */
module Consistency {
  import opened Text
  import opened Schema
  import opened Admission
  import opened Availability
  import opened Calendar
  import opened Form
  import opened Ledger

  /** The form's `typeData`: the booking-type row as JSON. */
  function ClientTypeOf(t: BookingType): (c: ClientType)
    ensures c.category == t.category && c.maxDailyCapacity == Some(t.maxDailyCapacity)
    ensures CapacityShown(c) == t.maxDailyCapacity
  {
    ClientType(t.category, t.weekendDays, Some(t.maxDailyCapacity), t.bookingWindowMode,
               Some(t.bookingWindowDays), t.tourStartTime, t.ticketPrice, t.tourPrice)
  }

  /** The dates the first type of category `c` has active bookings on,
      from `today` on; none when there is no such type. */
  function BlockedDates(types: seq<BookingType>, bs: seq<Booking>, c: Category, today: Date): seq<Date>
  {
    match FirstOfCategory(types, c)
    case None => []
    case Some(first) => ActiveDates(bs, first, today)
  }

  /** A date from today on is among those blocked dates exactly when the
      server sees an active booking of that type on it. */
  lemma BlockedDatesAgree(types: seq<BookingType>, bs: seq<Booking>, c: Category, today: Date, d: Date)
    requires d >= today
    ensures d in BlockedDates(types, bs, c, today) <==> HasActiveOfFirst(types, bs, c, d)
  {
    match FirstOfCategory(types, c)
    case None =>
    case Some(first) =>
      CountActivePositive(bs, first, d);
  }

  /** `selectedSlots.join(',')`: the slot ids as the form posts them. */
  function JoinIds(ids: seq<int>): string
  {
    Join(seq(|ids|, k requires 0 <= k < |ids| => IntToString(ids[k])), ',')
  }

  /** The server reads back exactly the ids the form posted. */
  lemma IdListRoundTrip(ids: seq<int>)
    requires ids != []
    ensures ParseIdList(JoinIds(ids)) == ids
  {
    var texts := seq(|ids|, k requires 0 <= k < |ids| => IntToString(ids[k]));
    forall k | 0 <= k < |texts| ensures ',' !in texts[k] {
      IntToStringHasNoSeparator(ids[k], ',');
    }
    SplitJoin(texts, ',');
    forall k | 0 <= k < |texts| ensures Intval(texts[k]) == ids[k] {
      LeadingIntOfIntToString(ids[k], []);
      assert texts[k] + [] == texts[k];
    }
  }

  /** A slot id the date's booked list shows is exactly an id whose
      request the server refuses as taken. */
  lemma BookedSlotMeansConflict(bs: seq<Booking>, t: int, today: Date, d: Date, x: int)
    requires d >= today
    ensures x in BookedOn(BookedSlotsByDate(bs, t, today), d) <==> SlotConflict(bs, t, d, [x])
  {
    var held := BookedOn(BookedSlotsByDate(bs, t, today), d);
    HeldOnDate(bs, t, today, d);
    HeldIdsAgreeWithConflict(bs, t, d, [x], held);
  }

  /** The date's booked list holds exactly the held ids. */
  lemma HeldOnDate(bs: seq<Booking>, t: int, today: Date, d: Date)
    requires d >= today
    ensures forall x :: x in BookedOn(BookedSlotsByDate(bs, t, today), d) <==> Held(bs, t, d, x)
  {
    forall x | Held(bs, t, d, x) ensures AnyActive(bs, t, d) {
      var j :| 0 <= j < |bs| && ActiveOn(bs[j], t, d) && x in BookedIds(bs[j]);
    }
  }

  /** Every selected id belongs to a slot card that is not greyed out. */
  predicate EnabledCardsOnly(cards: seq<Slot>, dateBooked: seq<int>, sel: seq<int>, isToday: bool, nowMinutes: int)
  {
    forall x :: x in sel ==>
      exists k :: 0 <= k < |cards| && cards[k].id == x && !SlotStateOf(cards, dateBooked, cards[k], isToday, nowMinutes).Disabled()
  }

  /** A hall selection made of slot cards that are not greyed out, on the
      booked list `get_booking_data` sent, passes the server's hall check;
      a selection holding a booked id does not. */
  lemma HallSelectionAdmitted(types: seq<BookingType>, bs: seq<Booking>, t: BookingType, today: Date, d: Date,
                              req: BookingRequest, cards: seq<Slot>, sel: seq<int>, isToday: bool, nowMinutes: int)
    requires t.category == Hall && d >= today
    requires sel != [] && req.slotIds == JoinIds(sel)
    ensures EnabledCardsOnly(cards, BookedOn(BookedSlotsByDate(bs, t.id, today), d), sel, isToday, nowMinutes)
      ==> CategoryCheck(types, bs, t, d, req) == None
    ensures (exists x :: x in sel && x in BookedOn(BookedSlotsByDate(bs, t.id, today), d))
      ==> CategoryCheck(types, bs, t, d, req) == Some(SlotsTaken)
  {
    var dateBooked := BookedOn(BookedSlotsByDate(bs, t.id, today), d);
    IdListRoundTrip(sel);
    HeldOnDate(bs, t.id, today, d);
    HeldIdsAgreeWithConflict(bs, t.id, d, sel, dateBooked);
  }

  /** For an event tour the calendar's cross-booking flag on a date from
      today on is set exactly when the server refuses the date, on the
      data as loaded. */
  lemma EventCrossMatchesServer(types: seq<BookingType>, bs: seq<Booking>, t: BookingType, today: Date, d: Date,
                                req: BookingRequest, data: CalendarData, dayOfWeek: int, nowMinutes: int)
    requires t.category == EventTour && d >= today
    requires data.typeData == Some(ClientTypeOf(t))
    requires data.bookedDates == ActiveDates(bs, t.id, today)
    requires data.individualBlockedDates == BlockedDates(types, bs, IndividualTour, today)
    ensures DayFlagsOf(data, d, dayOfWeek, today, nowMinutes).blockedByCross <==> CategoryCheck(types, bs, t, d, req).Some?
  {
    BlockedDatesAgree(types, bs, IndividualTour, today, d);
    CountActivePositive(bs, t.id, d);
  }

  /** For an individual tour on a date from today on, on the data as
      loaded: the server admits `n` tickets exactly when the date is not
      blocked by an event and `n` is within the form's `maxAvailable`; a
      date the calendar blocks is refused for any count. */
  lemma IndividualTicketsMatchServer(types: seq<BookingType>, bs: seq<Booking>, t: BookingType, today: Date, d: Date,
                                     req: BookingRequest, data: CalendarData, dayOfWeek: int, nowMinutes: int, n: int)
    requires t.category == IndividualTour && d >= today
    requires data.typeData == Some(ClientTypeOf(t))
    requires data.ticketsByDate == TicketsByDate(bs, t.id, today)
    requires data.eventBlockedDates == BlockedDates(types, bs, EventTour, today)
    requires req.ticketCount == Some(n) && n >= 1
    ensures CategoryCheck(types, bs, t, d, req) == None <==>
      d !in data.eventBlockedDates && n <= MaxAvailable(ClientTypeOf(t), TicketsOn(data.ticketsByDate, d))
    ensures DayFlagsOf(data, d, dayOfWeek, today, nowMinutes).blockedByCross ==> CategoryCheck(types, bs, t, d, req).Some?
  {
    BlockedDatesAgree(types, bs, EventTour, today, d);
    TicketsBookedNone(bs, t.id, d);
    TicketsByDateCounts(bs, t.id, today);
    assert TicketsOn(data.ticketsByDate, d) == TicketsBooked(bs, t.id, d);
  }

  // ---------------------------------------------------------------------
  // The poll

  /** A `check_availability` reply as the poll reads it: the booked slot
      ids are there; the tickets per date, the booked dates, the blocked
      dates and the add-on stock the poll looks for are not. */
  function PollReplyOf(report: AvailabilityReport): PollReply
  {
    PollReply(Some(report.bookedSlots), None, None, None, None, None)
  }

  /** The hall poll keeps the selected date's booked list true to the
      server: given the ids `check_availability` reports held, the list
      afterwards holds exactly the ids held that day. */
  lemma PolledHallListHeld(bs: seq<Booking>, t: BookingType, today: Date, d: Date,
                           data: CalendarData, report: AvailabilityReport)
    requires t.category == Hall && d >= today
    requires data.typeData == Some(ClientTypeOf(t))
    requires data.bookedSlots == BookedSlotsByDate(bs, t.id, today)
    requires forall x :: x in report.bookedSlots <==> Held(bs, t.id, d, x)
    ensures forall x :: x in BookedOn(PolledData(data, PollReplyOf(report), Some(d)).bookedSlots, d) <==> Held(bs, t.id, d, x)
  {
    var reply := PollReplyOf(report);
    var polled := PolledData(data, reply, Some(d));
    if !HallListPolled(data, reply, Some(d)) {
      var before := BookedOn(data.bookedSlots, d);
      assert multiset(report.bookedSlots) == multiset(before);
      assert forall x :: x in before <==> x in multiset(before);
      assert forall x :: x in report.bookedSlots <==> x in multiset(report.bookedSlots);
      HeldOnDate(bs, t.id, today, d);
    }
  }

  /** The individual-tour poll forgets the tickets per date, since the
      reply has none: a date whose capacity is used up is crossed out on
      the data as loaded, but after a poll it is not, and the ticket
      counter offers the whole capacity again, while the server still
      refuses even one ticket. */
  lemma PollReopensFullIndividualDay(types: seq<BookingType>, bs: seq<Booking>, t: BookingType, today: Date, d: Date,
                                     req: BookingRequest, data: CalendarData, report: AvailabilityReport,
                                     selected: Option<Date>, dayOfWeek: int, nowMinutes: int)
    requires t.category == IndividualTour && d >= today
    requires data.typeData == Some(ClientTypeOf(t))
    requires data.ticketsByDate == TicketsByDate(bs, t.id, today)
    requires data.eventBlockedDates == BlockedDates(types, bs, EventTour, today)
    requires !HasActiveOfFirst(types, bs, EventTour, d)
    requires t.maxDailyCapacity >= 1 && TicketsBooked(bs, t.id, d) >= t.maxDailyCapacity
    requires req.ticketCount == Some(1)
    ensures DayFlagsOf(data, d, dayOfWeek, today, nowMinutes).blockedByCross
    ensures var polled := PolledData(data, PollReplyOf(report), selected);
      && !DayFlagsOf(polled, d, dayOfWeek, today, nowMinutes).blockedByCross
      && MaxAvailable(ClientTypeOf(t), TicketsOn(polled.ticketsByDate, d)) == t.maxDailyCapacity
    ensures CategoryCheck(types, bs, t, d, req).Some?
  {
    IndividualTicketsMatchServer(types, bs, t, today, d, req, data, dayOfWeek, nowMinutes, 1);
    BlockedDatesAgree(types, bs, EventTour, today, d);
  }

  /** The event-tour poll forgets the type's own booked dates, since the
      reply has none: a date the type already has a booking on is crossed
      out on the data as loaded, but after a poll it is not, while the
      server still refuses it. */
  lemma PollReopensBookedEventDate(types: seq<BookingType>, bs: seq<Booking>, t: BookingType, today: Date, d: Date,
                                   req: BookingRequest, data: CalendarData, report: AvailabilityReport,
                                   selected: Option<Date>, dayOfWeek: int, nowMinutes: int)
    requires t.category == EventTour && d >= today
    requires data.typeData == Some(ClientTypeOf(t))
    requires data.bookedDates == ActiveDates(bs, t.id, today)
    requires data.individualBlockedDates == BlockedDates(types, bs, IndividualTour, today)
    requires !HasActiveOfFirst(types, bs, IndividualTour, d)
    requires d in data.bookedDates
    ensures DayFlagsOf(data, d, dayOfWeek, today, nowMinutes).blockedByCross
    ensures !DayFlagsOf(PolledData(data, PollReplyOf(report), selected), d, dayOfWeek, today, nowMinutes).blockedByCross
    ensures CategoryCheck(types, bs, t, d, req).Some?
  {
    EventCrossMatchesServer(types, bs, t, today, d, req, data, dayOfWeek, nowMinutes);
    BlockedDatesAgree(types, bs, IndividualTour, today, d);
  }

  // ---------------------------------------------------------------------
  // The form's own checks before it posts

  /** What the submit handler checks before posting, on the trimmed
      fields; `image` is the chosen file, if any. */
  datatype FormInput = FormInput(
    category: Category,
    dateChosen: bool,
    selectedSlots: seq<int>,
    name: string,
    phone: string,
    email: string,
    transactionId: string,
    image: Option<Upload>)

  /** The toast the submit handler shows instead of posting, if any. */
  function ClientSubmitError(f: FormInput): (r: Option<string>)
    ensures r.None? <==>
      && f.dateChosen
      && !(IsHallCategory(f.category) && f.selectedSlots == [])
      && f.name != "" && f.phone != "" && f.email != ""
      && !(f.transactionId == "" && f.image.None?)
      && !(f.image.Some? && f.image.value.size > MAX_UPLOAD_BYTES)
  {
    if !f.dateChosen then Some("Please select a date")
    else if IsHallCategory(f.category) && f.selectedSlots == [] then Some("Please select at least one slot")
    else if f.name == "" || f.phone == "" || f.email == "" then Some("Please fill in all required fields")
    else if f.transactionId == "" && f.image.None? then Some("Please provide Transaction ID or Payment Screenshot")
    else if f.image.Some? && f.image.value.size > MAX_UPLOAD_BYTES then Some("Payment image must be less than 1MB")
    else None
  }

  /** The request the form posts for a chosen date. */
  function RequestOf(f: FormInput, typeId: int, d: Date, ticketCount: int, totalPrice: int, notes: string): BookingRequest
  {
    BookingRequest(typeId, Some(d), JoinIds(f.selectedSlots), Some(ticketCount), totalPrice,
                   f.name, f.email, f.phone, f.transactionId, notes, f.image)
  }

  /** A post the form lets through passes the server's validation when the
      type exists, its slot ids are positive, no text field is "0" (which
      PHP's `empty` also refuses) and the image, if any, is of an allowed
      type and was stored. */
  lemma ClientCheckImpliesValidated(types: seq<BookingType>, f: FormInput, typeId: int, d: Date, ticketCount: int, totalPrice: int, notes: string)
    requires ClientSubmitError(f).None?
    requires typeId != 0 && FindType(types, typeId).Some? && FindType(types, typeId).value.category == f.category
    requires forall x :: x in f.selectedSlots ==> x > 0
    requires f.name != "0" && f.phone != "0" && f.email != "0" && f.transactionId != "0"
    requires f.image.Some? ==> UploadTypeAllowed(f.image.value) && f.image.value.moved && !PhpEmpty(f.image.value.url)
    ensures Validate(types, RequestOf(f, typeId, d, ticketCount, totalPrice, notes)).Validated?
  {
    var req := RequestOf(f, typeId, d, ticketCount, totalPrice, notes);
    if f.category == Hall {
      IdsTextNotEmpty(f.selectedSlots);
    }
    assert !PhpEmpty(req.customerName) && !PhpEmpty(req.customerEmail) && !PhpEmpty(req.customerPhone);
    assert !(PhpEmpty(req.transactionId) && PhpEmpty(StoredImage(req.upload)));
    assert req.upload.Some? ==> !UploadTooLarge(req.upload.value);
  }

  /** The posted id list of positive ids is neither "" nor "0". */
  lemma IdsTextNotEmpty(ids: seq<int>)
    requires ids != [] && forall x :: x in ids ==> x > 0
    ensures !PhpEmpty(JoinIds(ids))
  {
    var texts := seq(|ids|, k requires 0 <= k < |ids| => IntToString(ids[k]));
    var joined := JoinIds(ids);
    var head := texts[0];
    if |texts| > 1 {
      assert joined == head + [','] + Join(texts[1..], ',');
    }
    assert joined[..|head|] == head;
    assert ids[0] in ids;
    NatToStringValue(ids[0]);
    assert DigitsValue("0") == 0;
    assert head != "0";
  }

  /** The two layers part ways on a field that is exactly "0": the form
      lets it through, the server answers that required fields are missing. */
  lemma ZeroNameRefusedOnlyByServer(types: seq<BookingType>, f: FormInput, typeId: int, d: Date)
    requires ClientSubmitError(f).None? && f.name == "0"
    ensures Validate(types, RequestOf(f, typeId, d, 1, 0, "")) == Invalid(MissingFields)
  {
    assert PhpEmpty(RequestOf(f, typeId, d, 1, 0, "").customerName);
  }
}
