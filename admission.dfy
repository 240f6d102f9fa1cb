/** The server's admission rules for a new booking (`submit_booking` in
    booking-tour.php) and the ledger aggregates they read: which rows are
    active on a date, how many tickets are booked, which slot ids are held.
    Everything here is a function of the booking types and the booking rows;
    the ledger class applies it. */
module Admission {
  import opened Text
  import opened Schema

  /** `$file['size'] > 1 * 1024 * 1024` refuses the payment image. */
  const MAX_UPLOAD_BYTES: int := 1024 * 1024

  const ALLOWED_IMAGE_TYPES: seq<string> := ["image/jpeg", "image/png", "image/gif", "image/webp"]

  /** An upload that arrived without error. Storing it is file-system work
      done outside the model: `moved` says whether it succeeded and `url` is
      the address it was then given. */
  datatype Upload = Upload(size: int, mimeType: string, moved: bool, url: string)

  /** The submitted form after sanitising. `date` is None for an empty date,
      `ticketCount` is None when the field was not sent. */
  datatype BookingRequest = BookingRequest(
    typeId: int,
    date: Option<Date>,
    slotIds: string,
    ticketCount: Option<int>,
    totalPrice: int,
    customerName: string,
    customerEmail: string,
    customerPhone: string,
    transactionId: string,
    notes: string,
    upload: Option<Upload>)

  datatype SubmitError =
    | MissingFields
    | InvalidType
    | NoSlotSelected
    | ImageTooLarge
    | ImageTypeNotAllowed
    | PaymentMissing
    | SlotsTaken
    | DateTakenByIndividual
    | EventAlreadyBooked
    | NotEnoughTickets(remaining: int)
    | DateTakenByEvent

  /** The text sent back with each refusal. */
  function Message(e: SubmitError): string
  {
    match e
    case MissingFields => "Name, Email and Phone are required"
    case InvalidType => "Invalid booking type"
    case NoSlotSelected => "Please select at least one slot"
    case ImageTooLarge => "Payment image must be less than 1MB"
    case ImageTypeNotAllowed => "Invalid image type. Allowed: JPG, PNG, GIF, WebP"
    case PaymentMissing => "Either Transaction ID or Payment Screenshot is required"
    case SlotsTaken => "Some slots are already booked. Please refresh and try again."
    case DateTakenByIndividual => "This date is not available for event booking."
    case EventAlreadyBooked => "This date already has an event booking."
    case NotEnoughTickets(n) => "Not enough tickets available. Only " + IntToString(n) + " remaining."
    case DateTakenByEvent => "This date is not available due to an event booking."
  }

  datatype Outcome = Admitted(row: Booking) | Refused(error: SubmitError)

  // ---------------------------------------------------------------------
  // Ledger aggregates (the `status IN ('pending', 'approved')` queries)

  predicate ActiveOn(b: Booking, typeId: int, d: Date)
  {
    b.typeId == typeId && b.date == d && IsActive(b.status)
  }

  /** `SELECT COUNT(*) ... WHERE booking_type_id = t AND booking_date = d AND active`. */
  function CountActive(bs: seq<Booking>, typeId: int, d: Date): nat
  {
    if bs == [] then 0
    else CountActive(bs[..|bs| - 1], typeId, d) + (if ActiveOn(bs[|bs| - 1], typeId, d) then 1 else 0)
  }

  /** `SELECT COALESCE(SUM(ticket_count), 0) ...` over the same rows. */
  function TicketsBooked(bs: seq<Booking>, typeId: int, d: Date): int
  {
    if bs == [] then 0
    else TicketsBooked(bs[..|bs| - 1], typeId, d) + (if ActiveOn(bs[|bs| - 1], typeId, d) then bs[|bs| - 1].ticketCount else 0)
  }

  /** Whether the first type of category `c` has an active booking on `d`;
      false when there is no type of that category. */
  predicate HasActiveOfFirst(types: seq<BookingType>, bs: seq<Booking>, c: Category, d: Date)
  {
    match FirstOfCategory(types, c)
    case None => false
    case Some(t) => CountActive(bs, t, d) > 0
  }

  function IntvalAll(parts: seq<string>): (r: seq<int>)
    ensures |r| == |parts|
    ensures forall i :: 0 <= i < |parts| ==> r[i] == Intval(parts[i])
  {
    if parts == [] then [] else [Intval(parts[0])] + IntvalAll(parts[1..])
  }

  /** `array_map('intval', explode(',', $text))`. */
  function ParseIdList(text: string): seq<int> { IntvalAll(Split(text, ',')) }

  /** The slot ids a stored booking holds: none when its `slot_ids` text is
      falsy in PHP. */
  function BookedIds(b: Booking): seq<int>
  {
    if PhpEmpty(b.slotIds) then [] else ParseIdList(b.slotIds)
  }

  predicate Intersects(a: seq<int>, b: seq<int>) { exists x :: x in a && x in b }

  /** Some active booking of the hall on that date holds a requested id. */
  predicate SlotConflict(bs: seq<Booking>, typeId: int, d: Date, requested: seq<int>)
  {
    exists i :: 0 <= i < |bs| && ActiveOn(bs[i], typeId, d) && Intersects(requested, BookedIds(bs[i]))
  }

  /** Appending a row adds a conflict exactly when that row holds a requested id. */
  lemma SlotConflictSnoc(bs: seq<Booking>, b: Booking, typeId: int, d: Date, requested: seq<int>)
    ensures SlotConflict(bs + [b], typeId, d, requested) <==>
      SlotConflict(bs, typeId, d, requested) || (ActiveOn(b, typeId, d) && Intersects(requested, BookedIds(b)))
  {
    var r := bs + [b];
    if SlotConflict(r, typeId, d, requested) {
      var i :| 0 <= i < |r| && ActiveOn(r[i], typeId, d) && Intersects(requested, BookedIds(r[i]));
      if i < |bs| { assert r[i] == bs[i]; }
    }
    if SlotConflict(bs, typeId, d, requested) {
      var i :| 0 <= i < |bs| && ActiveOn(bs[i], typeId, d) && Intersects(requested, BookedIds(bs[i]));
      assert r[i] == bs[i];
    }
    if ActiveOn(b, typeId, d) && Intersects(requested, BookedIds(b)) {
      assert r[|bs|] == b;
    }
  }

  // ---------------------------------------------------------------------
  // Submission

  datatype Validation = Validated(bookingType: BookingType, date: Date, paymentImage: string) | Invalid(error: SubmitError)

  /** The payment image URL recorded for the booking: set only when the
      upload was stored. */
  function StoredImage(u: Option<Upload>): string
  {
    if u.Some? && u.value.moved then u.value.url else ""
  }

  predicate UploadTooLarge(u: Upload) { u.size > MAX_UPLOAD_BYTES }

  predicate UploadTypeAllowed(u: Upload) { u.mimeType in ALLOWED_IMAGE_TYPES }

  /** A required field is absent or PHP-empty. */
  predicate FieldsMissing(req: BookingRequest)
  {
    req.typeId == 0 || req.date.None? || PhpEmpty(req.customerName)
    || PhpEmpty(req.customerEmail) || PhpEmpty(req.customerPhone)
  }

  /** A hall request that names no slot. */
  predicate HallWithoutSlots(t: BookingType, req: BookingRequest)
  {
    t.category == Hall && PhpEmpty(req.slotIds)
  }

  /** The checks of `submit_booking` that precede the availability check, in
      the order the code runs them: required fields, known type, a slot for
      a hall, the payment image's size and type, a payment reference. */
  function Validate(types: seq<BookingType>, req: BookingRequest): (r: Validation)
    ensures r.Validated? <==>
      && req.typeId != 0 && req.date.Some?
      && !PhpEmpty(req.customerName) && !PhpEmpty(req.customerEmail) && !PhpEmpty(req.customerPhone)
      && FindType(types, req.typeId).Some?
      && !(FindType(types, req.typeId).value.category == Hall && PhpEmpty(req.slotIds))
      && (req.upload.Some? ==> !UploadTooLarge(req.upload.value) && UploadTypeAllowed(req.upload.value))
      && !(PhpEmpty(req.transactionId) && PhpEmpty(StoredImage(req.upload)))
    ensures r.Validated? ==> Some(r.bookingType) == FindType(types, req.typeId) && Some(r.date) == req.date
    ensures r.Validated? ==> r.paymentImage == StoredImage(req.upload)
    ensures FieldsMissing(req) ==> r == Invalid(MissingFields)
    ensures !FieldsMissing(req) && FindType(types, req.typeId).None? ==> r == Invalid(InvalidType)
    ensures !FieldsMissing(req) && FindType(types, req.typeId).Some?
      && FindType(types, req.typeId).value.category == Hall && PhpEmpty(req.slotIds)
      ==> r == Invalid(NoSlotSelected)
    ensures !FieldsMissing(req) && FindType(types, req.typeId).Some? && !HallWithoutSlots(FindType(types, req.typeId).value, req)
      && req.upload.Some? && UploadTooLarge(req.upload.value)
      ==> r == Invalid(ImageTooLarge)
    ensures !FieldsMissing(req) && FindType(types, req.typeId).Some? && !HallWithoutSlots(FindType(types, req.typeId).value, req)
      && req.upload.Some? && !UploadTooLarge(req.upload.value) && !UploadTypeAllowed(req.upload.value)
      ==> r == Invalid(ImageTypeNotAllowed)
    ensures !FieldsMissing(req) && FindType(types, req.typeId).Some? && !HallWithoutSlots(FindType(types, req.typeId).value, req)
      && (req.upload.Some? ==> !UploadTooLarge(req.upload.value) && UploadTypeAllowed(req.upload.value))
      && PhpEmpty(req.transactionId) && PhpEmpty(StoredImage(req.upload))
      ==> r == Invalid(PaymentMissing)
  {
    if FieldsMissing(req) then Invalid(MissingFields)
    else match FindType(types, req.typeId)
      case None => Invalid(InvalidType)
      case Some(t) =>
        if HallWithoutSlots(t, req) then Invalid(NoSlotSelected)
        else if req.upload.Some? && UploadTooLarge(req.upload.value) then Invalid(ImageTooLarge)
        else if req.upload.Some? && !UploadTypeAllowed(req.upload.value) then Invalid(ImageTypeNotAllowed)
        else
          var image := StoredImage(req.upload);
          if PhpEmpty(req.transactionId) && PhpEmpty(image) then Invalid(PaymentMissing)
          else Validated(t, req.date.value, image)
  }

  /** The per-category availability check; None means the booking may be inserted. */
  function CategoryCheck(types: seq<BookingType>, bs: seq<Booking>, t: BookingType, d: Date, req: BookingRequest): Option<SubmitError>
  {
    match t.category
    case Hall =>
      if SlotConflict(bs, t.id, d, ParseIdList(req.slotIds)) then Some(SlotsTaken) else None
    case EventTour =>
      if HasActiveOfFirst(types, bs, IndividualTour, d) then Some(DateTakenByIndividual)
      else if CountActive(bs, t.id, d) > 0 then Some(EventAlreadyBooked)
      else None
    case IndividualTour =>
      var booked := TicketsBooked(bs, t.id, d);
      if booked + req.ticketCount.GetOr(1) > t.maxDailyCapacity then Some(NotEnoughTickets(t.maxDailyCapacity - booked))
      else if HasActiveOfFirst(types, bs, EventTour, d) then Some(DateTakenByEvent)
      else None
    case _ => None
  }

  /** The row `submit_booking` inserts, always with status pending. */
  function NewRow(id: nat, req: BookingRequest, d: Date, image: string): Booking
  {
    Booking(id, req.typeId, d, req.slotIds, req.ticketCount.GetOr(1), req.totalPrice,
            req.customerName, req.customerEmail, req.customerPhone, req.transactionId, image, req.notes, Pending)
  }

  /** What `submit_booking` does with a request: the first failing check
      wins; otherwise the row to insert. */
  function Decide(types: seq<BookingType>, bs: seq<Booking>, nextId: nat, req: BookingRequest): (r: Outcome)
    ensures r.Admitted? ==> Validate(types, req).Validated?
    ensures r.Admitted? ==>
      && r.row.status == Pending && r.row.id == nextId && r.row.typeId == req.typeId
      && req.date == Some(r.row.date) && r.row.slotIds == req.slotIds
      && r.row.ticketCount == req.ticketCount.GetOr(1)
      && !(PhpEmpty(r.row.transactionId) && PhpEmpty(r.row.paymentImage))
    ensures r.Admitted? ==>
      && r.row.customerName == req.customerName && r.row.customerEmail == req.customerEmail
      && r.row.customerPhone == req.customerPhone && r.row.totalPrice == req.totalPrice
      && r.row.transactionId == req.transactionId && r.row.paymentImage == StoredImage(req.upload)
      && r.row.notes == req.notes
    ensures Validate(types, req).Invalid? ==> r == Refused(Validate(types, req).error)
  {
    match Validate(types, req)
    case Invalid(e) => Refused(e)
    case Validated(t, d, image) =>
      match CategoryCheck(types, bs, t, d, req)
      case Some(e) => Refused(e)
      case None => Admitted(NewRow(nextId, req, d, image))
  }

  // ---------------------------------------------------------------------
  // The admission rules, category by category

  /** A hall booking is admitted exactly when none of its requested slot ids
      is held by an active booking of the same hall on that date. */
  lemma HallAdmission(types: seq<BookingType>, bs: seq<Booking>, nextId: nat, req: BookingRequest)
    requires Validate(types, req).Validated? && Validate(types, req).bookingType.category == Hall
    ensures var d := Validate(types, req).date;
      Decide(types, bs, nextId, req) ==
        if SlotConflict(bs, req.typeId, d, ParseIdList(req.slotIds)) then Refused(SlotsTaken)
        else Admitted(NewRow(nextId, req, d, Validate(types, req).paymentImage))
  {
  }

  /** An event-tour booking is refused when the individual tour already has
      an active booking that day, or when its own type does. */
  lemma EventAdmission(types: seq<BookingType>, bs: seq<Booking>, nextId: nat, req: BookingRequest)
    requires Validate(types, req).Validated? && Validate(types, req).bookingType.category == EventTour
    ensures var d := Validate(types, req).date;
      Decide(types, bs, nextId, req).Admitted? <==>
        !HasActiveOfFirst(types, bs, IndividualTour, d) && CountActive(bs, req.typeId, d) == 0
    ensures var d := Validate(types, req).date;
      HasActiveOfFirst(types, bs, IndividualTour, d) ==> Decide(types, bs, nextId, req) == Refused(DateTakenByIndividual)
  {
  }

  /** An individual-tour booking is admitted exactly when the tickets already
      booked plus the new ones stay within the daily capacity and the event
      tour has no active booking that day; the capacity refusal reports the
      unclamped `max - booked`. */
  lemma IndividualAdmission(types: seq<BookingType>, bs: seq<Booking>, nextId: nat, req: BookingRequest)
    requires Validate(types, req).Validated? && Validate(types, req).bookingType.category == IndividualTour
    ensures var t := Validate(types, req).bookingType; var d := Validate(types, req).date;
      Decide(types, bs, nextId, req).Admitted? <==>
        TicketsBooked(bs, t.id, d) + req.ticketCount.GetOr(1) <= t.maxDailyCapacity
        && !HasActiveOfFirst(types, bs, EventTour, d)
    ensures var t := Validate(types, req).bookingType; var d := Validate(types, req).date;
      TicketsBooked(bs, t.id, d) + req.ticketCount.GetOr(1) > t.maxDailyCapacity ==>
        Decide(types, bs, nextId, req) == Refused(NotEnoughTickets(t.maxDailyCapacity - TicketsBooked(bs, t.id, d)))
  {
  }

  // ---------------------------------------------------------------------
  // Aggregates after an insert

  lemma CountActiveSnoc(bs: seq<Booking>, b: Booking, typeId: int, d: Date)
    ensures CountActive(bs + [b], typeId, d) == CountActive(bs, typeId, d) + (if ActiveOn(b, typeId, d) then 1 else 0)
  {
    assert (bs + [b])[..|bs|] == bs;
  }

  lemma TicketsBookedSnoc(bs: seq<Booking>, b: Booking, typeId: int, d: Date)
    ensures TicketsBooked(bs + [b], typeId, d) == TicketsBooked(bs, typeId, d) + (if ActiveOn(b, typeId, d) then b.ticketCount else 0)
  {
    assert (bs + [b])[..|bs|] == bs;
  }

  /** The count is positive exactly when some row is active on that date. */
  lemma {:induction false} CountActivePositive(bs: seq<Booking>, typeId: int, d: Date)
    ensures CountActive(bs, typeId, d) > 0 <==> exists i :: 0 <= i < |bs| && ActiveOn(bs[i], typeId, d)
  {
    if bs != [] {
      var init := bs[..|bs| - 1];
      CountActivePositive(init, typeId, d);
      if exists i :: 0 <= i < |init| && ActiveOn(init[i], typeId, d) {
        var i :| 0 <= i < |init| && ActiveOn(init[i], typeId, d);
        assert bs[i] == init[i];
      }
      if exists i :: 0 <= i < |bs| && ActiveOn(bs[i], typeId, d) {
        var i :| 0 <= i < |bs| && ActiveOn(bs[i], typeId, d);
        if i < |init| { assert init[i] == bs[i]; }
      }
    }
  }

  /** Right after an individual-tour booking is admitted, the tickets booked
      for that type and day are within the daily capacity. */
  lemma CapacityAfterAdmission(types: seq<BookingType>, bs: seq<Booking>, nextId: nat, req: BookingRequest)
    requires Decide(types, bs, nextId, req).Admitted?
    requires Validate(types, req).bookingType.category == IndividualTour
    ensures var row := Decide(types, bs, nextId, req).row;
      TicketsBooked(bs + [row], row.typeId, row.date) <= Validate(types, req).bookingType.maxDailyCapacity
  {
    var row := Decide(types, bs, nextId, req).row;
    TicketsBookedSnoc(bs, row, row.typeId, row.date);
  }

  // ---------------------------------------------------------------------
  // Invariants the admission rules maintain

  predicate IsTypeOf(types: seq<BookingType>, typeId: int, c: Category)
  {
    FindType(types, typeId).Some? && FindType(types, typeId).value.category == c
  }

  /** At most one active booking per event-tour type and date. */
  ghost predicate EventDatesExclusive(types: seq<BookingType>, bs: seq<Booking>)
  {
    forall t, d :: IsTypeOf(types, t, EventTour) ==> CountActive(bs, t, d) <= 1
  }

  /** No date has active bookings of both the individual tour and the event tour. */
  ghost predicate CrossExclusive(types: seq<BookingType>, bs: seq<Booking>)
  {
    forall d :: !(HasActiveOfFirst(types, bs, IndividualTour, d) && HasActiveOfFirst(types, bs, EventTour, d))
  }

  /** No slot id is held by two different active bookings of a hall on one date. */
  ghost predicate HallSlotsExclusive(types: seq<BookingType>, bs: seq<Booking>)
  {
    forall a, b ::
      (a in bs && b in bs && a.id != b.id && IsTypeOf(types, a.typeId, Hall)
       && ActiveOn(a, b.typeId, b.date) && IsActive(b.status)) ==> !Intersects(BookedIds(a), BookedIds(b))
  }

  ghost predicate LedgerInvariant(types: seq<BookingType>, bs: seq<Booking>)
  {
    EventDatesExclusive(types, bs) && CrossExclusive(types, bs) && HallSlotsExclusive(types, bs)
  }

  lemma HasActiveSnoc(types: seq<BookingType>, bs: seq<Booking>, b: Booking, c: Category, d: Date)
    ensures HasActiveOfFirst(types, bs + [b], c, d) <==>
      HasActiveOfFirst(types, bs, c, d) || (FirstOfCategory(types, c) == Some(b.typeId) && ActiveOn(b, b.typeId, d))
  {
    match FirstOfCategory(types, c)
    case None =>
    case Some(t) => CountActiveSnoc(bs, b, t, d);
  }

  /** The type a row was admitted under is the category-first type only when
      it has that category. */
  lemma FirstOfOtherCategory(types: seq<BookingType>, typeId: int, c: Category, c': Category)
    requires TypeIdsDistinct(types) && IsTypeOf(types, typeId, c) && c != c'
    ensures FirstOfCategory(types, c') != Some(typeId)
  {
    if FirstOfCategory(types, c') == Some(typeId) {
      FirstOfCategoryFound(types, c');
    }
  }

  lemma AdmissionKeepsEventDates(types: seq<BookingType>, bs: seq<Booking>, nextId: nat, req: BookingRequest)
    requires EventDatesExclusive(types, bs)
    requires Decide(types, bs, nextId, req).Admitted?
    ensures EventDatesExclusive(types, bs + [Decide(types, bs, nextId, req).row])
  {
    var row := Decide(types, bs, nextId, req).row;
    forall t, d | IsTypeOf(types, t, EventTour)
      ensures CountActive(bs + [row], t, d) <= 1
    {
      CountActiveSnoc(bs, row, t, d);
      assert CountActive(bs, t, d) <= 1;
    }
  }

  lemma AdmissionKeepsCross(types: seq<BookingType>, bs: seq<Booking>, nextId: nat, req: BookingRequest)
    requires TypeIdsDistinct(types)
    requires CrossExclusive(types, bs)
    requires Decide(types, bs, nextId, req).Admitted?
    ensures CrossExclusive(types, bs + [Decide(types, bs, nextId, req).row])
  {
    var row := Decide(types, bs, nextId, req).row;
    var t := Validate(types, req).bookingType;
    assert IsTypeOf(types, row.typeId, t.category);
    forall d
      ensures !(HasActiveOfFirst(types, bs + [row], IndividualTour, d) && HasActiveOfFirst(types, bs + [row], EventTour, d))
    {
      HasActiveSnoc(types, bs, row, IndividualTour, d);
      HasActiveSnoc(types, bs, row, EventTour, d);
      assert !(HasActiveOfFirst(types, bs, IndividualTour, d) && HasActiveOfFirst(types, bs, EventTour, d));
      if t.category != IndividualTour {
        FirstOfOtherCategory(types, row.typeId, t.category, IndividualTour);
      }
      if t.category != EventTour {
        FirstOfOtherCategory(types, row.typeId, t.category, EventTour);
      }
    }
  }

  lemma AdmissionKeepsHallSlots(types: seq<BookingType>, bs: seq<Booking>, nextId: nat, req: BookingRequest)
    requires HallSlotsExclusive(types, bs)
    requires Decide(types, bs, nextId, req).Admitted?
    ensures HallSlotsExclusive(types, bs + [Decide(types, bs, nextId, req).row])
  {
    var row := Decide(types, bs, nextId, req).row;
    var t := Validate(types, req).bookingType;
    var requested := ParseIdList(req.slotIds);
    var bs' := bs + [row];
    if t.category == Hall {
      assert BookedIds(row) == requested;
      assert !SlotConflict(bs, t.id, row.date, requested);
    }
    forall a, b | a in bs' && b in bs' && a.id != b.id && IsTypeOf(types, a.typeId, Hall)
        && ActiveOn(a, b.typeId, b.date) && IsActive(b.status)
      ensures !Intersects(BookedIds(a), BookedIds(b))
    {
      if a == row {
        assert b in bs;
        var i :| 0 <= i < |bs| && bs[i] == b;
        assert ActiveOn(bs[i], t.id, row.date);
      } else if b == row {
        assert a in bs;
        var i :| 0 <= i < |bs| && bs[i] == a;
        assert ActiveOn(bs[i], t.id, row.date);
        assert !Intersects(requested, BookedIds(a));
      }
    }
  }

  /** Every admitted booking keeps the three exclusivity invariants. */
  lemma AdmissionKeepsInvariant(types: seq<BookingType>, bs: seq<Booking>, nextId: nat, req: BookingRequest)
    requires TypeIdsDistinct(types)
    requires LedgerInvariant(types, bs)
    requires Decide(types, bs, nextId, req).Admitted?
    ensures LedgerInvariant(types, bs + [Decide(types, bs, nextId, req).row])
  {
    AdmissionKeepsEventDates(types, bs, nextId, req);
    AdmissionKeepsCross(types, bs, nextId, req);
    AdmissionKeepsHallSlots(types, bs, nextId, req);
  }
}
