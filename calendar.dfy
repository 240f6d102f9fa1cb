/** The booking form's availability rules (frontend.js): which hall slots
    are unavailable on a date, whether a hall date still has a bookable
    slot, and which calendar days are disabled. Dates are day numbers;
    the weekday, today's date and the current minute of the day are inputs. */
module Calendar {
  import opened Text
  import opened Schema
  import opened Formats

  /** A slot's half-open interval [start, end) in minutes of the day. */
  datatype Interval = Interval(start: int, end: int)

  function SlotInterval(s: Slot): Interval
  {
    Interval(TimeToMinutes(s.startTime), TimeToMinutes(s.endTime))
  }

  predicate Overlap(a: Interval, b: Interval)
  {
    IntervalsOverlap(a.start, a.end, b.start, b.end)
  }

  /** `slots.find(s => parseInt(s.id) === id)`: the first slot with that id. */
  function FindSlot(slots: seq<Slot>, id: int): Option<Slot>
  {
    FindById(slots, id, SlotId)
  }

  function SlotId(s: Slot): int { s.id }

  /** The interval of the catalog slot a booked id names, if there is one. */
  predicate NamesInterval(slots: seq<Slot>, id: int, iv: Interval)
  {
    FindSlot(slots, id).Some? && SlotInterval(FindSlot(slots, id).value) == iv
  }

  /** `bookedIntervals`: the booked ids mapped to their slots' intervals,
      ids without a catalog slot dropped (`.filter(Boolean)`). */
  function BookedIntervals(slots: seq<Slot>, booked: seq<int>): (r: seq<Interval>)
    ensures |r| <= |booked|
    ensures forall iv :: iv in r <==> exists b :: b in booked && NamesInterval(slots, b, iv)
  {
    if booked == [] then []
    else
      var rest := BookedIntervals(slots, booked[1..]);
      assert forall b :: b in booked <==> b == booked[0] || b in booked[1..];
      match FindSlot(slots, booked[0])
      case None => rest
      case Some(s) =>
        assert NamesInterval(slots, booked[0], SlotInterval(s));
        [SlotInterval(s)] + rest
  }

  /** The `for` loop over `bookedIntervals` that stops at the first overlap. */
  function OverlapsFrom(iv: Interval, ivs: seq<Interval>, i: nat): (r: bool)
    requires i <= |ivs|
    ensures r <==> exists k :: i <= k < |ivs| && Overlap(iv, ivs[k])
    decreases |ivs| - i
  {
    if i == |ivs| then false
    else if Overlap(iv, ivs[i]) then true
    else OverlapsFrom(iv, ivs, i + 1)
  }

  /** The three reasons `renderSlots` greys out a slot. */
  datatype SlotState = SlotState(booked: bool, overlapBooked: bool, pastSlot: bool)
  {
    predicate Disabled() { booked || overlapBooked || pastSlot }
  }

  /** The state of slot `s` on a date whose booked ids are `dateBooked`;
      the start-time cut-off applies only when the date is today. */
  function SlotStateOf(slots: seq<Slot>, dateBooked: seq<int>, s: Slot, isToday: bool, nowMinutes: int): SlotState
  {
    var booked := s.id in dateBooked;
    var ivs := BookedIntervals(slots, dateBooked);
    var overlap := !booked && |ivs| > 0 && OverlapsFrom(SlotInterval(s), ivs, 0);
    var past := isToday && nowMinutes >= TimeToMinutes(s.startTime);
    SlotState(booked, overlap, past)
  }

  /** A slot is unavailable exactly when its id is booked, or its interval
      overlaps the interval of a booked catalog slot, or (today only) its
      start time has been reached. */
  lemma SlotDisabledIff(slots: seq<Slot>, dateBooked: seq<int>, s: Slot, isToday: bool, nowMinutes: int)
    ensures SlotStateOf(slots, dateBooked, s, isToday, nowMinutes).Disabled() <==>
      || s.id in dateBooked
      || (exists b :: b in dateBooked && FindSlot(slots, b).Some? && Overlap(SlotInterval(s), SlotInterval(FindSlot(slots, b).value)))
      || (isToday && nowMinutes >= TimeToMinutes(s.startTime))
  {
    var ivs := BookedIntervals(slots, dateBooked);
    var iv := SlotInterval(s);
    if exists k :: 0 <= k < |ivs| && Overlap(iv, ivs[k]) {
      var k :| 0 <= k < |ivs| && Overlap(iv, ivs[k]);
      assert ivs[k] in ivs;
      var b :| b in dateBooked && NamesInterval(slots, b, ivs[k]);
      assert FindSlot(slots, b).Some? && Overlap(iv, SlotInterval(FindSlot(slots, b).value));
    }
    if exists b :: b in dateBooked && FindSlot(slots, b).Some? && Overlap(iv, SlotInterval(FindSlot(slots, b).value)) {
      var b :| b in dateBooked && FindSlot(slots, b).Some? && Overlap(iv, SlotInterval(FindSlot(slots, b).value));
      var bi := SlotInterval(FindSlot(slots, b).value);
      assert NamesInterval(slots, b, bi);
      assert bi in ivs;
      var k :| 0 <= k < |ivs| && ivs[k] == bi;
      assert OverlapsFrom(iv, ivs, 0);
    }
  }

  /** `slots.some(...)` from index `i` on: a slot that is neither booked,
      nor overlap-booked, nor past. */
  function SomeBookableFrom(slots: seq<Slot>, dateBooked: seq<int>, nowMinutes: int, i: nat): (r: bool)
    requires i <= |slots|
    ensures r <==> exists k :: i <= k < |slots| && !SlotStateOf(slots, dateBooked, slots[k], true, nowMinutes).Disabled()
    decreases |slots| - i
  {
    if i == |slots| then false
    else if !SlotStateOf(slots, dateBooked, slots[i], true, nowMinutes).Disabled() then true
    else SomeBookableFrom(slots, dateBooked, nowMinutes, i + 1)
  }

  /** `hasBookableHallSlots`: some catalog slot can still be booked today;
      never when the catalog is empty. */
  function HasBookableHallSlots(slots: seq<Slot>, dateBooked: seq<int>, nowMinutes: int): (r: bool)
    ensures slots == [] ==> !r
    ensures r <==> exists k :: 0 <= k < |slots| && !SlotStateOf(slots, dateBooked, slots[k], true, nowMinutes).Disabled()
  {
    if |slots| == 0 then false else SomeBookableFrom(slots, dateBooked, nowMinutes, 0)
  }

  /** Once the current minute has reached the latest slot start, no hall
      slot is bookable today, whatever is booked. */
  lemma NoHallSlotAfterLastStart(slots: seq<Slot>, dateBooked: seq<int>, nowMinutes: int)
    requires forall k :: 0 <= k < |slots| ==> TimeToMinutes(slots[k].startTime) <= nowMinutes
    ensures !HasBookableHallSlots(slots, dateBooked, nowMinutes)
  {
  }

  /** With nothing booked, a slot is bookable today exactly when its start
      time lies ahead. */
  lemma NothingBookedOnlyTimeMatters(slots: seq<Slot>, s: Slot, isToday: bool, nowMinutes: int)
    ensures SlotStateOf(slots, [], s, isToday, nowMinutes).Disabled() <==> isToday && nowMinutes >= TimeToMinutes(s.startTime)
  {
    assert BookedIntervals(slots, []) == [];
  }

  // ---------------------------------------------------------------------
  // The calendar

  /** The booking type as the form holds it (`typeData`), from the JSON of
      its row: absent fields are None, NULL or absent text is "". */
  datatype ClientType = ClientType(
    category: Category,
    weekendDays: string,
    maxDailyCapacity: Option<int>,
    bookingWindowMode: string,
    bookingWindowDays: Option<string>,
    tourStartTime: string,
    ticketPrice: int,
    tourPrice: int)

  /** What the form has loaded from `get_booking_data`. */
  datatype CalendarData = CalendarData(
    typeData: Option<ClientType>,
    slots: seq<Slot>,
    holidays: seq<Date>,
    bookedSlots: map<Date, seq<int>>,
    bookedDates: seq<Date>,
    ticketsByDate: map<Date, int>,
    eventBlockedDates: seq<Date>,
    individualBlockedDates: seq<Date>,
    sharedTourStartTime: string)

  predicate IsHallCategory(c: Category) { c == Hall || c == Staircase }

  /** `typeData ? typeData.type_category : 'hall'`. */
  function CategoryShown(data: CalendarData): Category
  {
    if data.typeData.Some? then data.typeData.value.category else Hall
  }

  /** `bookedSlots[dateStr] || []`. */
  function BookedOn(bookedSlots: map<Date, seq<int>>, d: Date): seq<int>
  {
    if d in bookedSlots then bookedSlots[d] else []
  }

  /** `ticketsByDate[dateStr] || 0`. */
  function TicketsOn(ticketsByDate: map<Date, int>, d: Date): int
  {
    if d in ticketsByDate then ticketsByDate[d] else 0
  }

  /** `weekend_days.split(',').map(Number)` when the text is not blank;
      None stands for NaN. */
  function WeekendList(data: CalendarData): (r: seq<Option<int>>)
    ensures data.typeData.None? ==> r == []
    ensures data.typeData.Some? && Trim(data.typeData.value.weekendDays) == "" ==> r == []
    ensures data.typeData.Some? && Trim(data.typeData.value.weekendDays) != "" ==>
      |r| == |Split(data.typeData.value.weekendDays, ',')|
  {
    if data.typeData.Some? && Trim(data.typeData.value.weekendDays) != "" then
      var parts := Split(data.typeData.value.weekendDays, ',');
      seq(|parts|, k requires 0 <= k < |parts| => JsNumber(parts[k]))
    else []
  }

  /** Weekday numbers written the way the settings page stores them:
      decimal, joined by commas. */
  function DaysText(days: seq<nat>): string
  {
    Join(DayTexts(days), ',')
  }

  function DayTexts(days: seq<nat>): seq<string>
  {
    seq(|days|, k requires 0 <= k < |days| => NatToString(days[k]))
  }

  /** A weekend setting of day numbers joined by commas marks exactly
      those days as weekend days. */
  lemma WeekendListOfDays(data: CalendarData, days: seq<nat>)
    requires data.typeData.Some? && days != []
    requires data.typeData.value.weekendDays == DaysText(days)
    ensures forall d: int :: Some(d) in WeekendList(data) <==> d in days
  {
    DaysTextFields(days);
    var r := WeekendList(data);
    assert |r| == |days|;
    forall k | 0 <= k < |days| ensures r[k] == Some(days[k] as int) {
      JsNumberOfNatToString(days[k]);
    }
    forall d: int ensures Some(d) in r <==> d in days {
      if d in days {
        var k :| 0 <= k < |days| && days[k] == d;
        assert r[k] == Some(d);
      }
    }
  }

  /** The day-number text is not blank, and its comma fields are the
      numbers as written. */
  lemma DaysTextFields(days: seq<nat>)
    requires days != []
    ensures Trim(DaysText(days)) != ""
    ensures Split(DaysText(days), ',') == DayTexts(days)
  {
    var texts := DayTexts(days);
    var s := DaysText(days);
    JoinStartsWith(texts, ',');
    assert !IsBlank(s[0]) by { assert IsDigit(texts[0][0]); }
    TrimEndKeeps(s, 0);
    assert TrimStart(s) == s;
    forall k | 0 <= k < |texts| ensures ',' !in texts[k] {
      DigitsHaveNoSeparator(texts[k], ',');
    }
    SplitJoin(texts, ',');
  }

  /** `parseInt(h) * 60 + parseInt(m || 0)` on the tour start time; None
      when it is NaN, which no minute is `>=`. */
  function TourStartMinutes(time: string): Option<int>
  {
    MinutesOfFields(Split(time, ':'))
  }

  /** The same on the `:`-separated fields. */
  function MinutesOfFields(parts: seq<string>): Option<int>
    requires |parts| >= 1
  {
    var hours := ParseInt(parts[0]);
    var minutes := if |parts| > 1 && parts[1] != "" then ParseInt(parts[1]) else Some(0);
    if hours.Some? && minutes.Some? then Some(hours.value * 60 + minutes.value) else None
  }

  /** `getSharedTourStartTime() || typeData.tour_start_time || '00:00'`. */
  function TourStartText(data: CalendarData): string
    requires data.typeData.Some?
  {
    if data.sharedTourStartTime != "" then data.sharedTourStartTime
    else if data.typeData.value.tourStartTime != "" then data.typeData.value.tourStartTime
    else "00:00"
  }

  /** The forward day limit of the individual-tour booking window: None
      when there is none (mode other than `limit`, or a day count that is
      NaN, which makes the window end an invalid date). */
  function WindowEnd(t: Option<ClientType>, today: Date): Option<Date>
  {
    var mode := if t.Some? && t.value.bookingWindowMode != "" then t.value.bookingWindowMode else "limit";
    var days := if t.Some? && t.value.bookingWindowDays.Some? then ParseInt(t.value.bookingWindowDays.value) else Some(1);
    if mode == "limit" && days.Some? then Some(today + (if days.value > 0 then days.value else 0)) else None
  }

  /** The flags `renderCalendar` computes for one day. */
  datatype DayFlags = DayFlags(
    past: bool,
    weekend: bool,
    holiday: bool,
    blockedByCross: bool,
    beyondWindow: bool,
    timePassed: bool,
    noHallAvailabilityToday: bool)
  {
    predicate Disabled()
    {
      past || weekend || holiday || blockedByCross || beyondWindow || timePassed || noHallAvailabilityToday
    }
  }

  function DayFlagsOf(data: CalendarData, d: Date, dayOfWeek: int, today: Date, nowMinutes: int): DayFlags
  {
    var category := CategoryShown(data);
    var isToday := d == today;
    var cross :=
      if category == EventTour then d in data.individualBlockedDates || d in data.bookedDates
      else if category == IndividualTour then
        d in data.eventBlockedDates
        || (data.typeData.Some? && data.typeData.value.maxDailyCapacity.Some?
            && TicketsOn(data.ticketsByDate, d) >= data.typeData.value.maxDailyCapacity.value)
      else false;
    var beyond := category == IndividualTour && WindowEnd(data.typeData, today).Some? && d > WindowEnd(data.typeData, today).value;
    var timePassed :=
      isToday && data.typeData.Some? && (category == IndividualTour || category == EventTour)
      && TourStartMinutes(TourStartText(data)).Some? && nowMinutes >= TourStartMinutes(TourStartText(data)).value;
    var noHall := IsHallCategory(category) && isToday && !HasBookableHallSlots(data.slots, BookedOn(data.bookedSlots, d), nowMinutes);
    DayFlags(d < today, Some(dayOfWeek) in WeekendList(data), d in data.holidays, cross, beyond, timePassed, noHall)
  }

  /** Whether the calendar greys out day `d`. */
  predicate DayDisabled(data: CalendarData, d: Date, dayOfWeek: int, today: Date, nowMinutes: int)
  {
    DayFlagsOf(data, d, dayOfWeek, today, nowMinutes).Disabled()
  }

  // ---------------------------------------------------------------------
  // Lemmas about the calendar

  /** Every day the calendar lets the visitor pick is today or later, not
      a holiday, and not one of the type's weekend days. */
  lemma EnabledDayIsOpen(data: CalendarData, d: Date, dayOfWeek: int, today: Date, nowMinutes: int)
    requires !DayDisabled(data, d, dayOfWeek, today, nowMinutes)
    ensures d >= today && d !in data.holidays && Some(dayOfWeek) !in WeekendList(data)
  {
  }

  /** In `limit` mode with a day count of `n`, the individual-tour days
      left enabled lie between today and `n` days ahead (no limit for a
      negative count beyond today itself). */
  lemma {:induction false} EnabledIndividualDayInWindow(data: CalendarData, d: Date, dayOfWeek: int, today: Date, nowMinutes: int, n: nat)
    requires data.typeData.Some? && data.typeData.value.category == IndividualTour
    requires data.typeData.value.bookingWindowMode in {"", "limit"}
    requires data.typeData.value.bookingWindowDays == Some(IntToString(n))
    requires !DayDisabled(data, d, dayOfWeek, today, nowMinutes)
    ensures today <= d <= today + n
  {
    WindowEndOfCount(data.typeData.value, today, n);
    var f := DayFlagsOf(data, d, dayOfWeek, today, nowMinutes);
    assert !f.past && !f.beyondWindow;
  }

  /** In `limit` mode a day count of `n` ends the window `n` days ahead. */
  lemma WindowEndOfCount(t: ClientType, today: Date, n: nat)
    requires t.bookingWindowMode in {"", "limit"} && t.bookingWindowDays == Some(IntToString(n))
    ensures WindowEnd(Some(t), today) == Some(today + n)
  {
    ParseIntOfIntToString(n);
  }

  /** An individual-tour day is disabled once the tickets booked reach
      the daily capacity. */
  lemma FullIndividualDayDisabled(data: CalendarData, d: Date, dayOfWeek: int, today: Date, nowMinutes: int)
    requires data.typeData.Some? && data.typeData.value.category == IndividualTour
    requires data.typeData.value.maxDailyCapacity.Some?
    requires TicketsOn(data.ticketsByDate, d) >= data.typeData.value.maxDailyCapacity.value
    ensures DayDisabled(data, d, dayOfWeek, today, nowMinutes)
  {
  }

  /** The tour start minute from its first two `:`-fields. */
  lemma TourStartOfFields(parts: seq<string>, h: nat, m: nat)
    requires |parts| > 1 && parts[1] != ""
    requires ParseInt(parts[0]) == Some(h as int) && ParseInt(parts[1]) == Some(m as int)
    ensures MinutesOfFields(parts) == Some(h * 60 + m)
  {
  }

  /** An `HH:MM` tour start parses to its minute of the day, with or
      without seconds. */
  lemma TourStartOfClock(h: nat, m: nat, rest: string)
    requires rest == [] || rest[0] == ':'
    ensures TourStartMinutes(ClockText(h, m) + rest) == Some(h * 60 + m)
  {
    var time := ClockText(h, m) + rest;
    var hh := PadStart2(NatToString(h));
    var mm := PadStart2(NatToString(m));
    ClockFields(h, m, rest);
    PaddedDigits(h);
    PaddedDigits(m);
    LeadingIntOfDigits(hh, "");
    LeadingIntOfDigits(mm, "");
    assert hh + "" == hh && mm + "" == mm;
    assert ParseInt(Split(time, ':')[0]) == Some(h as int);
    assert ParseInt(Split(time, ':')[1]) == Some(m as int);
    TourStartOfFields(Split(time, ':'), h, m);
  }

  /** Today, a tour day is disabled once the current minute reaches the
      tour's `HH:MM` start. */
  lemma TourDayClosesAtStart(data: CalendarData, today: Date, dayOfWeek: int, nowMinutes: int, h: nat, m: nat, rest: string)
    requires data.typeData.Some? && data.typeData.value.category in {IndividualTour, EventTour}
    requires rest == [] || rest[0] == ':'
    requires TourStartText(data) == ClockText(h, m) + rest
    requires nowMinutes >= h * 60 + m
    ensures DayDisabled(data, today, dayOfWeek, today, nowMinutes)
  {
    TourStartOfClock(h, m, rest);
  }

  /** A hall day other than today is never disabled for its slots: the
      slot check of the calendar applies to today only. */
  lemma HallFutureDayIgnoresSlots(data: CalendarData, d: Date, dayOfWeek: int, today: Date, nowMinutes: int)
    requires IsHallCategory(CategoryShown(data)) && d > today
    ensures DayDisabled(data, d, dayOfWeek, today, nowMinutes) <==>
      Some(dayOfWeek) in WeekendList(data) || d in data.holidays
  {
  }
}
