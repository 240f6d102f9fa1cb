# Booking Tour: availability and admission

A model of the booking engine of the Booking Tour WordPress plugin. It has two halves.

The server half is `booking-tour.php`. It covers:
- the bookings, holidays and slots tables;
- the AJAX handlers that admit a new booking (`submit_booking`);
- the admin handlers that change or delete a booking (`update_booking_status`, `delete_booking`);
- the holiday and slot handlers;
- the availability reads the booking form polls (`check_availability`, `get_remaining_capacity`, `get_booking_data`, `get_bookings`, `get_holidays`).

The client half is `assets/frontend.js`. It covers:
- the calendar's day flags;
- the hall slot cards and the selection they allow;
- the ticket and add-on counters;
- the totals shown;
- the checks the form makes before it posts.

Dates are day numbers. The weekday, "today" and the current minute are inputs. Money is in integer minor units. The ledger is the class `Ledger.BookingLedger`, whose handlers are methods that update its tables. The form's state is the class `Form.BookingForm`. The admission rules themselves are pure functions (`Admission.Validate`, `Admission.CategoryCheck`, `Admission.Decide`). The methods are proved against them.

The model follows the code. Where it parts from the plugin's written description:
- The hall check compares slot ids only (`array_intersect`). It does not compare time intervals.
- Only the `hall` category is checked. A `staircase` booking, or one of any other category, is admitted without an availability check.
- There is no limit on the number of separate slot clusters.
- The server does not recompute the price. `total_price` is stored as posted.
- `get_booking_data` and `check_availability` send no add-on catalog or stock, although the form reads `addons` and `addonsAvailability`.
- Rejecting a booking deletes its row. So a stored row is always `pending` or `approved` (`Rows.AllActive`).

The ledger keeps these invariants:
- Booking ids increase.
- An event-tour type has at most one active booking per date.
- No date holds active bookings of both the individual tour and the event tour.
- No slot id is held twice on one hall date.
- Holiday dates are distinct.

Capacity is not a ledger invariant, because a posted ticket count may be zero or negative. It is proved at each admission instead (`Admission.CapacityAfterAdmission`).

The form polls `check_availability` every five seconds and on each day click. Its reply carries the selected date's booked slot ids, but none of the tickets per date, booked dates, blocked dates or add-on stock the poll also reads; the poll reads each missing field as empty. So the consistency lemmas split in two:
- On the data as `get_booking_data` first sent it, the calendar and the counters agree with `submit_booking` (`Consistency.EventCrossMatchesServer`, `Consistency.IndividualTicketsMatchServer`, `Consistency.HallSelectionAdmitted`).
- After a poll the hall still agrees (`Consistency.PolledHallListHeld`). The two tours do not: a full individual-tour date and an event tour's own booked date are open again in the calendar while the server still refuses them (`Consistency.PollReopensFullIndividualDay`, `Consistency.PollReopensBookedEventDate`).

## Model

| member | source | states |
|---|---|---|
| Schema.ParseStatus | booking-tour/booking-tour.php:1270-1272 | only `pending`, `approved` and `rejected` are accepted; each is the name of exactly one status |
| Schema.FindById | booking-tour/booking-tour.php:964-966 | the lookup by id behind `FindType`, `FindSlot` and `FindAddon`: finds an element with the given id, or reports that none has that id |
| Schema.FindByIdFirst | booking-tour/booking-tour.php:959-962 | the element found is the first one carrying the id, the row `get_row` returns |
| Schema.FirstOfCategory | booking-tour/booking-tour.php:806-807 | the type the unkeyed category lookup returns has that category; none exists exactly when no type has it |
| Schema.FirstOfCategoryFound | booking-tour/booking-tour.php:1023-1030 | with distinct ids, looking up the first type of a category by id gives a type of that category |
| Text.LeadingIntOfIntToString | booking-tour/booking-tour.php:1011 | `intval` reads back any integer printed in decimal, whatever non-digit text follows it |
| Text.SplitJoin | booking-tour/booking-tour.php:1011 | splitting a comma-joined list of comma-free parts gives the parts back |
| Admission.Validate | booking-tour/booking-tour.php:941-1000 | a request passes validation exactly when: type id and date are set; name, email and phone are not PHP-empty; the type exists; a hall request names slots; any image is at most 1 MB and of an allowed type; a transaction id or a stored image is present. When validation fails, the error is that of the first failing check in the source's order: missing fields, unknown type, hall without slots, image over 1 MB, image type, no payment reference |
| Admission.Decide | booking-tour/booking-tour.php:938-1088 | an admitted request passed validation and becomes a pending row under the next id, carrying exactly the posted type, date, slots, tickets (1 when absent), price, name, email, phone, transaction id and notes, and the stored image URL; it has a transaction id or an image. A validation error is the reply |
| Admission.HallAdmission | booking-tour/booking-tour.php:1003-1017 | a hall booking is refused as taken exactly when an active booking of that hall on that date holds one of the requested ids |
| Admission.EventAdmission | booking-tour/booking-tour.php:1021-1043 | an event-tour booking is admitted exactly when neither the individual tour nor its own type has an active booking that day; the individual tour's refusal comes first |
| Admission.IndividualAdmission | booking-tour/booking-tour.php:1044-1067 | an individual-tour booking is admitted exactly when booked plus requested tickets stay within the daily capacity and the event tour is free that day; the capacity refusal reports the unclamped `max - booked` |
| Admission.CountActivePositive | booking-tour/booking-tour.php:1025-1032 | the `COUNT(*)` of active rows is positive exactly when some row of that type is active on that date |
| Admission.CapacityAfterAdmission | booking-tour/booking-tour.php:1046-1054 | after an individual-tour admission, the tickets booked for that type and date are within the daily capacity |
| Admission.AdmissionKeepsInvariant | booking-tour/booking-tour.php:1003-1088 | inserting an admitted row keeps all three exclusivity rules: one event booking per date, no event and individual tour on one date, no slot id held twice on a hall date |
| Admission.AdmissionKeepsCross | booking-tour/booking-tour.php:1021-1067 | an admitted row never puts the individual tour and the event tour on one date |
| Admission.AdmissionKeepsHallSlots | booking-tour/booking-tour.php:1003-1017 | an admitted row never shares a slot id with another active booking of the same hall and date |
| Admission.AdmissionKeepsEventDates | booking-tour/booking-tour.php:1036-1043 | an admitted row never gives an event-tour type a second active booking on a date |
| Availability.Unique | booking-tour/booking-tour.php:831-833 | `array_unique` keeps exactly the same ids, each once |
| Availability.UniqueKeepsFirstOrder | booking-tour/booking-tour.php:831-833 | `array_values(array_unique(..))` lists the ids in the order of their first occurrences |
| Availability.HeldIdsAgreeWithConflict | booking-tour/booking-tour.php:869-875 | a list holding exactly the ids held on a date meets a request exactly when the server's hall check finds a conflict |
| Availability.RemainingCapacity | booking-tour/booking-tour.php:913-936 | `get_remaining_capacity` is never negative; it is at least `max - booked`, and when positive it is exactly what `max` leaves after `booked` |
| Availability.RemainingCapacityDecidesAdmission | booking-tour/booking-tour.php:929 | on a date the event tour leaves free, a request for at least one individual ticket is admitted exactly when it asks for no more than the reported remaining capacity |
| Availability.ActiveDates | booking-tour/booking-tour.php:768-794 | the booked-dates list holds each date from today on that has an active booking of the type, once each, and nothing else |
| Availability.TicketsBookedNone | booking-tour/booking-tour.php:1046-1050 | a date with no active booking of the type has zero tickets booked |
| Availability.TicketsByDateCounts | booking-tour/booking-tour.php:768-801 | `ticketsByDate` has a key exactly for each date from today on with an active booking, and that key's value is the tickets booked |
| Availability.SlotsByDateHeld | booking-tour/booking-tour.php:768-790 | before de-duplication, the per-date slot table has a key exactly for each date from today on with an active booking, and its list holds exactly the slot ids held that day |
| Availability.BookedSlotsByDate | booking-tour/booking-tour.php:768-790 | `bookedSlots` has a key exactly for each booked date from today on; its list holds each held slot id once and nothing else |
| Rows.SetStatus | booking-tour/booking-tour.php:1325-1332 | only the row with that id changes, and only its status |
| Rows.RemoveBooking | booking-tour/booking-tour.php:1275-1294 | every row except the one with that id remains |
| Rows.RemoveKeepsIdsIncreasing | booking-tour/booking-tour.php:1359-1363 | deleting a row keeps the booking ids increasing |
| Rows.SetStatusCountActive | booking-tour/booking-tour.php:1325-1332 | switching between pending and approved leaves every active count unchanged |
| Rows.RemoveCountActive | booking-tour/booking-tour.php:1336-1366 | deleting a row never raises an active count |
| Rows.SetStatusKeepsInvariant | booking-tour/booking-tour.php:1325-1332 | a status change to pending or approved keeps every stored row active and keeps the exclusivity rules |
| Rows.RemoveKeepsInvariant | booking-tour/booking-tour.php:1275-1294 | a delete, or a rejection, keeps every row active and keeps the exclusivity rules |
| Rows.WithoutDate | booking-tour/booking-tour.php:644-660 | `delete_holiday` keeps every holiday except that date |
| Rows.WithoutDateKeepsDistinct | booking-tour/booking-tour.php:644-660 | deleting a holiday keeps holiday dates distinct |
| Rows.SaveHolidayOn | booking-tour/booking-tour.php:627-634 | saving a date as a holiday stores it exactly once and leaves the other dates alone |
| Rows.SaveHolidayOff | booking-tour/booking-tour.php:635-639 | clearing a holiday removes the date and leaves the other dates alone |
| Rows.SaveHolidayIdempotent | booking-tour/booking-tour.php:617-642 | saving the same holiday flag twice changes nothing the second time |
| Rows.SaveHolidayKeepsDistinct | booking-tour/booking-tour.php:617-642 | `save_holiday` keeps holiday dates distinct |
| Paging.PageCount | booking-tour/booking-tour.php:1254 | `ceil(total / 10)`: the pages cover every row, the last page is not empty, and there are none when there are no rows |
| Paging.PageRows | booking-tour/booking-tour.php:1226-1236 | `LIMIT 10 OFFSET (page - 1) * 10`: the rows in order from that offset, exactly `min(10, rows left)` of them; nothing past the last page or below page 1 |
| Paging.PagesCoverRows | booking-tour/booking-tour.php:1226-1236 | the pages from 1 to the page count, taken together, are all the rows |
| Paging.SortDesc | booking-tour/booking-tour.php:671-681 | `ORDER BY holiday_date DESC`: sorted latest first and a permutation of the dates |
| Ledger.Matching | booking-tour/booking-tour.php:1209-1224 | a row is listed exactly when it passes the type filter (when the id is positive) and the status filter (when the text is not empty) |
| Ledger.NewestFirst | booking-tour/booking-tour.php:1229-1231 | `ORDER BY created_at DESC`: the same rows in reverse insertion order |
| Ledger.SlotsWithIds | booking-tour/booking-tour.php:1239-1249 | the slot details of a listed hall booking are exactly the catalog slots whose ids it holds |
| Ledger.SlotsOfType | booking-tour/booking-tour.php:757-762 | the slots sent are exactly those of the type |
| Ledger.BookingLedger.constructor | booking-tour/booking-tour.php:938-1100 | an empty ledger satisfies the invariants |
| Ledger.BookingLedger.HasSlotConflict | booking-tour/booking-tour.php:1003-1017 | the hall loop returns true exactly when an active booking of the hall on that date holds a requested id |
| Ledger.BookingLedger.SubmitBooking | booking-tour/booking-tour.php:938-1100 | the reply is the admission decision; an admitted row is appended under the next id; a refusal changes nothing; the ledger invariants hold after |
| Ledger.BookingLedger.UpdateBookingStatus | booking-tour/booking-tour.php:1259-1334 | an unknown status is refused and changes nothing; `rejected` deletes the row; `pending` and `approved` set it; the invariants hold after |
| Ledger.BookingLedger.DeleteBooking | booking-tour/booking-tour.php:1336-1366 | removes the row with that id, nothing else, and keeps the invariants |
| Ledger.BookingLedger.SaveHoliday | booking-tour/booking-tour.php:617-642 | only the text `true` marks the date as a holiday; holidays stay distinct |
| Ledger.BookingLedger.DeleteHoliday | booking-tour/booking-tour.php:644-660 | removes that date from the holidays; holidays stay distinct |
| Ledger.BookingLedger.SaveSlot | booking-tour/booking-tour.php:559-589 | refused exactly when name, start or end is PHP-empty; otherwise the slot is appended under the next id, whatever its type id |
| Ledger.BookingLedger.CheckAvailability | booking-tour/booking-tour.php:849-911 | booked slots are exactly the held ids for a hall and none otherwise, each once; total tickets; remaining is `max - booked` unclamped; the two cross-category flags |
| Ledger.BookingLedger.GetBookingData | booking-tour/booking-tour.php:746-847 | slots of a hall; holidays; per-date booked ids for a hall or booked dates otherwise; tickets per date for the individual tour; the dates the first event and first individual tour are booked |
| Ledger.BookingLedger.GetBookings | booking-tour/booking-tour.php:1201-1257 | row `k` is the listing of the matching row at position `offset + k` newest first, with exactly `min(10, total - offset)` rows; each passes both filters; the total is the match count, the page count its ceiling, the current page the one asked for; nothing past the last page |
| Ledger.BookingLedger.GetHolidays | booking-tour/booking-tour.php:662-684 | with `get_all`, every holiday latest first; otherwise exactly the requested page of the holidays sorted latest first, with total and page count |
| Formats.JsRem | booking-tour/assets/frontend.js:862 | JavaScript `%` agrees with the modulus on a non-negative operand; on a negative one it is never positive and is the modulus minus the divisor, or 0 when the divisor divides it; it stays strictly inside the divisor's range |
| Formats.Hour12 | booking-tour/assets/frontend.js:862 | `hour % 12 \|\| 12` is between 1 and 12 and agrees with the hour modulo 12 |
| Formats.TimeToMinutesOfClock | booking-tour/assets/frontend.js:907-913 | a `HH:MM` time, with anything after a colon, is `HH * 60 + MM` minutes |
| Formats.TimeToMinutesNoDigits | booking-tour/assets/frontend.js:907-913 | a time with no digits, including the empty one, counts as minute 0 |
| Formats.OverlapSymmetric | booking-tour/assets/frontend.js:915-917 | interval overlap does not depend on which interval comes first |
| Formats.AdjacentDoNotOverlap | booking-tour/assets/frontend.js:915-917 | a slot ending when the next starts does not overlap it |
| Formats.OverlapMeansSharedMinute | booking-tour/assets/frontend.js:915-917 | two non-empty half-open intervals overlap exactly when some minute lies in both |
| Formats.FormatTime12hOfClock | booking-tour/assets/frontend.js:858-865 | `HH:MM` renders as the 12-hour hour, the minutes as written, and AM before noon, PM from noon |
| Formats.FormatDateRoundTrip | booking-tour/assets/frontend.js:846-851 | the `YYYY-MM-DD` key reads back as the same year, month and day |
| Formats.FormatDateInjective | booking-tour/assets/frontend.js:846-851 | two different days never share a date key |
| Formats.JsNumberOfNatToString | booking-tour/assets/frontend.js:362-364 | `Number` reads a printed weekday number back as itself |
| Calendar.BookedIntervals | booking-tour/assets/frontend.js:476-487 | the booked intervals are exactly those of the booked ids found in the catalog; unknown ids are dropped |
| Calendar.SlotDisabledIff | booking-tour/assets/frontend.js:491-510 | a slot card is greyed out exactly when its id is booked, it overlaps a booked slot, or it is today and its start has passed |
| Calendar.NothingBookedOnlyTimeMatters | booking-tour/assets/frontend.js:491-510 | on a date with nothing booked, only a start already passed today greys out a card |
| Calendar.HasBookableHallSlots | booking-tour/assets/frontend.js:875-905 | true exactly when some catalog slot's card would not be greyed out today; false for an empty catalog |
| Calendar.NoHallSlotAfterLastStart | booking-tour/assets/frontend.js:875-905 | once every slot's start has passed, no hall slot is bookable today |
| Calendar.WeekendList | booking-tour/assets/frontend.js:361-364 | no weekend days with no type loaded or a blank setting; otherwise one entry per comma-separated field |
| Calendar.WeekendListOfDays | booking-tour/assets/frontend.js:361-364 | a setting of day numbers joined by commas marks exactly those days as weekend days |
| Calendar.EnabledDayIsOpen | booking-tour/assets/frontend.js:379-380 | a day the calendar enables is not past, not a holiday and not a weekend day |
| Calendar.EnabledIndividualDayInWindow | booking-tour/assets/frontend.js:399-408 | in `limit` mode an enabled individual-tour day lies within `booking_window_days` of today |
| Calendar.FullIndividualDayDisabled | booking-tour/assets/frontend.js:386-396 | an individual-tour day with tickets booked up to the capacity is disabled |
| Calendar.TourStartOfClock | booking-tour/assets/frontend.js:414-415 | a `HH:MM` tour start is read as `HH * 60 + MM` minutes |
| Calendar.TourDayClosesAtStart | booking-tour/assets/frontend.js:411-421 | from the tour's start time on, today is disabled for both tours |
| Calendar.HallFutureDayIgnoresSlots | booking-tour/assets/frontend.js:423-428 | a hall day after today is disabled only for being a holiday or a weekend day, never for its slots |
| Form.IndexOf | booking-tour/assets/frontend.js:545 | `indexOf` is -1 exactly for an absent id, otherwise the first position holding it |
| Form.SlotsTotalRemove | booking-tour/assets/frontend.js:678-690 | dropping a selected slot lowers the slot total by exactly that slot's price |
| Form.SlotsTotalAdd | booking-tour/assets/frontend.js:678-690 | adding a slot raises the slot total by exactly its price |
| Form.AddonsTotalUpdate | booking-tour/assets/frontend.js:755-766 | changing one quantity changes the add-on total by exactly that line's change |
| Form.AddonsTotalRemove | booking-tour/assets/frontend.js:755-766 | dropping an add-on lowers the total by exactly its line |
| Form.AddonsSumNonNegative | booking-tour/assets/frontend.js:755-766 | with non-negative prices the add-on total is never negative, and zero when nothing is selected |
| Form.KeepEnabled | booking-tour/assets/frontend.js:491-526 | the re-rendered selection keeps exactly the selected ids whose cards are not greyed out, without duplicates |
| Form.WithoutId | booking-tour/assets/frontend.js:524 | the filter keeps exactly the other ids |
| Form.RenderedSelectionEnabled | booking-tour/assets/frontend.js:491-526 | after re-rendering, every selected id belongs to a card that is not greyed out |
| Form.RemoveAtKeepsNoDup | booking-tour/assets/frontend.js:548-549 | splicing one id out keeps the selection free of duplicates |
| Form.MaxAvailable | booking-tour/assets/frontend.js:603-606 | never negative; zero exactly when the date is full; otherwise booked plus available is the capacity (`max_daily_capacity \|\| 50`, which is 50 only when the field is absent) |
| Form.RemainingShown | booking-tour/assets/frontend.js:619-620 | the badge is never negative and is `maxAvailable` minus the visitor's count while that count fits |
| Form.BookingForm.constructor | booking-tour/assets/frontend.js:11-31 | the form starts with no date, no slots, one ticket and no add-ons |
| Form.BookingForm.SelectDate | booking-tour/assets/frontend.js:443-459 | a click on a greyed-out day (`DayDisabled`) changes nothing; choosing any other day selects it and resets slots, tickets and add-ons |
| Form.BookingForm.RenderSlots | booking-tour/assets/frontend.js:462-539 | the selection becomes the selected ids whose cards are not greyed out; reported as changed exactly when it did change |
| Form.BookingForm.ToggleSlot | booking-tour/assets/frontend.js:541-556 | a greyed-out card is ignored; otherwise a selected id is spliced out at its position and an unselected one is appended |
| Form.KeepUnbooked | booking-tour/assets/frontend.js:266-268 | the filter keeps exactly the ids not in the booked list, in their order |
| Form.BookingForm.DropPolledSlots | booking-tour/assets/frontend.js:264-268 | the selection becomes `KeepUnbooked` of the old one: the ids not in the date's whole booked list as the poll reports it, in their order (the order later posted as `slot_ids`) |
| Form.BookingForm.DropBookedDate | booking-tour/assets/frontend.js:309-325 | a selected date in the polled booked dates is cleared; a remaining selected date is never one of them (with this server's reply the list is empty, so it never clears) |
| Form.BookingForm.TicketMinus | booking-tour/assets/frontend.js:648-655 | the count goes down by one, never below one |
| Form.BookingForm.TicketPlus | booking-tour/assets/frontend.js:657-666 | the count goes up by one exactly when it is below `maxAvailable`, so it never passes it |
| Form.BookingForm.PollTickets | booking-tour/assets/frontend.js:291-298 | a count above the given `maxAvailable` drops to it (at least one); adjusted exactly then |
| Form.BookingForm.Poll | booking-tour/assets/frontend.js:243-332 | the loaded data becomes `PolledData` of the reply, a missing field read as empty; a hall keeps, in order, the selected ids not in the new list (`KeepUnbooked`) and a `hall` clamps add-ons to a changed stock; an individual tour clamps the count to `maxAvailable` on the new tickets; an event tour drops a selected date in the new booked dates; nothing else changes |
| Form.BookingForm.AddonRemainingForUser | booking-tour/assets/frontend.js:807-811 | never negative; positive exactly when the selection is below the stock, and then selection plus this is the stock |
| Form.BookingForm.AddonPlus | booking-tour/assets/frontend.js:58-70 | the quantity goes up by one exactly when it is below the stock, so it never passes it |
| Form.BookingForm.AddonMinus | booking-tour/assets/frontend.js:71-81 | the quantity goes down by one, and the add-on leaves the selection when it reaches zero |
| Form.BookingForm.ClampSelectedAddons | booking-tour/assets/frontend.js:784-797 | each quantity above its stock becomes `max(0, stock)`, the others stay; changed exactly when some quantity was above its stock |
| Form.BookingForm.CalculateAddonsTotal | booking-tour/assets/frontend.js:755-766 | the loop's sum is the add-on total over every selected add-on with a positive quantity and a catalog entry |
| Form.BookingForm.SelectedSlotsTotal | booking-tour/assets/frontend.js:678-690 | the loop's sum is the total price of the selected slots found in the catalog |
| Form.BookingForm.SummaryTotal | booking-tour/assets/frontend.js:672-724 | hall and staircase: slots (plus add-ons for a hall) once a date and a slot are chosen; event tour: the tour price; individual tour: price times tickets; otherwise no summary |
| Consistency.ClientTypeOf | booking-tour/assets/frontend.js:604 | the form's capacity is the type's stored capacity, 0 included |
| Consistency.BlockedDatesAgree | booking-tour/booking-tour.php:806-828 | a date from today on is in the blocked list sent to the form exactly when the server's cross check sees an active booking of that category's first type |
| Consistency.IdListRoundTrip | booking-tour/assets/frontend.js:135 | the server's `intval(explode(','))` reads back exactly the ids the form joined |
| Consistency.BookedSlotMeansConflict | booking-tour/booking-tour.php:1003-1017 | a slot id in the date's booked list is exactly one whose request the server refuses as taken |
| Consistency.HallSelectionAdmitted | booking-tour/assets/frontend.js:491-556 | a hall selection of cards that are not greyed out passes the server's hall check; a selection holding a booked id is refused as taken |
| Consistency.EventCrossMatchesServer | booking-tour/assets/frontend.js:386-396 | for an event tour, on the data as first loaded, the calendar's cross-booking flag is set exactly when the server refuses the date |
| Consistency.IndividualTicketsMatchServer | booking-tour/booking-tour.php:1044-1067 | for an individual tour, on the data as first loaded, the server admits `n` tickets exactly when the event tour leaves the date free and `n` is within the form's `maxAvailable`; a date the calendar blocks is refused |
| Consistency.PolledHallListHeld | booking-tour/assets/frontend.js:262-272 | after a hall poll on `check_availability`'s reply, the selected date's booked list still holds exactly the ids held that day |
| Consistency.PollReopensFullIndividualDay | booking-tour/assets/frontend.js:283-301 | after an individual-tour poll, a date whose capacity is used up is no longer crossed out and the counter offers the whole capacity, while the server refuses even one ticket |
| Consistency.PollReopensBookedEventDate | booking-tour/assets/frontend.js:307-330 | after an event-tour poll, a date the type already has a booking on is no longer crossed out, while the server refuses it |
| Consistency.ClientSubmitError | booking-tour/assets/frontend.js:95-130 | the form posts exactly when a date is chosen, a hall has a slot, name, phone and email are filled, a payment reference or image is given, and the image is at most 1 MB |
| Consistency.ClientCheckImpliesValidated | booking-tour/assets/frontend.js:131-145 | a post the form lets through passes the server's validation when the type exists, the ids are positive, no field is `"0"`, and the image has an allowed type and was stored |
| Consistency.IdsTextNotEmpty | booking-tour/assets/frontend.js:135 | a joined list of positive ids is neither empty nor `"0"`, so the server sees a slot |
| Consistency.ZeroNameRefusedOnlyByServer | booking-tour/booking-tour.php:953-956 | a name of exactly `"0"` passes the form's check but is refused by the server as a missing field |

## Left out

- Nonces, capability checks, `sanitize_*` and SQL escaping are left out. The model starts from the sanitised values.
- E-mail notifications and their text are left out. They only send mail.
- Storing the payment upload is left out; it is file-system work. `Admission.Upload` carries its outcome instead: whether the move succeeded, and the URL.
- The insert-failure branch of `submit_booking` (booking-tour.php:1089-1100) is left out. The database is assumed to accept the insert.
- Concurrency between requests is left out. Each handler runs alone on the ledger. The check-then-insert race between two submissions is therefore not modelled.
- `created_at` and the clock are left out. "Today", the weekday and the current minute are parameters. `ORDER BY created_at DESC` is modelled as reverse insertion order.
- `delete_slot`, `get_slots`, the type and add-on admin handlers and `admin.js` are left out. They are catalog administration outside the availability engine.
- Floating-point prices (`parseFloat`, `toFixed(2)`) are left out. Prices are integer minor units.
- Locale date text (`toLocaleDateString`), HTML rendering, toasts and jQuery events are left out. Only their effect on the form's state is modelled.
- The polling timer is left out. One poll is `Form.BookingForm.Poll` on a successful reply; a failed reply changes nothing and is not modelled.
- The poll empties fields the server never sends. The individual tour's `ticketsByDate` becomes `{}`, and its `individualBlockedDates` `[]`. The event tour's `bookedDates` and `eventBlockedDates` become `[]`. The `hall` add-on stock is `{}`. `Consistency.PollReopensFullIndividualDay` and `Consistency.PollReopensBookedEventDate` show the effect.
- Form.BookingForm.Poll: the re-render that follows a change (`renderCalendar`, `renderSlots`, `updateUI`) is not part of it. It is `Calendar.DayFlagsOf` and `Form.BookingForm.RenderSlots` on the polled data.
- Form.BookingForm.Poll: a changed object is found by comparing maps, where the code compares JSON text, which also sees key order. The in-place string sort of the two booked-slot lists is left out; only their order changes.
- Form.BookingForm.Poll: `serverTime` and `serverDate` from the reply are left out; the current minute and day are parameters.
- The add-on panel works on an add-on catalog that this server version never sends. `Form.BookingForm` takes it as given.
- Ledger.SlotsOfType: the slots are in catalog order. `ORDER BY start_time` (booking-tour.php:759) is not modelled.
- Ledger.Matching: the status filter compares text exactly. MySQL's default case-insensitive collation would also match, for example, `Pending`.
- Text.Intval: PHP's saturation at `PHP_INT_MAX` is not modelled; integers are unbounded. Nor are PHP 7.1's exponent forms (`intval("1e3")` is 1000) or `\v` and `\f` as leading blanks; the ids and counts the form posts are plain decimal digits.
- Text.ParseInt: the `0x` prefix of `parseInt` is not modelled.
- Formats.JsNumber: only optionally signed decimal integers are read. `"1.0"`, `"0x1"` and `"1e0"` read as NaN here, while `Number` gives 1.
- Text.Trim: only space, tab, newline and carriage return count as blank. Other Unicode whitespace is not trimmed.
- Consistency.ClientCheckImpliesValidated: it assumes no field is `"0"` and that the image was stored. The two layers disagree exactly there (see `Consistency.ZeroNameRefusedOnlyByServer`).
- Ledger.BookingLedger.GetBookings: `slot_details` are the catalog slots in catalog order. SQL's `IN (...)` result order is not specified.
