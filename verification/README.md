# Slot engine and booking checks of the Python tutoring booking backend

This Dafny project models the scheduling core of `booking_backend.py`, a Flask
service that lists free one-hour tutoring slots from a Google Calendar and
books the slots a student picks.

- **Working hours** (`WORK_HOURS`): 07:00-13:00, 15:00-18:00 and 19:00-23:00,
  walked in one-hour steps. Modelled in `clock.dfy`.
- **The slot engine** (`get_free_slots`): for one date, the hour steps of the
  working hours that start at least two hours after "now" and overlap no busy
  entry starting on that date. The overlap test is half-open.
  - The grid zone is the zone of the first fetched entry. It is IST (UTC+05:30)
    when no entry was fetched.
  - An all-day entry carries a naive datetime. Comparing it with the zone-aware
    grid raises Python's `TypeError`, which the model keeps as an error.
  - Modelled in `slot_engine.dfy`; properties in `slot_properties.dfy`.
- **The availability map** (`get_available_slots`): today's UTC date and the
  seven following dates. A date is kept only when it has a free slot, and its
  slots are rendered as "HH:MM-HH:MM". Modelled in `availability.dfy` and
  `clock_text.dfy`.
- **The booking checks** (`book_slots`), modelled in `booking.dfy`:
  - split the range on `-` and parse both `HH:MM` halves (`strptime`);
  - place the slot on its date in IST;
  - reject it with a 400 when it starts less than two hours from now;
  - otherwise insert it into the calendar.
  - The loop stops at the first failing slot. Events already created stay in
    the calendar.
- **The loop shape** is stated once, generically, in `batch.dfy`.
  `booking_properties.dfy` relates the booking side to the listing side.

Time is integer minutes:
- instants are UTC minutes since the epoch;
- dates are day numbers;
- a time of day is minutes after local midnight;
- a zone is a fixed UTC offset in minutes.

The source's clock reads, its date parser and its calendar insert call are
parameters of the model: `now`, `parseDate` and `insert`.

Notable behaviour of the code, which the model keeps:
- **All-day entries.** An all-day entry is parsed into a naive datetime and
  never blocks an hour. It fails the whole availability request (a 500) when
  it is the first fetched entry, because the grid is then naive and the
  lead-time comparison raises `TypeError`. It also fails the request when the
  scan of a late-enough hour of its start date reaches it, since comparing it
  with the zone-aware hour raises `TypeError`. Otherwise it is ignored.
- **Lead-time rejection.** A slot that is too soon ends the call with a 400,
  but the events created for the earlier slots of the same request stay in the
  calendar; `FirstFailureDecides` and `TooSoonSlotRejected` state this.
- **Grid zone.** The grid zone comes from the first entry of the whole
  eight-day list, not from the day's own entries. Booking always reads the
  slot text as IST. So a slot listed in another zone is booked at a shifted
  instant; `ListedSlotBooks` states the shift.

## Model

| member | source | states |
|---|---|---|
| Clock.WorkHoursWellFormed | booking_backend.py:33-37 | The working-hour windows are non-empty, lie inside one day, and are listed in time order without overlap. |
| Clock.LocalDateOfWall | booking_backend.py:67-72 | The date of an instant built from a date and a time of day in a zone is that date (`combine` then `.date()`). |
| ClockText.SplitOn | booking_backend.py:203 | `str.split` on one character: at least one piece, no piece holds the separator, and joining the pieces gives the input back. |
| ClockText.SplitJoin | booking_backend.py:203 | Splitting a joined list of separator-free pieces gives the pieces back. |
| ClockText.FormatClock | booking_backend.py:99 | `strftime('%H:%M')` prints five characters: two digits reading the hour, a colon, two digits reading the minute. |
| ClockText.FormatRange | booking_backend.py:99 | A slot text is the start's clock text, '-', and the end's clock text, with no '-' inside either clock text. |
| ClockText.ParseField | booking_backend.py:206-208 | A field is read exactly when it is one or two ASCII digits with value at most the field's maximum; for the hour this is exactly the texts `strptime`'s `%H` pattern accepts and for the minute exactly those of `%M`. The value read is the decimal value of the digits. |
| ClockText.FieldTextMatchesPatterns | booking_backend.py:206-208 | One or two digits with value at most 23 are exactly the texts matching one of `2[0-3]`, `[0-1]\d`, `\d` (the `%H` pattern), and at most 59 exactly those matching `[0-5]\d` or `\d` (the `%M` pattern). |
| ClockText.ParseClock | booking_backend.py:207-208 | A text is accepted exactly when it splits on ':' into an hour field up to 23 and a minute field up to 59, and then denotes 60 times the hour plus the minute, a time of day in [0, 1440). |
| ClockText.ParseClockOf | booking_backend.py:207-208 | Every hour field, colon and minute field is accepted and read as 60 times the hour plus the minute, so one-digit fields such as "7:00" are accepted too. |
| ClockText.ParseClockFields | booking_backend.py:207-208 | Every accepted text is an hour field up to 23, one colon and a minute field up to 59, with nothing else. |
| ClockText.ParseFormatClock | booking_backend.py:207-208 | `strptime('%H:%M')` reads back exactly the time of day that `strftime('%H:%M')` printed. |
| ClockText.SplitFormatRange | booking_backend.py:203 | A listed slot text splits on '-' into exactly its two printed clock times. |
| SlotEngine.GridOffsetPrefix | booking_backend.py:58-62 | Only the first fetched entry picks the grid zone: entries after it never change it. |
| SlotEngine.DayBusy | booking_backend.py:64-68 | An entry is kept exactly when it was fetched and its start date (in its own zone) is the day; no entries are invented. |
| SlotEngine.DayBusyAppend | booking_backend.py:64-68 | The filter of a concatenation is the concatenation of the filters, so order is kept. |
| SlotEngine.Scan | booking_backend.py:87-95 | The scan answers free exactly when every entry is comparable and none overlaps; busy exactly when an overlapping entry comes before any all-day one; an error only when an all-day entry is present. |
| SlotEngine.Walk | booking_backend.py:75-103 | The hour walk through one window emits exactly the late-enough, clear whole-hour steps that fit in the window, in increasing order; it cannot fail when all entries are timed. |
| SlotEngine.WalkWindows | booking_backend.py:71-103 | Over all windows, every slot is a late-enough, clear grid step of some window, and every open grid step is emitted; ordered windows give ordered slots. |
| SlotEngine.FreeSlots | booking_backend.py:42-105 | Every listed slot is a one-hour step of the working hours, starts at least two hours after now, and overlaps no timed entry of the day. Every such step is listed. Slots are in time order, within the day. A naive grid is an error; all-timed entries give no error. |
| SlotProperties.OtherDatesIgnored | booking_backend.py:64-68 | Entries starting on other dates, inserted anywhere after the first entry, do not change a day's slots. |
| SlotProperties.FirstEntryPicksGridZone | booking_backend.py:58-62 | An entry on another date, listed first, moves the grid zone and so can change which slots a day offers (shown for one instance). |
| SlotProperties.TouchingEntryKeepsSlot | booking_backend.py:88-95 | An entry that ends when a listed slot starts, or starts when it ends, leaves the slot listed (half-open test). |
| SlotProperties.OverlappingEntryRemovesSlot | booking_backend.py:88-95 | An entry of the day that overlaps a slot by any amount removes it. |
| SlotProperties.BusyHourExample | booking_backend.py:71-103 | With a 09:00-10:00 entry and now at 05:00 IST, 07:00, 08:00, 10:00, 11:00 and 12:00 are offered and 09:00 is not. |
| SlotProperties.LeadTimeExample | booking_backend.py:79-85 | At 06:30 IST with no entries, 07:00 and 08:00 are too soon while 09:00 is offered: skipped steps do not stop the walk. |
| Availability.UtcDate | booking_backend.py:114 | Today is the UTC day whose minutes contain `now`. |
| Availability.SlotTexts | booking_backend.py:98-100 | One "HH:MM-HH:MM" text per slot, in slot order. |
| Availability.Assemble | booking_backend.py:150-164 | The map succeeds exactly when every day succeeds. Its keys are among the consecutive dates. A date is a key exactly when its list is non-empty, and then maps to that list. |
| Availability.AvailableSlots | booking_backend.py:108-171 | The reply succeeds exactly when the slots of all eight dates from today's UTC date can be computed; a date is then a key exactly when it has a free slot, mapped to those slots' texts. |
| Availability.AllDayFirstFailsRequest | booking_backend.py:58-62 | When the first fetched entry is all-day, every availability request fails. |
| Availability.TimedEntriesNeverFail | booking_backend.py:149-164 | With only timed entries, the availability request never fails. |
| Batch.RunFrom | booking_backend.py:195-287 | The loop's results are those of the steps on the first items, in order. It completes exactly when every item was processed. Otherwise the next item is the one whose step failed, with that error. |
| Batch.StopsAt | booking_backend.py:195-287 | When item k is the first failing one, the run ends with its error after exactly k results. |
| Batch.FailedRunCharacterised | booking_backend.py:195-287 | Results that match the steps, followed by a failing step, are exactly what the run returns. This is the converse of `RunFrom`'s contract. |
| Batch.CompleteRunCharacterised | booking_backend.py:195-293 | Results that match every step are exactly what a completed run returns. |
| Batch.SamePrefixSameRun | booking_backend.py:195-287 | A failed run's facts carry over to any item list that agrees up to the failing item. |
| Batch.LaterItemsIgnored | booking_backend.py:195-287 | Items after the first failing one are never looked at: changing them leaves the run unchanged. |
| Booking.ParseSlot | booking_backend.py:198-211 | A slot is read exactly when its range splits into two texts, its date parses and both texts are valid clock times; each failure is named (malformed range, bad date, bad clock). A read slot echoes its texts and places both clock times on the parsed date in IST. |
| Booking.Validate | booking_backend.py:213-218 | A slot passes exactly when it parses and starts at least two hours after now. It is a 400 lead-time error exactly when it parses but starts sooner. Every other failure is the parse failure, reported for that slot. |
| Booking.ProcessSlot | booking_backend.py:196-287 | A slot is booked exactly when it passes the checks and the insert call accepts it. A check failure (lead time or parse fault) is passed on unchanged; an insert refusal is a per-slot failure. The booking carries the insert's id and the slot's texts, with '' and 'No Meet link generated' for missing links. |
| Booking.BookSlots | booking_backend.py:176-293 | A falsy JSON body (`null`, `{}`, `[]`), an empty contact or an empty slot list is a 400 with no bookings. Otherwise the outcome is the loop over the slots, in request order. |
| BookingProperties.FormattedRangeParses | booking_backend.py:203-211 | A slot text in the listing's format is read back as the same two clock times on the requested date in IST; nothing checks that the end follows the start. |
| BookingProperties.ListedSlotBooks | booking_backend.py:189-218 | A listed slot, booked on its date, is placed at the listed instant shifted by the grid zone's distance from IST. It passes the lead-time check when booked no later than it was listed, in shifted terms. |
| BookingProperties.LaterSlotsIgnored | booking_backend.py:195-287 | Slots after the first failing one are never processed: any slots there give the same reply and the same events. |
| BookingProperties.FirstFailureDecides | booking_backend.py:179-289 | When slot k is the first to fail, the call ends with its error. Exactly the k earlier bookings remain, in request order. The reply is 400 for a lead-time failure and 500 for any other slot failure, even though those bookings stay. |
| BookingProperties.TooSoonSlotRejected | booking_backend.py:195-218 | A slot that reads correctly but starts less than two hours after now, after slots that went through, ends the call with a 400 naming it, with exactly the earlier bookings kept. |
| BookingProperties.AllSlotsBooked | booking_backend.py:179-289 | The call answers 200 exactly when every slot goes through, and then has booked every slot in order. |
| BookingProperties.BookingsRespectLeadTime | booking_backend.py:213-218 | Every event the call created starts at least two hours after now. |

## Left out

- The Flask app, CORS, the routes, and JSON building. Replies are modelled as
  an outcome plus `HttpStatus`; the messages' text is not modelled.
- The Google Calendar client: building the service, `events().list`,
  `events().insert` and `test_calendar_access`. The fetched entries are an
  input. The insert call is the function parameter `insert`, which may accept
  or refuse.
- The event payload: summary, description, attendees, reminders, and the
  Meet `requestId` built from the process-randomised `hash()`.
- `fromisoformat` parsing of the fetched entries. Entries arrive parsed:
  - a timed entry as UTC minutes plus the zone offset its start was written in;
  - an all-day entry as dates.
  An end written in a zone other than its start's is not distinguished.
- `strptime(date, '%Y-%m-%d')`: this is the parameter `parseDate`.
- Python's `%H`/`%M` fields also accept non-ASCII Unicode digits. The model
  accepts ASCII digits only.
- The day-map keys are day numbers, not "YYYY-MM-DD" texts. The `dayName` and
  `dayDate` fields (`strftime` locale names) are omitted, and so are the
  unused `fmt` helper and all `print` logging.
- Reading the wall clock: `now` is a parameter, in whole minutes. The listing
  reads the clock nine times: once for today's date and once in each of the
  eight slot computations. The model takes all nine readings as the same
  `now`. Near a minute or midnight boundary, today's date and the lead-time
  thresholds of the code can therefore disagree with the model's. The clock
  the code reads has microseconds. The lead-time tests compare whole-minute
  slot starts with now plus two hours, so they match the code when `now` is
  the reading rounded up to the minute. Today's UTC date matches the code when
  `now` is the reading rounded down. The two roundings differ only for a
  reading strictly between two minutes, and no single integer `now` is exact
  for both uses then: in the last partial minute of a UTC day, rounding up
  moves `today` to the next date. Fetched entries given to the second match the
  code when the start is rounded down and the end rounded up, since the overlap
  test compares them with whole-minute slot bounds.
- Environment and credential loading, and the `__main__` bootstrap.
- Malformed request shapes fall outside the model:
  - an empty or non-JSON body, for which `get_json` raises and the outer
    handler answers 500;
  - a slot without a `date` or `time` key;
  - a non-list `slots`;
  - an insert reply without `id`.
  - a reply whose `conferenceData` has an empty `entryPoints` list. The
    source raises `IndexError` there after the event was created. The model
    reads such a reply as having no Meet link.
- FreeSlots: the contract gives the error side one way only. A naive grid
  always fails, and all-timed day entries never fail. When an all-day entry is
  among a day's entries under an aware grid, the listing fails exactly when
  the hour scan reaches it; that is stated per hour by `Scan`, not for the
  whole day.
- Walk: the same one-way error statement as FreeSlots.
- WalkWindows: the same one-way error statement as FreeSlots.
