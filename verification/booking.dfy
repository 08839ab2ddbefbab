/**
 * The booking command (`book_slots`): each requested slot is parsed, checked
 * against the two-hour lead time and inserted into the calendar, in request
 * order, stopping at the first slot that fails.
 */
module Booking {
  import opened Wrappers
  import opened Clock
  import opened ClockText
  import opened Batch

  /** One requested slot: a "YYYY-MM-DD" date text and an "HH:MM-HH:MM" range text. */
  datatype SlotRequest = SlotRequest(date: string, time: string)

  /** The request body: the contact record and the requested slots. */
  datatype BookRequest = BookRequest(student: map<string, string>, slots: seq<SlotRequest>)

  /** A slot that passed the checks, as handed to the calendar's insert call. */
  datatype PendingEvent = PendingEvent(date: string, time: string, day: int, start: int, end: int)

  /** What the calendar's insert call answered. */
  datatype InsertReply =
    | Inserted(id: string, htmlLink: Option<string>, meetUri: Option<string>)
    | InsertFailed

  /** One entry of the `events` list of the reply. */
  datatype CreatedBooking = CreatedBooking(id: string, htmlLink: string, meetLink: string, date: string, time: string)

  /** Why a slot failed inside the per-slot `try` block. */
  datatype SlotFault = MalformedRange | BadDate | BadClock | InsertRejected

  datatype BookError =
    | NoData
    | MissingStudentOrSlots
    | TooSoon(date: string, time: string)
    | SlotFailed(date: string, time: string, fault: SlotFault)

  /**
   * The result of a call: the events now in the calendar (in request order) and
   * the error that ended the call, if any. On an error the reply carries only
   * the error, but the events created before it stay in the calendar.
   */
  type BookOutcome = Run<CreatedBooking, BookError>

  const NoMeetLink: string := "No Meet link generated"

  /**
   * The HTTP status of the reply: 200 when no slot failed, 500 for a failure
   * inside the per-slot `try` block, 400 for the guards and the lead-time check.
   */
  function HttpStatus(o: BookOutcome): int
  {
    match o.failure
    case None => 200
    case Some(SlotFailed(_, _, _)) => 500
    case Some(_) => 400
  }

  /**
   * Reads one requested slot: split the range on '-' into exactly two texts,
   * parse the date with `parseDate` (`strptime(date, '%Y-%m-%d')`), parse both
   * clock times, and place them on that date in IST.
   */
  function ParseSlot(req: SlotRequest, parseDate: string -> Option<int>): (r: Result<PendingEvent, SlotFault>)
    ensures r.Ok? ==> r.value.date == req.date && r.value.time == req.time
    ensures r.Ok? ==> parseDate(req.date) == Some(r.value.day)
    ensures var texts := SplitOn(req.time, '-');
      r.Ok? <==> |texts| == 2 && parseDate(req.date).Some? && ParseClock(texts[0]).Some? && ParseClock(texts[1]).Some?
    ensures r == Err(MalformedRange) <==> |SplitOn(req.time, '-')| != 2
    ensures r == Err(BadDate) <==> |SplitOn(req.time, '-')| == 2 && parseDate(req.date).None?
    ensures r.Err? ==> r.error != InsertRejected
    ensures r.Ok? ==> exists a, b ::
      && SplitOn(req.time, '-') == [a, b]
      && ParseClock(a).Some? && ParseClock(b).Some?
      && r.value.start == WallToUtc(r.value.day, ParseClock(a).value, IstOffset)
      && r.value.end == WallToUtc(r.value.day, ParseClock(b).value, IstOffset)
  {
    var texts := SplitOn(req.time, '-');
    if |texts| != 2 then Err(MalformedRange)
    else
      match parseDate(req.date)
      case None => Err(BadDate)
      case Some(day) =>
        match (ParseClock(texts[0]), ParseClock(texts[1]))
        case (Some(a), Some(b)) =>
          assert texts == [texts[0], texts[1]];
          Ok(PendingEvent(req.date, req.time, day, WallToUtc(day, a, IstOffset), WallToUtc(day, b, IstOffset)))
        case _ => Err(BadClock)
  }

  /**
   * Checks one requested slot: parse it, then reject it with a 400 when it
   * starts before `now` plus the lead time. Any parse failure is a 500.
   */
  function Validate(req: SlotRequest, now: int, parseDate: string -> Option<int>): (r: Result<PendingEvent, BookError>)
    ensures r.Ok? ==> r.value.start >= now + LeadMinutes
    ensures r.Ok? <==> ParseSlot(req, parseDate).Ok? && ParseSlot(req, parseDate).value.start >= now + LeadMinutes
    ensures r.Ok? ==> r.value == ParseSlot(req, parseDate).value
    ensures r == Err(TooSoon(req.date, req.time)) <==>
      ParseSlot(req, parseDate).Ok? && ParseSlot(req, parseDate).value.start < now + LeadMinutes
    ensures r.Err? && !r.error.TooSoon? ==>
      ParseSlot(req, parseDate).Err? && r.error == SlotFailed(req.date, req.time, ParseSlot(req, parseDate).error)
  {
    match ParseSlot(req, parseDate)
    case Err(fault) => Err(SlotFailed(req.date, req.time, fault))
    case Ok(p) => if p.start < now + LeadMinutes then Err(TooSoon(req.date, req.time)) else Ok(p)
  }

  /**
   * One pass of the `for slot in slots` loop for the slot at position `index`:
   * validate it, then insert it (the `index`-th insert call of the request).
   */
  function ProcessSlot(index: nat, req: SlotRequest, now: int, parseDate: string -> Option<int>,
                       insert: (nat, PendingEvent) -> InsertReply): (r: Result<CreatedBooking, BookError>)
    ensures r.Ok? ==> r.value.date == req.date && r.value.time == req.time
    ensures r.Ok? <==> Validate(req, now, parseDate).Ok? && insert(index, Validate(req, now, parseDate).value).Inserted?
    ensures r.Ok? ==> var reply := insert(index, Validate(req, now, parseDate).value);
      && r.value.id == reply.id
      && (r.value.htmlLink == if reply.htmlLink.Some? then reply.htmlLink.value else "")
      && (r.value.meetLink == if reply.meetUri.Some? then reply.meetUri.value else NoMeetLink)
    ensures r.Err? && Validate(req, now, parseDate).Ok? ==> r.error == SlotFailed(req.date, req.time, InsertRejected)
    ensures Validate(req, now, parseDate).Err? ==> r == Err(Validate(req, now, parseDate).error)
  {
    match Validate(req, now, parseDate)
    case Err(e) => Err(e)
    case Ok(p) =>
      match insert(index, p)
      case InsertFailed => Err(SlotFailed(req.date, req.time, InsertRejected))
      case Inserted(id, html, meet) =>
        var link := match html case Some(h) => h case None => "";
        var meetLink := match meet case Some(u) => u case None => NoMeetLink;
        Ok(CreatedBooking(id, link, meetLink, req.date, req.time))
  }

  /** The body of the `for slot in slots` loop, as a step of the run over the requested slots. */
  function Step(now: int, parseDate: string -> Option<int>, insert: (nat, PendingEvent) -> InsertReply)
    : (nat, SlotRequest) -> Result<CreatedBooking, BookError>
  {
    (j: nat, req: SlotRequest) => ProcessSlot(j, req, now, parseDate, insert)
  }

  /**
   * `book_slots` with the request body `data` (None for a falsy JSON value), the
   * clock reading `now`, the date parser and the calendar's insert call passed in.
   */
  function BookSlots(data: Option<BookRequest>, now: int, parseDate: string -> Option<int>,
                     insert: (nat, PendingEvent) -> InsertReply): (o: BookOutcome)
    ensures data.None? ==> o == Run([], Some(NoData))
    ensures data.Some? && (|data.value.student| == 0 || |data.value.slots| == 0) ==>
      o == Run([], Some(MissingStudentOrSlots))
    ensures data.Some? && |data.value.student| > 0 && |data.value.slots| > 0 ==>
      var slots := data.value.slots;
      var step := Step(now, parseDate, insert);
      && Processed(slots, 0, step, o.done)
      && (o.failure.None? <==> |o.done| == |slots|)
      && (o.failure.Some? ==> FailsAfter(slots, 0, step, o.done, o.failure.value))
  {
    match data
    case None => Run([], Some(NoData))
    case Some(req) =>
      if |req.student| == 0 || |req.slots| == 0 then Run([], Some(MissingStudentOrSlots))
      else RunFrom(req.slots, 0, Step(now, parseDate, insert))
  }
}
