/** Properties of the booking command, alone and together with the slot engine. */
module BookingProperties {
  import opened Wrappers
  import opened Clock
  import opened ClockText
  import opened SlotEngine
  import opened Batch
  import opened Booking

  /**
   * A slot text in the listing's own format is read back as the same two clock
   * times on the requested date, in IST. Nothing checks that the end comes
   * after the start, or that the slot lies in the working hours.
   */
  lemma FormattedRangeParses(date: string, day: int, a: int, b: int, parseDate: string -> Option<int>)
    requires 0 <= a < MinutesPerDay && 0 <= b < MinutesPerDay
    requires parseDate(date) == Some(day)
    ensures ParseSlot(SlotRequest(date, FormatRange(a, b)), parseDate)
         == Ok(PendingEvent(date, FormatRange(a, b), day, WallToUtc(day, a, IstOffset), WallToUtc(day, b, IstOffset)))
  {
    SplitFormatRange(a, b);
    ParseFormatClock(a);
    ParseFormatClock(b);
  }

  /**
   * A slot listed for `day` and booked on that date is placed at the listed
   * instant shifted by the grid zone's distance from IST (no shift when the
   * grid is IST), and passes the lead-time check as long as the booking's
   * clock reading is not later than the listing's one, shifted the same way.
   */
  lemma ListedSlotBooks(day: int, busy: seq<Busy>, listNow: int, s: Slot, date: string,
                        parseDate: string -> Option<int>, bookNow: int)
    requires FreeSlots(day, busy, listNow).Ok? && s in FreeSlots(day, busy, listNow).value
    requires parseDate(date) == Some(day)
    requires bookNow + IstOffset <= listNow + GridOffset(busy).value
    ensures var o := GridOffset(busy).value;
            var v := Validate(SlotRequest(date, FormatRange(s.start, s.end)), bookNow, parseDate);
            v.Ok? && v.value.start == WallToUtc(day, s.start, o) + o - IstOffset
  {
    assert Listed(day, busy, listNow, s);
    FormattedRangeParses(date, day, s.start, s.end, parseDate);
  }

  /**
   * Only the slots up to the first failing one are ever processed: a request
   * whose slots agree with this one's up to and including the failing slot
   * gets the same reply and creates the same events, whatever slots follow.
   */
  lemma LaterSlotsIgnored(req: BookRequest, slots': seq<SlotRequest>, now: int,
                          parseDate: string -> Option<int>, insert: (nat, PendingEvent) -> InsertReply)
    requires |req.student| > 0 && |req.slots| > 0
    requires var o := BookSlots(Some(req), now, parseDate, insert);
             && o.failure.Some?
             && |o.done| < |slots'|
             && forall j :: 0 <= j <= |o.done| ==> slots'[j] == req.slots[j]
    ensures BookSlots(Some(BookRequest(req.student, slots')), now, parseDate, insert)
         == BookSlots(Some(req), now, parseDate, insert)
  {
    LaterItemsIgnored(req.slots, slots', 0, Step(now, parseDate, insert));
  }

  /**
   * When slot `k` is the first to fail, the call ends with that slot's error
   * and exactly the bookings of the `k` slots before it. A lead-time failure
   * makes the reply a 400 and any other failure a 500, while those bookings
   * stay in the calendar.
   */
  lemma FirstFailureDecides(req: BookRequest, k: nat, e: BookError, now: int,
                            parseDate: string -> Option<int>, insert: (nat, PendingEvent) -> InsertReply)
    requires |req.student| > 0 && k < |req.slots|
    requires forall j :: 0 <= j < k ==> ProcessSlot(j, req.slots[j], now, parseDate, insert).Ok?
    requires ProcessSlot(k, req.slots[k], now, parseDate, insert) == Err(e)
    ensures var o := BookSlots(Some(req), now, parseDate, insert);
            && o.failure == Some(e)
            && |o.done| == k
            && (forall j :: 0 <= j < k ==> ProcessSlot(j, req.slots[j], now, parseDate, insert) == Ok(o.done[j]))
            && HttpStatus(o) == (if e.TooSoon? then 400 else 500)
  {
    StopsAt(req.slots, 0, k, Step(now, parseDate, insert), e);
  }

  /**
   * A slot that reads correctly but starts less than two hours after `now`
   * ends the call with a 400 naming that slot, once the slots before it went
   * through; their bookings stay in the calendar.
   */
  lemma TooSoonSlotRejected(req: BookRequest, k: nat, now: int,
                            parseDate: string -> Option<int>, insert: (nat, PendingEvent) -> InsertReply)
    requires |req.student| > 0 && k < |req.slots|
    requires forall j :: 0 <= j < k ==> ProcessSlot(j, req.slots[j], now, parseDate, insert).Ok?
    requires ParseSlot(req.slots[k], parseDate).Ok?
    requires ParseSlot(req.slots[k], parseDate).value.start < now + LeadMinutes
    ensures var o := BookSlots(Some(req), now, parseDate, insert);
            && o.failure == Some(TooSoon(req.slots[k].date, req.slots[k].time))
            && HttpStatus(o) == 400
            && |o.done| == k
  {
    FirstFailureDecides(req, k, TooSoon(req.slots[k].date, req.slots[k].time), now, parseDate, insert);
  }

  /**
   * When every slot goes through, the call books all of them, in order, and
   * answers 200; and the call answers 200 only in that case.
   */
  lemma AllSlotsBooked(req: BookRequest, now: int, parseDate: string -> Option<int>,
                       insert: (nat, PendingEvent) -> InsertReply)
    requires |req.student| > 0 && |req.slots| > 0
    ensures var o := BookSlots(Some(req), now, parseDate, insert);
            && (HttpStatus(o) == 200 <==>
                 forall j :: 0 <= j < |req.slots| ==> ProcessSlot(j, req.slots[j], now, parseDate, insert).Ok?)
            && (HttpStatus(o) == 200 ==>
                 && |o.done| == |req.slots|
                 && forall j :: 0 <= j < |req.slots| ==> ProcessSlot(j, req.slots[j], now, parseDate, insert) == Ok(o.done[j]))
  {
    var o := BookSlots(Some(req), now, parseDate, insert);
    var step := Step(now, parseDate, insert);
    if o.failure.Some? {
      var n := |o.done|;
      assert step(n, req.slots[n]) == Err(o.failure.value);
    } else {
      forall j | 0 <= j < |req.slots|
        ensures ProcessSlot(j, req.slots[j], now, parseDate, insert) == Ok(o.done[j])
      {
        assert step(0 + j, req.slots[0 + j]) == Ok(o.done[j]);
      }
    }
  }

  /** Every booking the call made is for a slot at least two hours after `now`. */
  lemma BookingsRespectLeadTime(req: BookRequest, now: int, parseDate: string -> Option<int>,
                                insert: (nat, PendingEvent) -> InsertReply)
    ensures var o := BookSlots(Some(req), now, parseDate, insert);
            forall j :: 0 <= j < |o.done| ==>
              j < |req.slots| && Validate(req.slots[j], now, parseDate).Ok? &&
              Validate(req.slots[j], now, parseDate).value.start >= now + LeadMinutes
  {
    if |req.student| > 0 && |req.slots| > 0 {
      var o := BookSlots(Some(req), now, parseDate, insert);
      ProcessedSlotsPassed(req.slots, o.done, now, parseDate, insert);
    }
  }

  /** Every result of the booking loop comes from a slot that passed the checks. */
  lemma ProcessedSlotsPassed(slots: seq<SlotRequest>, done: seq<CreatedBooking>, now: int,
                             parseDate: string -> Option<int>, insert: (nat, PendingEvent) -> InsertReply)
    requires Processed(slots, 0, Step(now, parseDate, insert), done)
    ensures forall j :: 0 <= j < |done| ==>
              j < |slots| && Validate(slots[j], now, parseDate).Ok? &&
              Validate(slots[j], now, parseDate).value.start >= now + LeadMinutes
  {
    var step := Step(now, parseDate, insert);
    forall j | 0 <= j < |done|
      ensures j < |slots| && Validate(slots[j], now, parseDate).Ok?
      ensures Validate(slots[j], now, parseDate).value.start >= now + LeadMinutes
    {
      assert step(0 + j, slots[0 + j]) == Ok(done[j]);
      BookedSlotPassed(j, slots[j], now, parseDate, insert);
    }
  }

  lemma BookedSlotPassed(j: nat, slot: SlotRequest, now: int, parseDate: string -> Option<int>,
                         insert: (nat, PendingEvent) -> InsertReply)
    requires ProcessSlot(j, slot, now, parseDate, insert).Ok?
    ensures Validate(slot, now, parseDate).Ok?
    ensures Validate(slot, now, parseDate).value.start >= now + LeadMinutes
  {
  }
}
