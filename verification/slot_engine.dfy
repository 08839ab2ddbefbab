/**
 * The slot engine (`get_free_slots`): the free one-hour slots of one day,
 * given the busy calendar entries and the current instant.
 */
module SlotEngine {
  import opened Wrappers
  import opened Clock

  /**
   * A busy calendar entry as the calendar listing delivers it.
   * A timed entry carries UTC instants and the UTC offset its start was written
   * with; an all-day entry carries only dates, which Python parses into NAIVE
   * datetimes that cannot be compared with zone-aware ones.
   */
  datatype Busy =
    | Timed(start: int, end: int, offset: int)
    | AllDay(startDate: int, endDate: int)
  {
    /** `start_dt.date()`: the date of the entry's start, in the entry's own zone. */
    function StartDate(): int
    {
      match this
      case Timed(s, _, o) => LocalDate(s, o)
      case AllDay(d, _) => d
    }
  }

  /** A slot, as wall-clock minutes of the day in the grid zone; it covers [start, end). */
  datatype Slot = Slot(start: int, end: int)

  /** Python's `TypeError` on comparing an offset-naive with an offset-aware datetime. */
  datatype EngineError = NaiveAwareComparison

  /**
   * The zone of the slot grid: that of the FIRST entry of the whole fetched
   * list (whatever its date), IST when the list is empty, and no zone at all
   * (a naive grid) when that first entry is an all-day one.
   */
  function GridOffset(busy: seq<Busy>): Option<int>
  {
    if |busy| == 0 then Some(IstOffset)
    else match busy[0]
      case Timed(_, _, o) => Some(o)
      case AllDay(_, _) => None
  }

  /** Only the first entry picks the grid zone: whatever follows it is irrelevant. */
  lemma GridOffsetPrefix(a: seq<Busy>, b: seq<Busy>)
    requires |a| > 0
    ensures GridOffset(a + b) == GridOffset(a)
  {
    assert (a + b)[0] == a[0];
  }

  /** The entries whose start date is `day`, in their original order. */
  function DayBusy(busy: seq<Busy>, day: int): (r: seq<Busy>)
    ensures forall b :: b in r <==> b in busy && b.StartDate() == day
    ensures |r| <= |busy|
  {
    if |busy| == 0 then []
    else (if busy[0].StartDate() == day then [busy[0]] else []) + DayBusy(busy[1..], day)
  }

  lemma {:induction false} DayBusyAppend(a: seq<Busy>, b: seq<Busy>, day: int)
    ensures DayBusy(a + b, day) == DayBusy(a, day) + DayBusy(b, day)
  {
    if |a| > 0 {
      assert (a + b)[1..] == a[1..] + b;
      DayBusyAppend(a[1..], b, day);
    } else {
      assert a + b == b;
    }
  }

  /** The half-open overlap test of a timed entry with the instants [lo, hi). */
  predicate Overlaps(b: Busy, lo: int, hi: int)
  {
    b.Timed? && lo < b.end && hi > b.start
  }

  predicate AllTimed(bs: seq<Busy>)
  {
    forall j :: 0 <= j < |bs| ==> bs[j].Timed?
  }

  /** No entry overlaps the hour starting at instant `lo`. */
  predicate NoOverlap(bs: seq<Busy>, lo: int)
  {
    forall j :: 0 <= j < |bs| ==> !Overlaps(bs[j], lo, lo + SlotMinutes)
  }

  /** Every entry could be compared with the hour starting at `lo`, and none overlaps it. */
  predicate Clear(bs: seq<Busy>, lo: int)
  {
    AllTimed(bs) && NoOverlap(bs, lo)
  }

  /** Clearing a list means clearing its head and then its tail. */
  lemma ClearCons(bs: seq<Busy>, lo: int)
    requires |bs| > 0
    ensures Clear(bs, lo) <==> bs[0].Timed? && !Overlaps(bs[0], lo, lo + SlotMinutes) && Clear(bs[1..], lo)
  {
    if bs[0].Timed? && !Overlaps(bs[0], lo, lo + SlotMinutes) && Clear(bs[1..], lo) {
      forall j | 0 < j < |bs|
        ensures bs[j].Timed? && !Overlaps(bs[j], lo, lo + SlotMinutes)
      {
        assert bs[j] == bs[1..][j - 1];
      }
    }
  }

  /**
   * Past a head entry that is timed and does not overlap, the first
   * overlapping entry of the list is the first overlapping entry of the tail.
   */
  lemma ScanShift(bs: seq<Busy>, lo: int)
    requires |bs| > 0 && bs[0].Timed? && !Overlaps(bs[0], lo, lo + SlotMinutes)
    ensures Clear(bs, lo) <==> Clear(bs[1..], lo)
    ensures (exists j :: 0 <= j < |bs| && Overlaps(bs[j], lo, lo + SlotMinutes) && Clear(bs[..j], lo)) <==>
            (exists j :: 0 <= j < |bs[1..]| && Overlaps(bs[1..][j], lo, lo + SlotMinutes) && Clear(bs[1..][..j], lo))
  {
    ClearCons(bs, lo);
    var tail := bs[1..];
    if exists j :: 0 <= j < |bs| && Overlaps(bs[j], lo, lo + SlotMinutes) && Clear(bs[..j], lo) {
      var j :| 0 <= j < |bs| && Overlaps(bs[j], lo, lo + SlotMinutes) && Clear(bs[..j], lo);
      assert j > 0;
      assert bs[..j][1..] == tail[..j - 1];
      ClearCons(bs[..j], lo);
      assert 0 <= j - 1 < |tail| && Overlaps(tail[j - 1], lo, lo + SlotMinutes) && Clear(tail[..j - 1], lo);
    }
    if exists j :: 0 <= j < |tail| && Overlaps(tail[j], lo, lo + SlotMinutes) && Clear(tail[..j], lo) {
      var j :| 0 <= j < |tail| && Overlaps(tail[j], lo, lo + SlotMinutes) && Clear(tail[..j], lo);
      assert bs[..j + 1][1..] == tail[..j];
      ClearCons(bs[..j + 1], lo);
      assert 0 <= j + 1 < |bs| && Overlaps(bs[j + 1], lo, lo + SlotMinutes) && Clear(bs[..j + 1], lo);
    }
  }

  /**
   * The conflict scan over the day's entries for the hour starting at instant
   * `lo`: Ok(true) when the hour is free, Ok(false) at the first overlapping
   * entry, Err when an all-day entry is reached first.
   */
  function Scan(bs: seq<Busy>, lo: int): (r: Result<bool, EngineError>)
    ensures r == Ok(true) <==> Clear(bs, lo)
    ensures r == Ok(false) <==>
      exists j :: 0 <= j < |bs| && Overlaps(bs[j], lo, lo + SlotMinutes) && Clear(bs[..j], lo)
    ensures r.Err? ==> !AllTimed(bs)
  {
    if |bs| == 0 then Ok(true)
    else
      match bs[0]
      case AllDay(_, _) => Err(NaiveAwareComparison)
      case Timed(s, e, _) =>
        if lo < e && lo + SlotMinutes > s then
          assert Clear(bs[..0], lo);
          Ok(false)
        else
          var r := Scan(bs[1..], lo);
          ScanShift(bs, lo);
          r
  }

  /** Time of day `t` is a whole-hour step of window `w` whose hour fits inside `w`. */
  predicate OnGrid(w: Window, t: int)
  {
    w.start <= t && t + SlotMinutes <= w.end && (t - w.start) % SlotMinutes == 0
  }

  /** Time of day `t` is a grid step of one of the windows `ws`. */
  ghost predicate InWindows(ws: seq<Window>, t: int)
  {
    exists i :: 0 <= i < |ws| && OnGrid(ws[i], t)
  }

  /** Slots in strictly increasing time order, none overlapping the next. */
  predicate Ascending(ss: seq<Slot>)
  {
    forall i, j :: 0 <= i < j < |ss| ==> ss[i].end <= ss[j].start
  }

  /** The hour at time of day `t` (grid zone `o`, date `day`) is late enough and clear. */
  predicate Offered(day: int, o: int, t: int, bs: seq<Busy>, earliest: int)
  {
    WallToUtc(day, t, o) >= earliest && Clear(bs, WallToUtc(day, t, o))
  }

  /** The hour at `t` is late enough and no timed entry overlaps it. */
  predicate Open(day: int, o: int, t: int, bs: seq<Busy>, earliest: int)
  {
    WallToUtc(day, t, o) >= earliest && NoOverlap(bs, WallToUtc(day, t, o))
  }

  /** A grid step of windows that lie inside one day starts and ends inside that day. */
  lemma GridWithinDay(ws: seq<Window>, t: int)
    requires WithinDay(ws) && InWindows(ws, t)
    ensures 0 <= t && t + SlotMinutes <= MinutesPerDay
  {
    var i :| 0 <= i < |ws| && OnGrid(ws[i], t);
  }

  /** Two grid steps of the same window are at least an hour apart. */
  lemma GridStep(w: Window, t: int, u: int)
    requires w.start <= t < u
    requires (t - w.start) % SlotMinutes == 0 && (u - w.start) % SlotMinutes == 0
    ensures t + SlotMinutes <= u
  {
    var a, b := (t - w.start) / SlotMinutes, (u - w.start) / SlotMinutes;
    assert t - w.start == a * SlotMinutes;
    assert u - w.start == b * SlotMinutes;
    assert a < b;
  }

  /** Every slot of `ss` is a late-enough, clear grid step of `w` at or after `t`. */
  ghost predicate WalkSound(w: Window, t: int, day: int, o: int, bs: seq<Busy>, earliest: int, ss: seq<Slot>)
  {
    forall k :: 0 <= k < |ss| ==>
      && ss[k].end == ss[k].start + SlotMinutes
      && t <= ss[k].start
      && OnGrid(w, ss[k].start)
      && Offered(day, o, ss[k].start, bs, earliest)
  }

  /** Every open grid step of `w` at or after `t` is a slot of `ss`. */
  ghost predicate WalkComplete(w: Window, t: int, day: int, o: int, bs: seq<Busy>, earliest: int, ss: seq<Slot>)
  {
    forall u :: t <= u && OnGrid(w, u) && Open(day, o, u, bs, earliest) ==> Slot(u, u + SlotMinutes) in ss
  }

  /** Every slot of `ss` is a late-enough, clear grid step of one of the windows `ws`. */
  ghost predicate StepsSound(ws: seq<Window>, day: int, o: int, bs: seq<Busy>, earliest: int, ss: seq<Slot>)
  {
    forall k :: 0 <= k < |ss| ==>
      && ss[k].end == ss[k].start + SlotMinutes
      && InWindows(ws, ss[k].start)
      && Offered(day, o, ss[k].start, bs, earliest)
  }

  /** Every open grid step of the windows `ws` is a slot of `ss`. */
  ghost predicate StepsComplete(ws: seq<Window>, day: int, o: int, bs: seq<Busy>, earliest: int, ss: seq<Slot>)
  {
    forall i, u :: 0 <= i < |ws| && OnGrid(ws[i], u) && Open(day, o, u, bs, earliest) ==> Slot(u, u + SlotMinutes) in ss
  }

  /** The walk's result once the step at `t` is emitted in front of the later steps. */
  lemma EmitStep(w: Window, t: int, day: int, o: int, bs: seq<Busy>, earliest: int, rest: seq<Slot>)
    requires w.start <= t && t + SlotMinutes <= w.end && (t - w.start) % SlotMinutes == 0
    requires Offered(day, o, t, bs, earliest)
    requires WalkSound(w, t + SlotMinutes, day, o, bs, earliest, rest)
    requires WalkComplete(w, t + SlotMinutes, day, o, bs, earliest, rest)
    requires Ascending(rest)
    ensures WalkSound(w, t, day, o, bs, earliest, [Slot(t, t + SlotMinutes)] + rest)
    ensures WalkComplete(w, t, day, o, bs, earliest, [Slot(t, t + SlotMinutes)] + rest)
    ensures Ascending([Slot(t, t + SlotMinutes)] + rest)
  {
    var ss := [Slot(t, t + SlotMinutes)] + rest;
    assert forall k :: 0 < k < |ss| ==> ss[k] == rest[k - 1];
    forall u | t <= u && OnGrid(w, u) && Open(day, o, u, bs, earliest)
      ensures Slot(u, u + SlotMinutes) in ss
    {
      if u != t {
        GridStep(w, t, u);
      }
    }
  }

  /** The walk's result when the step at `t` is not open: the later steps alone. */
  lemma SkipStep(w: Window, t: int, day: int, o: int, bs: seq<Busy>, earliest: int, rest: seq<Slot>)
    requires w.start <= t && (t - w.start) % SlotMinutes == 0
    requires !Open(day, o, t, bs, earliest)
    requires WalkSound(w, t + SlotMinutes, day, o, bs, earliest, rest)
    requires WalkComplete(w, t + SlotMinutes, day, o, bs, earliest, rest)
    ensures WalkSound(w, t, day, o, bs, earliest, rest)
    ensures WalkComplete(w, t, day, o, bs, earliest, rest)
  {
    forall u | t <= u && OnGrid(w, u) && Open(day, o, u, bs, earliest)
      ensures Slot(u, u + SlotMinutes) in rest
    {
      if u != t {
        GridStep(w, t, u);
      }
    }
  }

  /**
   * The hour-by-hour walk through window `w` from time of day `t` (the inner
   * `while` loop): steps too close to `earliest` are skipped, steps hitting a
   * busy entry are dropped, the rest are emitted in order.
   */
  function Walk(w: Window, t: int, day: int, o: int, bs: seq<Busy>, earliest: int): (r: Result<seq<Slot>, EngineError>)
    requires w.start <= t && (t - w.start) % SlotMinutes == 0
    ensures r.Ok? ==> WalkSound(w, t, day, o, bs, earliest, r.value)
    ensures r.Ok? ==> WalkComplete(w, t, day, o, bs, earliest, r.value)
    ensures r.Ok? ==> Ascending(r.value)
    ensures AllTimed(bs) ==> r.Ok?
    decreases w.end - t
  {
    if t + SlotMinutes > w.end then Ok([])
    else
      var rest := Walk(w, t + SlotMinutes, day, o, bs, earliest);
      var lo := WallToUtc(day, t, o);
      if lo < earliest then
        (if rest.Ok? then SkipStep(w, t, day, o, bs, earliest, rest.value); rest else rest)
      else
        match Scan(bs, lo)
        case Err(e) => Err(e)
        case Ok(free) =>
          if !free then
            (if rest.Ok? then SkipStep(w, t, day, o, bs, earliest, rest.value); rest else rest)
          else
            match rest
            case Err(e) => Err(e)
            case Ok(ss) =>
              EmitStep(w, t, day, o, bs, earliest, ss);
              Ok([Slot(t, t + SlotMinutes)] + ss)
  }

  /** The result of the windows `ws` from the first window's walk and the walk of the others. */
  lemma JoinWindows(ws: seq<Window>, day: int, o: int, bs: seq<Busy>, earliest: int, first: seq<Slot>, later: seq<Slot>)
    requires |ws| > 0
    requires WalkSound(ws[0], ws[0].start, day, o, bs, earliest, first)
    requires WalkComplete(ws[0], ws[0].start, day, o, bs, earliest, first)
    requires Ascending(first)
    requires StepsSound(ws[1..], day, o, bs, earliest, later)
    requires StepsComplete(ws[1..], day, o, bs, earliest, later)
    requires Chronological(ws[1..]) ==> Ascending(later)
    ensures StepsSound(ws, day, o, bs, earliest, first + later)
    ensures StepsComplete(ws, day, o, bs, earliest, first + later)
    ensures Chronological(ws) ==> Ascending(first + later)
  {
    var r := first + later;
    forall k | 0 <= k < |r| ensures InWindows(ws, r[k].start) {
      if k < |first| {
        assert r[k] == first[k] && OnGrid(ws[0], r[k].start);
      } else {
        assert r[k] == later[k - |first|];
        var i :| 0 <= i < |ws[1..]| && OnGrid(ws[1..][i], r[k].start);
        assert OnGrid(ws[i + 1], r[k].start);
      }
    }
    assert forall k :: 0 <= k < |r| ==> r[k] == (if k < |first| then first[k] else later[k - |first|]);
    forall i, u | 0 <= i < |ws| && OnGrid(ws[i], u) && Open(day, o, u, bs, earliest)
      ensures Slot(u, u + SlotMinutes) in r
    {
      if i > 0 {
        assert OnGrid(ws[1..][i - 1], u);
      }
    }
    if Chronological(ws) {
      assert Chronological(ws[1..]);
      forall a, b | 0 <= a < b < |r| ensures r[a].end <= r[b].start {
        if b >= |first| && a < |first| {
          assert r[a] == first[a] && r[b] == later[b - |first|];
          var i :| 0 <= i < |ws[1..]| && OnGrid(ws[1..][i], r[b].start);
          assert ws[0].end <= ws[i + 1].start;
        }
      }
    }
  }

  /** The walk through the windows `ws` in their given order (the outer `for` loop). */
  function WalkWindows(ws: seq<Window>, day: int, o: int, bs: seq<Busy>, earliest: int): (r: Result<seq<Slot>, EngineError>)
    ensures r.Ok? ==> StepsSound(ws, day, o, bs, earliest, r.value)
    ensures r.Ok? ==> StepsComplete(ws, day, o, bs, earliest, r.value)
    ensures r.Ok? && Chronological(ws) ==> Ascending(r.value)
    ensures AllTimed(bs) ==> r.Ok?
    decreases |ws|
  {
    if |ws| == 0 then Ok([])
    else
      match Walk(ws[0], ws[0].start, day, o, bs, earliest)
      case Err(e) => Err(e)
      case Ok(first) =>
        match WalkWindows(ws[1..], day, o, bs, earliest)
        case Err(e) => Err(e)
        case Ok(later) =>
          JoinWindows(ws, day, o, bs, earliest, first, later);
          Ok(first + later)
  }

  /** The slot is a one-hour grid step of the working hours, late enough and clear of the day's entries. */
  ghost predicate Listed(day: int, busy: seq<Busy>, now: int, s: Slot)
  {
    && GridOffset(busy).Some?
    && s.end == s.start + SlotMinutes
    && InWindows(WorkHours, s.start)
    && Offered(day, GridOffset(busy).value, s.start, DayBusy(busy, day), now + LeadMinutes)
  }

  /** The hour at time of day `t` is late enough and overlaps no timed entry of the day. */
  ghost predicate Bookable(day: int, busy: seq<Busy>, now: int, t: int)
  {
    && GridOffset(busy).Some?
    && Open(day, GridOffset(busy).value, t, DayBusy(busy, day), now + LeadMinutes)
  }

  /** What the walk over the working hours establishes, restated slot by slot. */
  lemma SlotsListed(day: int, busy: seq<Busy>, now: int, ss: seq<Slot>)
    requires GridOffset(busy).Some?
    requires StepsSound(WorkHours, day, GridOffset(busy).value, DayBusy(busy, day), now + LeadMinutes, ss)
    ensures forall s :: s in ss ==> Listed(day, busy, now, s)
    ensures forall s :: s in ss ==> 0 <= s.start < s.end < MinutesPerDay
  {
    WorkHoursWellFormed();
    forall s | s in ss ensures Listed(day, busy, now, s) && 0 <= s.start < s.end < MinutesPerDay {
      var k :| 0 <= k < |ss| && ss[k] == s;
      GridWithinDay(WorkHours, s.start);
    }
  }

  /**
   * `get_free_slots(day, busy_events)` with the current instant `now` passed in:
   * the free one-hour slots of `day`, as wall-clock times in the grid zone.
   */
  function FreeSlots(day: int, busy: seq<Busy>, now: int): (r: Result<seq<Slot>, EngineError>)
    ensures GridOffset(busy).None? ==> r.Err?
    ensures GridOffset(busy).Some? && AllTimed(DayBusy(busy, day)) ==> r.Ok?
    ensures r.Ok? ==> forall s :: s in r.value ==> Listed(day, busy, now, s)
    ensures r.Ok? ==> forall s :: s in r.value ==> 0 <= s.start < s.end < MinutesPerDay
    ensures r.Ok? ==> forall i, t :: 0 <= i < |WorkHours| && OnGrid(WorkHours[i], t) && Bookable(day, busy, now, t) ==>
      Slot(t, t + SlotMinutes) in r.value
    ensures r.Ok? ==> Ascending(r.value)
  {
    match GridOffset(busy)
    case None => Err(NaiveAwareComparison)
    case Some(o) =>
      var r := WalkWindows(WorkHours, day, o, DayBusy(busy, day), now + LeadMinutes);
      if r.Ok? then SlotsListed(day, busy, now, r.value); r else r
  }
}
