/**
 * The day-map assembly of `get_available_slots`: today (the UTC date of "now")
 * and the seven following days, each kept only when it has a free slot.
 */
module Availability {
  import opened Wrappers
  import opened Clock
  import opened ClockText
  import opened SlotEngine

  /** Today plus seven more days. */
  const HorizonDays: int := 8

  /** `datetime.now(timezone.utc).date()`: the UTC date of instant `now`. */
  function UtcDate(now: int): (d: int)
    ensures d * MinutesPerDay <= now < d * MinutesPerDay + MinutesPerDay
  {
    now / MinutesPerDay
  }

  /** The "HH:MM-HH:MM" texts of a day's slots, in order. */
  function SlotTexts(ss: seq<Slot>): (texts: seq<string>)
    requires forall s :: s in ss ==> 0 <= s.start < s.end < MinutesPerDay
    ensures |texts| == |ss|
    ensures forall k :: 0 <= k < |ss| ==> texts[k] == FormatRange(ss[k].start, ss[k].end)
  {
    if |ss| == 0 then [] else [FormatRange(ss[0].start, ss[0].end)] + SlotTexts(ss[1..])
  }

  /** One day's entry of the map: the texts of its free slots, or the engine's error. */
  function DayEntry(day: int, busy: seq<Busy>, now: int): (r: Result<seq<string>, EngineError>)
    ensures r.Ok? <==> FreeSlots(day, busy, now).Ok?
    ensures r.Ok? ==> r.value == SlotTexts(FreeSlots(day, busy, now).value)
  {
    match FreeSlots(day, busy, now)
    case Err(e) => Err(e)
    case Ok(ss) => Ok(SlotTexts(ss))
  }

  /**
   * The sparse map built from the entries of the consecutive dates `first`,
   * `first + 1`, ...: a date is a key exactly when its list is non-empty; any
   * failing entry fails the whole map.
   */
  function Assemble<E>(first: int, entries: seq<Result<seq<string>, E>>): (r: Result<map<int, seq<string>>, E>)
    ensures r.Ok? <==> forall k :: 0 <= k < |entries| ==> entries[k].Ok?
    ensures r.Ok? ==> forall d :: d in r.value ==> first <= d < first + |entries|
    ensures r.Ok? ==> forall k :: 0 <= k < |entries| ==>
      && (first + k in r.value <==> |entries[k].value| > 0)
      && (first + k in r.value ==> r.value[first + k] == entries[k].value)
    decreases |entries|
  {
    if |entries| == 0 then Ok(map[])
    else
      match entries[0]
      case Err(e) => Err(e)
      case Ok(texts) =>
        match Assemble(first + 1, entries[1..])
        case Err(e) => Err(e)
        case Ok(m) =>
          assert forall k :: 0 < k < |entries| ==> entries[k] == entries[1..][k - 1];
          Ok(if |texts| > 0 then m[first := texts] else m)
  }

  /** The entries of the eight dates of the horizon, in date order (the `for i in range(8)` loop). */
  function Horizon(today: int, busy: seq<Busy>, now: int): (entries: seq<Result<seq<string>, EngineError>>)
    ensures |entries| == HorizonDays
    ensures forall k :: 0 <= k < HorizonDays ==> entries[k] == DayEntry(today + k, busy, now)
  {
    seq(HorizonDays, k => DayEntry(today + k, busy, now))
  }

  /**
   * The map `m` is the availability reply for the eight dates from `today`: a
   * date is a key exactly when its free-slot list is non-empty, and maps to
   * the texts of that list.
   */
  ghost predicate SparseDayMap(today: int, busy: seq<Busy>, now: int, m: map<int, seq<string>>)
  {
    && (forall d :: d in m ==> today <= d < today + HorizonDays)
    && forall d :: today <= d < today + HorizonDays ==>
      && FreeSlots(d, busy, now).Ok?
      && (d in m <==> |FreeSlots(d, busy, now).value| > 0)
      && (d in m ==> m[d] == SlotTexts(FreeSlots(d, busy, now).value))
  }

  /**
   * `get_available_slots` with the clock reading `now` and the fetched entries
   * `busy` passed in. An error stands for the 500 reply; it happens exactly
   * when the slots of some date of the horizon cannot be computed.
   */
  function AvailableSlots(now: int, busy: seq<Busy>): (r: Result<map<int, seq<string>>, EngineError>)
    ensures r.Ok? <==> forall d :: UtcDate(now) <= d < UtcDate(now) + HorizonDays ==> FreeSlots(d, busy, now).Ok?
    ensures r.Ok? ==> SparseDayMap(UtcDate(now), busy, now, r.value)
  {
    var r := Assemble(UtcDate(now), Horizon(UtcDate(now), busy, now));
    HorizonMap(UtcDate(now), busy, now, r);
    r
  }

  lemma HorizonMap(today: int, busy: seq<Busy>, now: int, r: Result<map<int, seq<string>>, EngineError>)
    requires r == Assemble(today, Horizon(today, busy, now))
    ensures r.Ok? <==> forall d :: today <= d < today + HorizonDays ==> FreeSlots(d, busy, now).Ok?
    ensures r.Ok? ==> SparseDayMap(today, busy, now, r.value)
  {
    var entries := Horizon(today, busy, now);
    if r.Ok? {
      forall d | today <= d < today + HorizonDays
        ensures FreeSlots(d, busy, now).Ok?
        ensures d in r.value <==> |FreeSlots(d, busy, now).value| > 0
        ensures d in r.value ==> r.value[d] == SlotTexts(FreeSlots(d, busy, now).value)
      {
        assert entries[d - today] == DayEntry(d, busy, now);
        assert today + (d - today) == d;
      }
    } else {
      var k :| 0 <= k < |entries| && entries[k].Err?;
      assert entries[k] == DayEntry(today + k, busy, now);
    }
  }

  /** When the first fetched entry is an all-day one, every availability request fails. */
  lemma AllDayFirstFailsRequest(now: int, busy: seq<Busy>)
    requires |busy| > 0 && busy[0].AllDay?
    ensures AvailableSlots(now, busy).Err?
  {
    assert FreeSlots(UtcDate(now), busy, now).Err?;
  }

  /** With only timed entries the request always succeeds. */
  lemma TimedEntriesNeverFail(now: int, busy: seq<Busy>)
    requires AllTimed(busy)
    ensures AvailableSlots(now, busy).Ok?
  {
    forall d | UtcDate(now) <= d < UtcDate(now) + HorizonDays ensures FreeSlots(d, busy, now).Ok? {
      var bs := DayBusy(busy, d);
      forall k | 0 <= k < |bs| ensures bs[k].Timed? {
        assert bs[k] in busy;
      }
    }
  }
}
