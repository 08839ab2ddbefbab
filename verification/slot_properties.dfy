/** Properties of the slot engine that relate several calls or concrete days. */
module SlotProperties {
  import opened Wrappers
  import opened Clock
  import opened SlotEngine

  /**
   * Entries starting on other dates do not change a day's slots, wherever they
   * sit in the list, as long as they do not become the first entry of the list
   * (which picks the grid zone).
   */
  lemma OtherDatesIgnored(day: int, a: seq<Busy>, extra: seq<Busy>, b: seq<Busy>, now: int)
    requires |a| > 0
    requires forall x :: x in extra ==> x.StartDate() != day
    ensures FreeSlots(day, a + extra + b, now) == FreeSlots(day, a + b, now)
  {
    GridOffsetPrefix(a, extra + b);
    GridOffsetPrefix(a, b);
    assert a + extra + b == a + (extra + b);
    DayBusyAppend(a, extra + b, day);
    DayBusyAppend(extra, b, day);
    DayBusyAppend(a, b, day);
    DayBusyOtherDates(extra, day);
    assert DayBusy(a + extra + b, day) == DayBusy(a + b, day);
  }

  lemma {:induction false} DayBusyOtherDates(bs: seq<Busy>, day: int)
    requires forall b :: b in bs ==> b.StartDate() != day
    ensures DayBusy(bs, day) == []
  {
    if |bs| > 0 {
      assert bs[0] in bs;
      DayBusyOtherDates(bs[1..], day);
    }
  }

  /** A bookable grid step is among the listed slots of a day that computes. */
  lemma OfferedStep(day: int, busy: seq<Busy>, now: int, i: int, t: int)
    requires FreeSlots(day, busy, now).Ok?
    requires 0 <= i < |WorkHours| && OnGrid(WorkHours[i], t) && Bookable(day, busy, now, t)
    ensures Slot(t, t + SlotMinutes) in FreeSlots(day, busy, now).value
  {
  }

  /**
   * The grid zone comes from the first fetched entry even when that entry is on
   * another date: with no entries the 07:00 slot (IST) is too soon, while one
   * UTC-written entry on the next day moves the grid to UTC and offers 07:00.
   */
  lemma FirstEntryPicksGridZone(day: int)
    ensures var now := day * MinutesPerDay + 80;
            var other := Timed((day + 1) * MinutesPerDay + 600, (day + 1) * MinutesPerDay + 660, 0);
            && FreeSlots(day, [], now).Ok?
            && Slot(420, 480) !in FreeSlots(day, [], now).value
            && FreeSlots(day, [other], now).Ok?
            && Slot(420, 480) in FreeSlots(day, [other], now).value
  {
    var now := day * MinutesPerDay + 80;
    var other := Timed((day + 1) * MinutesPerDay + 600, (day + 1) * MinutesPerDay + 660, 0);
    assert other.StartDate() == day + 1 by {
      LocalDateOfWall(day + 1, 600, 0);
    }
    assert DayBusy([other], day) == [];
    assert OnGrid(WorkHours[0], 420);
    assert Bookable(day, [other], now, 420);
  }

  /**
   * Half-open boundary: an entry that ends exactly when a listed slot starts,
   * starts exactly when it ends, or lies further away, leaves the slot listed.
   */
  lemma TouchingEntryKeepsSlot(day: int, busy: seq<Busy>, now: int, s: Slot, b: Busy)
    requires |busy| > 0
    requires FreeSlots(day, busy, now).Ok? && s in FreeSlots(day, busy, now).value
    requires b.Timed? && b.StartDate() == day
    requires var o := GridOffset(busy).value;
             b.end <= WallToUtc(day, s.start, o) || b.start >= WallToUtc(day, s.end, o)
    ensures FreeSlots(day, busy + [b], now).Ok?
    ensures s in FreeSlots(day, busy + [b], now).value
  {
    assert Listed(day, busy, now, s);
    var i :| 0 <= i < |WorkHours| && OnGrid(WorkHours[i], s.start);
    ListedAfterAppend(day, busy, now, s, b);
    OfferedStep(day, busy + [b], now, i, s.start);
  }

  lemma ListedAfterAppend(day: int, busy: seq<Busy>, now: int, s: Slot, b: Busy)
    requires |busy| > 0 && Listed(day, busy, now, s)
    requires b.Timed? && b.StartDate() == day
    requires var o := GridOffset(busy).value;
             b.end <= WallToUtc(day, s.start, o) || b.start >= WallToUtc(day, s.end, o)
    ensures AllTimed(DayBusy(busy + [b], day)) && GridOffset(busy + [b]).Some?
    ensures Bookable(day, busy + [b], now, s.start)
  {
    var o := GridOffset(busy).value;
    assert (busy + [b])[0] == busy[0];
    DayBusyAppend(busy, [b], day);
    var bs := DayBusy(busy, day);
    assert DayBusy([b], day) == [b];
    var lo := WallToUtc(day, s.start, o);
    assert forall j :: 0 <= j < |bs| ==> (bs + [b])[j] == bs[j];
    assert NoOverlap(bs + [b], lo);
  }

  /** An entry overlapping a slot by even one minute removes it. */
  lemma OverlappingEntryRemovesSlot(day: int, busy: seq<Busy>, now: int, s: Slot, b: Busy)
    requires |busy| > 0 && GridOffset(busy).Some?
    requires s.end == s.start + SlotMinutes
    requires b.Timed? && b.StartDate() == day
    requires var o := GridOffset(busy).value;
             b.start < WallToUtc(day, s.end, o) && b.end > WallToUtc(day, s.start, o)
    ensures FreeSlots(day, busy + [b], now).Ok? ==> s !in FreeSlots(day, busy + [b], now).value
  {
    assert (busy + [b])[0] == busy[0];
    DayBusyAppend(busy, [b], day);
  }

  /**
   * Working hours 07:00-13:00, an entry 09:00-10:00, now 05:00 (all IST, same
   * day): 07:00, 08:00, 10:00, 11:00 and 12:00 are offered, 09:00 is not.
   */
  lemma BusyHourExample(day: int, now: int, entry: Busy)
    requires now == WallToUtc(day, 5 * 60, IstOffset)
    requires entry == Timed(WallToUtc(day, 9 * 60, IstOffset), WallToUtc(day, 10 * 60, IstOffset), IstOffset)
    ensures FreeSlots(day, [entry], now).Ok?
    ensures var r := FreeSlots(day, [entry], now).value;
            && Slot(420, 480) in r && Slot(480, 540) in r
            && Slot(540, 600) !in r
            && Slot(600, 660) in r && Slot(660, 720) in r && Slot(720, 780) in r
  {
    LocalDateOfWall(day, 9 * 60, IstOffset);
    assert DayBusy([entry], day) == [entry];
    BusyHourExampleStep(day, now, entry, 420);
    BusyHourExampleStep(day, now, entry, 480);
    BusyHourExampleStep(day, now, entry, 600);
    BusyHourExampleStep(day, now, entry, 660);
    BusyHourExampleStep(day, now, entry, 720);
  }

  lemma BusyHourExampleStep(day: int, now: int, entry: Busy, t: int)
    requires now == WallToUtc(day, 5 * 60, IstOffset)
    requires entry == Timed(WallToUtc(day, 9 * 60, IstOffset), WallToUtc(day, 10 * 60, IstOffset), IstOffset)
    requires t == 420 || t == 480 || t == 600 || t == 660 || t == 720
    ensures FreeSlots(day, [entry], now).Ok? && Slot(t, t + SlotMinutes) in FreeSlots(day, [entry], now).value
  {
    LocalDateOfWall(day, 9 * 60, IstOffset);
    assert DayBusy([entry], day) == [entry];
    OfferedStep(day, [entry], now, 0, t);
  }

  /**
   * Now 06:30 IST with no entries (earliest start 08:30): 07:00 and 08:00 are
   * too soon, 09:00 is offered.
   */
  lemma LeadTimeExample(day: int, now: int)
    requires now == WallToUtc(day, 6 * 60 + 30, IstOffset)
    ensures FreeSlots(day, [], now).Ok?
    ensures var r := FreeSlots(day, [], now).value;
            Slot(420, 480) !in r && Slot(480, 540) !in r && Slot(540, 600) in r
  {
    OfferedStep(day, [], now, 0, 540);
  }
}
