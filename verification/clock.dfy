/**
 * Wall-clock arithmetic of the booking backend.
 *
 * Instants are whole minutes since the epoch in UTC; a calendar date is a day
 * number; a time of day is a number of minutes since local midnight; a time
 * zone is a fixed offset from UTC in minutes (every zone the backend meets is a
 * fixed-offset `datetime.timezone`).
 */
module Clock {

  const MinutesPerDay: int := 1440
  /** Every bookable slot is one hour long. */
  const SlotMinutes: int := 60
  /** A slot must start at least two hours after "now". */
  const LeadMinutes: int := 120
  /** India Standard Time, UTC+05:30: the scheduling zone of the backend. */
  const IstOffset: int := 330

  /** A daily working-hour window [start, end), in minutes of the local day. */
  datatype Window = Window(start: int, end: int)

  /** The fixed working hours: 07:00-13:00, 15:00-18:00 and 19:00-23:00. */
  const WorkHours: seq<Window> :=
    [Window(7 * 60, 13 * 60), Window(15 * 60, 18 * 60), Window(19 * 60, 23 * 60)]

  /** The UTC instant of wall-clock time `minute` on local date `day` in zone `offset`. */
  function WallToUtc(day: int, minute: int, offset: int): int
  {
    day * MinutesPerDay + minute - offset
  }

  /** The local calendar date of a UTC instant seen in zone `offset` (`datetime.date()`). */
  function LocalDate(utc: int, offset: int): int
  {
    (utc + offset) / MinutesPerDay
  }

  /** Every window is non-empty and lies inside one day. */
  ghost predicate WithinDay(ws: seq<Window>)
  {
    forall i :: 0 <= i < |ws| ==> 0 <= ws[i].start < ws[i].end <= MinutesPerDay
  }

  /** Windows are listed in time order and do not overlap. */
  ghost predicate Chronological(ws: seq<Window>)
  {
    forall i, j :: 0 <= i < j < |ws| ==> ws[i].end <= ws[j].start
  }

  lemma WorkHoursWellFormed()
    ensures WithinDay(WorkHours) && Chronological(WorkHours)
  {
  }

  /** Reading back the date of a wall-clock instant gives the date it was built from. */
  lemma LocalDateOfWall(day: int, minute: int, offset: int)
    requires 0 <= minute < MinutesPerDay
    ensures LocalDate(WallToUtc(day, minute, offset), offset) == day
  {
    assert WallToUtc(day, minute, offset) + offset == day * MinutesPerDay + minute;
  }
}
