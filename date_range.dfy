/**
 * Calendar arithmetic of the shared library: `MetricsRange` and `DateRangeHelper`.
 *
 * A `DateTime` is its tick count (100 ns units since 0001-01-01), a `DateOnly` its day
 * number (whole days since 0001-01-01), so `DateOnly.FromDateTime(t)` is `DayOf(t)` and
 * `d.ToDateTime(TimeOnly.MinValue)` is `DayStart(d)`.
 */
module DateRange {

  const TicksPerSecond: int := 10_000_000
  const TicksPerMinute: int := 60 * TicksPerSecond
  const TicksPerDay: int := 864_000_000_000

  /** `DateOnly.FromDateTime`: the day a tick count falls on. */
  function DayOf(t: int): int {
    t / TicksPerDay
  }

  /** `DateOnly.ToDateTime(TimeOnly.MinValue)`: the first tick of a day. */
  function DayStart(d: int): (t: int)
    ensures DayOf(t) == d && t % TicksPerDay == 0
  {
    d * TicksPerDay
  }

  /** `DateTime.Date`: midnight of the same day. */
  function DatePart(t: int): (m: int)
    ensures m <= t < m + TicksPerDay && m % TicksPerDay == 0
  {
    DayStart(DayOf(t))
  }

  datatype MetricsRange = Day | Week | Month | Year

  /** How many days before the anchor day the current window starts. */
  function DaysBack(r: MetricsRange): int {
    match r
    case Day => 0
    case Week => 6
    case Month => 29
    case Year => 364
  }

  /** The `TimeSpan` the previous window is shifted back by, in days. */
  function DurationDays(r: MetricsRange): int {
    match r
    case Day => 1
    case Week => 7
    case Month => 30
    case Year => 365
  }

  /** A closed interval of ticks, `(Start, End)`. */
  datatype Window = Window(start: int, end: int)

  /**
   * `DateRangeHelper.GetRange`: from midnight `DaysBack` days before the anchor's day to the
   * last tick of the anchor's day.
   */
  function GetRange(r: MetricsRange, anchor: int): (w: Window)
    ensures w.start % TicksPerDay == 0 && (w.end + 1) % TicksPerDay == 0
    ensures w.start <= anchor <= w.end
    ensures DayOf(w.end) == DayOf(anchor)
    ensures w.end + 1 - w.start == DurationDays(r) * TicksPerDay
  {
    var end := DatePart(anchor) + TicksPerDay - 1;
    var start := DatePart(anchor) - DaysBack(r) * TicksPerDay;
    Window(start, end)
  }

  /**
   * `DateRangeHelper.GetPreviousRange`: the window of the same length that ends one tick
   * before the current one starts.
   */
  function GetPreviousRange(r: MetricsRange, anchor: int): (p: Window)
    ensures p.end + 1 == GetRange(r, anchor).start
    ensures p.start % TicksPerDay == 0
    ensures p.end + 1 - p.start == DurationDays(r) * TicksPerDay
  {
    var currentStart := GetRange(r, anchor).start;
    Window(currentStart - DurationDays(r) * TicksPerDay, currentStart - 1)
  }

  /** Only the anchor's date matters, not its time of day. */
  lemma RangesIgnoreTimeOfDay(r: MetricsRange, a1: int, a2: int)
    requires DayOf(a1) == DayOf(a2)
    ensures GetRange(r, a1) == GetRange(r, a2)
    ensures GetPreviousRange(r, a1) == GetPreviousRange(r, a2)
  {
  }

  /** The previous window has the current one's length, lies before it and touches it. */
  lemma WindowsContiguous(r: MetricsRange, anchor: int)
    ensures var cur := GetRange(r, anchor);
            var prev := GetPreviousRange(r, anchor);
            && prev.start <= prev.end < cur.start <= cur.end
            && prev.end + 1 == cur.start
            && cur.end - cur.start == prev.end - prev.start
  {
  }

  /**
   * The windows as `DateOnly` bounds: the current window covers the `DurationDays` days
   * ending on the anchor day; the previous one the same number of days just before.
   */
  lemma WindowDays(r: MetricsRange, anchor: int)
    ensures DayOf(GetRange(r, anchor).end) == DayOf(anchor)
    ensures DayOf(GetRange(r, anchor).start) == DayOf(anchor) - DurationDays(r) + 1
    ensures DayOf(GetPreviousRange(r, anchor).end) == DayOf(anchor) - DurationDays(r)
    ensures DayOf(GetPreviousRange(r, anchor).start) == DayOf(anchor) - 2 * DurationDays(r) + 1
  {
    var a := DayOf(anchor);
    var n := DurationDays(r);
    assert GetRange(r, anchor).start == DayStart(a - n + 1);
    assert GetPreviousRange(r, anchor).start == DayStart(a - 2 * n + 1);
    assert GetPreviousRange(r, anchor).end == DayStart(a - n + 1) - 1;
    assert DayOf(DayStart(a - n + 1) - 1) == a - n;
  }

  /** A week anchored on 2024-03-10 (day 738954) is 2024-03-04..2024-03-10; before it, 2024-02-26..2024-03-03. */
  lemma WeekOfTenthOfMarch2024()
    ensures DayOf(GetRange(Week, DayStart(738954)).start) == 738948
    ensures DayOf(GetRange(Week, DayStart(738954)).end) == 738954
    ensures DayOf(GetPreviousRange(Week, DayStart(738954)).start) == 738941
    ensures DayOf(GetPreviousRange(Week, DayStart(738954)).end) == 738947
  {
    WindowDays(Week, DayStart(738954));
  }
}
