/**
 * `MetricsController.GetMetrics`: the HTTP entry point that looks the course up, reads the
 * `range` and `anchorDate` query parameters and hands them to the metrics service.
 */
module MetricsController {
  import opened Common
  import opened Strings
  import opened DateRange
  import opened Models
  import opened Dtos
  import MetricsService
  import CourseService

  /** `MetricsRange.ToString()`: the enum member's name. */
  function RangeName(r: MetricsRange): string {
    match r
    case Day => "Day"
    case Week => "Week"
    case Month => "Month"
    case Year => "Year"
  }

  /** The `switch` on `range.ToLowerInvariant()`; anything unrecognised means a week. */
  function ParseRange(range: string): (r: MetricsRange)
    ensures r == Day <==> ToLower(range) == "day"
    ensures r == Month <==> ToLower(range) == "month"
    ensures r == Year <==> ToLower(range) == "year"
    ensures r == Week <==> ToLower(range) !in {"day", "month", "year"}
  {
    var key := ToLower(range);
    if key == "day" then Day
    else if key == "week" then Week
    else if key == "month" then Month
    else if key == "year" then Year
    else Week
  }

  /** The query strings the desktop client sends, `range.ToString().ToLowerInvariant()`, parse back. */
  lemma RangeNameRoundTrip(r: MetricsRange)
    ensures ParseRange(ToLower(RangeName(r))) == r
  {
    var key := LowerName(r);
    ToLowerIdempotent(RangeName(r));
    assert ToLower(key) == key;
  }

  /** The lower-case names the `switch` lists. */
  function LowerName(r: MetricsRange): (key: string)
    ensures key == ToLower(RangeName(r))
    ensures r == Day <==> key == "day"
    ensures r == Month <==> key == "month"
    ensures r == Year <==> key == "year"
  {
    match r
    case Day => assert ToLower("Day") == "day"; "day"
    case Week => assert ToLower("Week") == "week"; "week"
    case Month => assert ToLower("Month") == "month"; "month"
    case Year => assert ToLower("Year") == "year"; "year"
  }

  /** The comparison ignores case: a string and its lower-case form parse alike. */
  lemma ParseRangeIgnoresCase(range: string)
    ensures ParseRange(ToLower(range)) == ParseRange(range)
  {
    ToLowerIdempotent(range);
  }

  /** Two strings that agree up to case parse alike, so `"MONTH"` and `"Month"` both mean a month. */
  lemma ParseRangeCaseVariants(s1: string, s2: string)
    requires ToLower(s1) == ToLower(s2)
    ensures ParseRange(s1) == ParseRange(s2)
  {
    ParseRangeIgnoresCase(s1);
    ParseRangeIgnoresCase(s2);
  }

  /** Every casing of a range's name parses to that range. */
  lemma AnyCasingOfName(r: MetricsRange, s: string)
    requires ToLower(s) == ToLower(RangeName(r))
    ensures ParseRange(s) == r
  {
    ToLowerIdempotent(RangeName(r));
    RangeNameRoundTrip(r);
    ParseRangeCaseVariants(s, ToLower(RangeName(r)));
  }

  /**
   * The anchor day: today's UTC date when `anchorDate` is null or empty, otherwise what
   * `DateOnly.Parse` makes of it; `parseDate` is that parser, `None` where it throws.
   */
  function ResolveAnchor(anchorDate: Option<string>, now: int, parseDate: string -> Option<int>): (day: Option<int>)
    ensures anchorDate.None? || anchorDate == Some("") ==> day == Some(DayOf(now))
    ensures anchorDate.Some? && anchorDate.value != "" ==> day == parseDate(anchorDate.value)
  {
    match anchorDate
    case None => Some(DayOf(now))
    case Some(s) => if s == "" then Some(DayOf(now)) else parseDate(s)
  }

  /**
   * What the action answers: 404, 200 with the metrics, or the server error an exception from
   * `DateOnly.Parse` turns into.
   */
  datatype Response = NotFound | Ok(metrics: MetricsResponseDto) | ServerError

  /**
   * `GetMetrics(courseId, range = "week", anchorDate = null)`. The course comes from
   * `GetByIdAsync` over the course and run tables; `now` is `DateTime.UtcNow`.
   */
  function GetMetrics(courses: map<Guid, Course>, runs: seq<SyncRun>, table: MetricsTable,
                      courseId: Guid, range: Option<string>, anchorDate: Option<string>,
                      now: int, parseDate: string -> Option<int>): (resp: Response)
    ensures resp.NotFound? <==> courseId !in courses
  {
    CourseService.GetByIdCorrect(courses, runs, courseId);
    if CourseService.GetById(courses, runs, courseId).None? then NotFound
    else
      var metricsRange := ParseRange(range.GetOr("week"));
      match ResolveAnchor(anchorDate, now, parseDate)
      case None => ServerError
      case Some(anchor) => Response.Ok(MetricsService.GetMetrics(table, courseId, metricsRange, anchor))
  }

  /**
   * A stored course with a usable anchor gets the service's metrics for the parsed range, which
   * summarise the `DurationDays` days ending on the anchor day against the days just before;
   * an unparsable anchor of a stored course is a server error.
   */
  lemma GetMetricsAnswers(courses: map<Guid, Course>, runs: seq<SyncRun>, table: MetricsTable,
                          courseId: Guid, range: Option<string>, anchorDate: Option<string>,
                          now: int, parseDate: string -> Option<int>)
    requires courseId in courses
    ensures var anchor := ResolveAnchor(anchorDate, now, parseDate);
            var resp := GetMetrics(courses, runs, table, courseId, range, anchorDate, now, parseDate);
            && (anchor.None? <==> resp.ServerError?)
            && (anchor.Some? ==> resp == Response.Ok(MetricsService.GetMetrics(table, courseId, ParseRange(range.GetOr("week")), anchor.value)))
  {
    CourseService.GetByIdCorrect(courses, runs, courseId);
  }

  /** With neither parameter the action reports on the week ending on today's UTC date. */
  lemma DefaultsAreThisWeek(courses: map<Guid, Course>, runs: seq<SyncRun>, table: MetricsTable,
                            courseId: Guid, range: Option<string>, now: int, parseDate: string -> Option<int>)
    requires courseId in courses
    requires range.None? || ToLower(range.value) !in {"day", "month", "year"}
    ensures GetMetrics(courses, runs, table, courseId, range, None, now, parseDate)
            == Response.Ok(MetricsService.GetMetrics(table, courseId, Week, DayOf(now)))
  {
    assert ParseRange("week") == Week by { assert ToLower("week") == "week"; }
    GetMetricsAnswers(courses, runs, table, courseId, range, None, now, parseDate);
  }
}
