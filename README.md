# StatStep analytics backend, modelled in Dafny

This project models the core of the StatStep backend, which tracks Stepik courses.

- **Metrics collector.** It pulls a course's submissions, reviews and statistics from the Stepik API. It folds them into one `MetricsDaily` row per day, updating stored rows and inserting missing ones. It records each sync as a `SyncRun` that goes from "running" to "ok" or "failed".
- **Metrics service.** It answers dashboard queries: the summary of a date window against the window just before it, and six chart series.
- **Date ranges.** `DateRangeHelper` computes those windows for a day, week, month or year.
- **Stepik API client.** It pages through API results, caches the OAuth token, walks a course's sections, units and lessons to find its steps, and gathers submissions and reviews newer than a given instant.
- **Course service.** It parses a course id or URL, adds and deletes courses, lists sync runs and maps courses to DTOs.
- **Metrics controller.** It turns the `range` and `anchorDate` query strings into a call to the metrics service.

## Representation

- A `DateTime` is its tick count (100 ns units since 0001-01-01) and a `DateOnly` is its day number. So `DateOnly.FromDateTime` is division by ticks-per-day.
- A `Guid` is an `int`. Ratings and averages are `real`.
- The database (`AppDbContext`) is the class `Models.AppDb`, which has three tables:
  - courses, as a map keyed by id;
  - sync runs, as a sequence in insertion order;
  - daily metrics, as a map keyed by the primary key `(CourseId, Date)`.
- `AppDb.Valid()` is the consistency the schema enforces:
  - rows sit under their own keys;
  - `StepikCourseId` is unique;
  - run ids are distinct;
  - every run and metrics row belongs to a stored course.
- A ghost `commits` log records each `SaveChangesAsync`.
- The imperative parts of the source are methods proved against specification functions:
  - the collector's day loop and sync-run updates;
  - the paging loop;
  - the token cache;
  - the nested structure walk;
  - the submission loop;
  - adding and deleting courses.
- The pure parts are functions and lemmas: the service, the date ranges, `ParseCourseId`, `MapToDto`, the sync-run listing and the controller.
- Calls the core makes but does not own become inputs (a parameter such as `clock`, `fetched` or `pages`):
  - HTTP responses, as a sequence of pages, or a course tree of lookup functions;
  - the clock;
  - `Guid.NewGuid`;
  - `Uri.TryCreate`;
  - `DateOnly.Parse`.

## Model

| member | source | states |
|---|---|---|
| MetricsCollector.SubmissionsOnExactly | src/StepikAnalytics.Backend/Services/MetricsCollector.cs:69-71 | a day's bucket holds exactly the submissions whose `Time` falls on that day |
| MetricsCollector.ReviewsOnExactly | src/StepikAnalytics.Backend/Services/MetricsCollector.cs:73-75 | a day's bucket holds exactly the reviews whose `CreateDate` falls on that day |
| MetricsCollector.SubmissionsOnAppend | src/StepikAnalytics.Backend/Services/MetricsCollector.cs:69-71 | bucketing a concatenation is concatenating the buckets |
| MetricsCollector.Aggregate | src/StepikAnalytics.Backend/Services/MetricsCollector.cs:96-102 | correct + wrong ≤ total; 0 ≤ DAU ≤ total; DAU is 0 iff total is 0; the review count is the size of the day's bucket, and the average is 0 when it is empty |
| MetricsCollector.StatusesPartition | src/StepikAnalytics.Backend/Services/MetricsCollector.cs:96-98 | "correct", "wrong" and the other statuses add up to the day's total |
| MetricsCollector.DistinctUsersBound | src/StepikAnalytics.Backend/Services/MetricsCollector.cs:102 | there are at most as many distinct users as submissions, and none exactly when there are no submissions |
| MetricsCollector.ScoreSumBounds | src/StepikAnalytics.Backend/Services/MetricsCollector.cs:99 | the score sum lies between n·lo and n·hi |
| MetricsCollector.MeanScoreBounds | src/StepikAnalytics.Backend/Services/MetricsCollector.cs:99 | the mean review score lies between the lowest and the highest score |
| MetricsCollector.OtherDaysIgnored | src/StepikAnalytics.Backend/Services/MetricsCollector.cs:91-94 | records dated outside the period do not change any day inside it |
| MetricsCollector.SubmissionsInPeriod | src/StepikAnalytics.Backend/Services/MetricsCollector.cs:91-93 | restricting submissions to the period leaves each in-period day's bucket as it was |
| MetricsCollector.ReviewsOnInPeriod | src/StepikAnalytics.Backend/Services/MetricsCollector.cs:91-94 | restricting reviews to the period leaves each in-period day's bucket as it was |
| MetricsCollector.PrevAtShift | src/StepikAnalytics.Backend/Services/MetricsCollector.cs:141 | the carried `prevMetrics` composes over consecutive stretches of the loop |
| MetricsCollector.UpsertDaysFrame | src/StepikAnalytics.Backend/Services/MetricsCollector.cs:91-139 | the loop adds exactly the course's keys of the period and leaves every other row unchanged |
| MetricsCollector.UpsertDaysRows | src/StepikAnalytics.Backend/Services/MetricsCollector.cs:91-141 | each day of the period ends up holding the row the loop writes for it |
| MetricsCollector.LatestDate | src/StepikAnalytics.Backend/Services/MetricsCollector.cs:147-150 | the greatest stored date of the course (below the bound, if any), or none if there is none |
| MetricsCollector.QueryLatestDate | src/StepikAnalytics.Backend/Services/MetricsCollector.cs:154-158 | the ordered query's scan returns `LatestDate` |
| MetricsCollector.Upserted | src/StepikAnalytics.Backend/Services/MetricsCollector.cs:78-142 | after the loop the keys are the old ones plus every day of the period; rows outside the period are unchanged; each period day holds its row |
| MetricsCollector.SyncedMetrics | src/StepikAnalytics.Backend/Services/MetricsCollector.cs:78-165 | after a sync every date of `[startDate, endDate]` has a row, and no other key is added |
| MetricsCollector.SyncedMetricsKeyed | src/StepikAnalytics.Backend/Services/MetricsCollector.cs:124-138 | every row still sits under its own `(CourseId, Date)` key, so each day has exactly one row |
| MetricsCollector.SyncedMetricsValid | src/StepikAnalytics.Backend/Services/MetricsCollector.cs:124-138 | a sync of a stored course keeps the tables consistent |
| MetricsCollector.PeriodRowsCounted | src/StepikAnalytics.Backend/Services/MetricsCollector.cs:104-133 | each day of the period holds that day's total, correct, wrong, review count, review average and DAU, updated or inserted |
| MetricsCollector.InsertedRowsFresh | src/StepikAnalytics.Backend/Services/MetricsCollector.cs:124-137 | an inserted row has 0 new learners, 0 certificates, the course score (or 0) as rating and a 0 rating delta |
| MetricsCollector.CarriedRating | src/StepikAnalytics.Backend/Services/MetricsCollector.cs:141 | past the first day, the carried `prevMetrics` is null or holds the new score |
| MetricsCollector.RatingDeltaOnFirstDay | src/StepikAnalytics.Backend/Services/MetricsCollector.cs:85-118 | an updated first day's delta is the score minus the stored rating of the day before, or 0 without that row |
| MetricsCollector.RatingDeltaAfterFirstDay | src/StepikAnalytics.Backend/Services/MetricsCollector.cs:114-118 | with statistics present, every updated day after the first gets a 0 rating delta |
| MetricsCollector.LearnersOnLatestRow | src/StepikAnalytics.Backend/Services/MetricsCollector.cs:145-164 | the latest stored row gets max(0, LearnersCount − prevTotal) new learners (never negative) and CertificatesCount or 0 |
| MetricsCollector.OtherRowsUnchanged | src/StepikAnalytics.Backend/Services/MetricsCollector.cs:91-164 | rows outside the period, and rows of other courses, are unchanged, except the latest row's learner fields |
| MetricsCollector.ResyncSameCounts | src/StepikAnalytics.Backend/Services/MetricsCollector.cs:104-139 | syncing the same data twice gives the same keys, and every day has the same counts |
| MetricsCollector.UpsertPeriod | src/StepikAnalytics.Backend/Services/MetricsCollector.cs:91-142 | the `for` loop leaves the metrics table equal to `Upserted` |
| MetricsCollector.RecordLearners | src/StepikAnalytics.Backend/Services/MetricsCollector.cs:145-165 | the learner estimate queries the last-saved table and updates the tracked row it finds |
| MetricsCollector.AggregateMetrics | src/StepikAnalytics.Backend/Services/MetricsCollector.cs:78-165 | the metrics table ends equal to `SyncedMetrics` |
| MetricsCollector.CompleteSync | src/StepikAnalytics.Backend/Services/MetricsCollector.cs:53-174 | the run ends "ok" with FinishedAt and item count \|submissions\| + \|reviews\|; the course gets new info and LastSyncedAt; one save |
| MetricsCollector.StartRun | src/StepikAnalytics.Backend/Services/MetricsCollector.cs:36-43 | a "running" run with the start time is appended and saved, and the tables stay consistent |
| MetricsCollector.FailRun | src/StepikAnalytics.Backend/Services/MetricsCollector.cs:176-182 | the run becomes "failed" with the exception message and FinishedAt; nothing else changes; one save |
| MetricsCollector.FinishRun | src/StepikAnalytics.Backend/Services/MetricsCollector.cs:45-183 | the started run ends "ok" or "failed"; on failure the course and metrics are unchanged and the error is rethrown; on success both are synced; one more save |
| MetricsCollector.SyncCourse | src/StepikAnalytics.Backend/Services/MetricsCollector.cs:36-183 | for a stored course: two saves, the first with the "running" run and the old tables, the second with the finished run and the synced (or unchanged) tables |
| MetricsCollector.CollectAndAggregate | src/StepikAnalytics.Backend/Services/MetricsCollector.cs:29-184 | unknown course: nothing changes and no run is made. Otherwise a "running" run is saved before any fetch; a failed fetch ends it "failed" with the message and is rethrown; success ends it "ok" with the synced tables. Tables stay consistent |
| Models.AppendRunValid | src/StepikAnalytics.Backend/Services/MetricsCollector.cs:36-43 | appending a fresh run of a stored course keeps the tables consistent |
| Models.UpdateCourseValid | src/StepikAnalytics.Backend/Services/MetricsCollector.cs:167-168 | rewriting a course's fields, keys kept, keeps the tables consistent |
| Models.UpdateRunValid | src/StepikAnalytics.Backend/Services/MetricsCollector.cs:170-181 | rewriting a run, keys kept, keeps the tables consistent |
| Models.AppDb.SaveChanges | src/StepikAnalytics.Backend/Services/MetricsCollector.cs:43 | the tracked state is appended to the commit log |
| MetricsService.WindowRows | src/StepikAnalytics.Backend/Services/MetricsService.cs:34-37 | a window of n days has at most n rows |
| MetricsService.WindowRowsSelectWindow | src/StepikAnalytics.Backend/Services/MetricsService.cs:34-42 | the rows are exactly the course's stored rows dated in the window, inclusive, in strictly ascending date order |
| MetricsService.SumAppend | src/StepikAnalytics.Backend/Services/MetricsService.cs:58-65 | column sums add over concatenation |
| MetricsService.SumBounds | src/StepikAnalytics.Backend/Services/MetricsService.cs:58-65 | a column sum lies between n·lo and n·hi |
| MetricsService.TruncateTowardZero | src/StepikAnalytics.Backend/Services/MetricsService.cs:67 | the `(int)` cast drops the fraction toward zero |
| MetricsService.AverageDauBounds | src/StepikAnalytics.Backend/Services/MetricsService.cs:67-68 | the average DAU is between 0 and the largest DAU, and 0 for an empty window |
| MetricsService.ReviewedRows | src/StepikAnalytics.Backend/Services/MetricsService.cs:71 | keeps exactly the rows with reviews |
| MetricsService.ReviewedRowsAppend | src/StepikAnalytics.Backend/Services/MetricsService.cs:71 | the filter keeps the rows' order: filtering a concatenation concatenates the filtered parts |
| MetricsService.SumReviewsAvgBounds | src/StepikAnalytics.Backend/Services/MetricsService.cs:71 | the sum of review averages lies between lo and hi, each added up n times |
| MetricsService.ReviewsAverageBounds | src/StepikAnalytics.Backend/Services/MetricsService.cs:71 | the reviews average is 0 when no row has reviews, otherwise it lies between the reviewed rows' lowest and highest averages |
| MetricsService.ChangePercentSign | src/StepikAnalytics.Backend/Services/MetricsService.cs:80 | with a positive base, the percentage is positive iff the value grew and 0 iff it stayed; it is −100 for 0 and at least −100 for a non-negative value |
| MetricsService.ConsistentSums | src/StepikAnalytics.Backend/Services/MetricsService.cs:58-60 | summed correct + wrong ≤ summed total when every row is consistent |
| MetricsService.SummaryCountsBounded | src/StepikAnalytics.Backend/Services/MetricsService.cs:58-77 | the summary has correct + wrong ≤ total and a success rate within 0..100 (0 when the total is 0) |
| MetricsService.ZeroBaselines | src/StepikAnalytics.Backend/Services/MetricsService.cs:77-92 | with no submissions the success rate is 0; with no previous new learners, or a previous average DAU of 0, the change percentage is 0 |
| MetricsService.SummaryCountsAdd | src/StepikAnalytics.Backend/Services/MetricsService.cs:58-65 | the summed counts of two stretches of days add up |
| MetricsService.CountChangesAgainstPrevious | src/StepikAnalytics.Backend/Services/MetricsService.cs:79-86 | each count change is the current sum minus the previous window's; the learner percentage uses the previous sum as base |
| MetricsService.DauAgainstPrevious | src/StepikAnalytics.Backend/Services/MetricsService.cs:90-92 | the DAU change and percentage are against the previous window's average DAU |
| MetricsService.RatingAgainstPrevious | src/StepikAnalytics.Backend/Services/MetricsService.cs:69-88 | the rating delta is against the previous window's last rating, and 0 when it has no rows |
| MetricsService.EmptyBaseline | src/StepikAnalytics.Backend/Services/MetricsService.cs:45 | against an empty previous list, each change is the value itself, each percentage is 0 and the rating delta is 0 |
| MetricsService.Points | src/StepikAnalytics.Backend/Services/MetricsService.cs:100-111 | one point per row, in row order, at the row's midnight |
| MetricsService.BuildSeries | src/StepikAnalytics.Backend/Services/MetricsService.cs:96-113 | six series in the source's order with their own names and colours; each has exactly one point per row, the i-th at the midnight of row i with that row's value |
| MetricsService.SeriesDistinct | src/StepikAnalytics.Backend/Services/MetricsService.cs:100-111 | the six series have distinct names and colours |
| MetricsService.PointsAscending | src/StepikAnalytics.Backend/Services/MetricsService.cs:100-111 | ascending rows give ascending points, each at its row's midnight |
| MetricsService.SeriesPointsInWindow | src/StepikAnalytics.Backend/Services/MetricsService.cs:34-111 | each series has at most one point per day of the window, dated in the window and ascending |
| MetricsService.GetMetricsWindows | src/StepikAnalytics.Backend/Services/MetricsService.cs:24-54 | the response summarises the n days ending on the anchor against the n days before; the comparison holds that summary and the previous window's own |
| DateRange.DayStart | src/StepikAnalytics.Shared/Common/DateRange.cs:18 | the midnight of a day falls on that day |
| DateRange.DatePart | src/StepikAnalytics.Shared/Common/DateRange.cs:15 | `.Date` is the midnight at or before the instant, less than a day before it |
| DateRange.GetRange | src/StepikAnalytics.Shared/Common/DateRange.cs:13-25 | starts at a midnight and ends on the last tick of the anchor's day; contains the anchor; spans 1, 7, 30 or 365 days |
| DateRange.GetPreviousRange | src/StepikAnalytics.Shared/Common/DateRange.cs:27-41 | ends one tick before the current start and has the same length |
| DateRange.RangesIgnoreTimeOfDay | src/StepikAnalytics.Shared/Common/DateRange.cs:15-29 | both windows depend only on the anchor's date |
| DateRange.WindowsContiguous | src/StepikAnalytics.Shared/Common/DateRange.cs:29-40 | the previous window lies before the current one, touches it and has the same length |
| DateRange.WindowDays | src/StepikAnalytics.Shared/Common/DateRange.cs:13-40 | as days, the current window is the n days ending on the anchor and the previous window is the n days before |
| DateRange.WeekOfTenthOfMarch2024 | src/StepikAnalytics.Shared/Common/DateRange.cs:16-23 | a week anchored on 2024-03-10 is 03-04..03-10, and the week before is 02-26..03-03 |
| StepikApiClient.TokenCache.EnsureToken | src/StepikAnalytics.Backend/Stepik/StepikApiClient.cs:44-81 | a cached token is reused iff present and now < expiry − 5 min; a failed refresh changes nothing; a refresh stores the token and an expiry of expires_in seconds after the clock reading taken once the answer arrived |
| StepikApiClient.FreshTokenValidIff | src/StepikAnalytics.Backend/Stepik/StepikApiClient.cs:46-73 | a just-refreshed token counts as valid iff it lives more than 300 s |
| StepikApiClient.PageUrl | src/StepikAnalytics.Backend/Stepik/StepikApiClient.cs:108-109 | URL = endpoint + separator + "page=" + n, where the separator is '&' iff the endpoint contains '?' |
| StepikApiClient.PageUrlRoundTrip | src/StepikAnalytics.Backend/Stepik/StepikApiClient.cs:109 | the page number can be read back from the URL |
| StepikApiClient.PageUrlInjective | src/StepikAnalytics.Backend/Stepik/StepikApiClient.cs:109 | distinct pages get distinct URLs |
| StepikApiClient.PageUrls | src/StepikAnalytics.Backend/Stepik/StepikApiClient.cs:104-128 | the i-th request is for page i + 1 |
| StepikApiClient.GetPaginated | src/StepikAnalytics.Backend/Stepik/StepikApiClient.cs:101-133 | the loop returns `Collected` and requests pages 1, 2, … consecutively |
| StepikApiClient.RequestsBounded | src/StepikAnalytics.Backend/Stepik/StepikApiClient.cs:104-106 | at most `maxPages` pages are requested, and at least one when `maxPages` ≥ 1 |
| StepikApiClient.CollectedFromPages | src/StepikAnalytics.Backend/Stepik/StepikApiClient.cs:116-121 | every collected item passed the extractor's filter and comes from a successful page within `maxPages` |
| StepikApiClient.CollectedThrough | src/StepikAnalytics.Backend/Stepik/StepikApiClient.cs:120-128 | while pages succeed and have a next page, the result is their filtered items in page order, followed by what comes after |
| StepikApiClient.StopsAfter | src/StepikAnalytics.Backend/Stepik/StepikApiClient.cs:116-126 | a failing page stops the loop and keeps what was collected; a page without a next page is the last one whose items are kept |
| StepikApiClient.GetCourseSteps | src/StepikAnalytics.Backend/Stepik/StepikApiClient.cs:189-242 | the nested loops return `CourseSteps`, the steps in traversal order |
| StepikApiClient.UnitsLoop | src/StepikAnalytics.Backend/Stepik/StepikApiClient.cs:216-233 | the inner loop returns `UnitsSteps`, the units' steps in order |
| StepikApiClient.UnitsStepsOrigin | src/StepikAnalytics.Backend/Stepik/StepikApiClient.cs:216-233 | every step of a unit list comes from one of its units |
| StepikApiClient.SectionsStepsOrigin | src/StepikAnalytics.Backend/Stepik/StepikApiClient.cs:204-238 | every step of a section list comes from one of its sections |
| StepikApiClient.CourseStepsOrigin | src/StepikAnalytics.Backend/Stepik/StepikApiClient.cs:204-233 | every step comes from one of the first 10 sections, one of its first 10 units, and a lesson id > 0 |
| StepikApiClient.UnitsStepsAsWritten | src/StepikAnalytics.Backend/Stepik/StepikApiClient.cs:216-237 | when the as-written unit loop succeeds, it agrees with the corrected one |
| StepikApiClient.SectionsStepsAsWritten | src/StepikAnalytics.Backend/Stepik/StepikApiClient.cs:204-239 | when the as-written section loop succeeds, it agrees with the corrected one |
| StepikApiClient.CourseStepsAsWritten | src/StepikAnalytics.Backend/Stepik/StepikApiClient.cs:189-242 | when the as-written walk succeeds, it agrees with the corrected walk |
| StepikApiClient.UnavailableLessonAbortsWalk | src/StepikAnalytics.Backend/Stepik/StepikApiClient.cs:227-228 | one unavailable lesson makes the as-written walk fail, while the corrected walk returns the other lesson's steps |
| StepikApiClient.TwoUnitWalk | src/StepikAnalytics.Backend/Stepik/StepikApiClient.cs:216-233 | any tree shaped like the example: the as-written walk fails, the corrected walk yields steps 40 and 41 |
| StepikApiClient.MinTime | src/StepikAnalytics.Backend/Stepik/StepikApiClient.cs:182 | `Min(s => s.Time)` is attained and is a lower bound |
| StepikApiClient.EarlyExitNeverFires | src/StepikAnalytics.Backend/Stepik/StepikApiClient.cs:177-183 | every kept submission is at or after `since`, so the `break` condition is false |
| StepikApiClient.GetSubmissions | src/StepikAnalytics.Backend/Stepik/StepikApiClient.cs:156-187 | the loop returns `Submissions`: the first 50 steps, 5 pages each, in order |
| StepikApiClient.StepsLoop | src/StepikAnalytics.Backend/Stepik/StepikApiClient.cs:163-184 | the `foreach` over the steps returns `StepsSubmissions`, each step's filtered pages in step order |
| StepikApiClient.StepsSubmissionsKept | src/StepikAnalytics.Backend/Stepik/StepikApiClient.cs:163-180 | every submission satisfies the `since` filter and was collected for one of the queried steps |
| StepikApiClient.SubmissionsKept | src/StepikAnalytics.Backend/Stepik/StepikApiClient.cs:160-183 | every submission satisfies `since = null ∨ Time ≥ since` and comes from one of the first 50 steps |
| StepikApiClient.GetCourseReviews | src/StepikAnalytics.Backend/Stepik/StepikApiClient.cs:260-276 | the reviews are the collected pages; each satisfies `since = null ∨ CreateDate ≥ since`; at most 10 page URLs, each "course-reviews?course=id&page=i" |
| Strings.Trim | src/StepikAnalytics.Backend/Services/CourseService.cs:115 | the result is a piece of the input with only white space before and after it, and it neither starts nor ends with white space; a string without white space is unchanged |
| Strings.ToLower | src/StepikAnalytics.Backend/Controllers/MetricsController.cs:43 | maps each character, keeping the length |
| Strings.ToLowerIdempotent | src/StepikAnalytics.Backend/Controllers/MetricsController.cs:43 | lower-casing twice is lower-casing once |
| Strings.Split | src/StepikAnalytics.Backend/Services/CourseService.cs:124 | gives at least one piece, and no piece contains the separator |
| Strings.JoinSplit | src/StepikAnalytics.Backend/Services/CourseService.cs:124 | joining the pieces gives the string back |
| Strings.RemoveEmpty | src/StepikAnalytics.Backend/Services/CourseService.cs:124 | keeps exactly the non-empty pieces |
| Strings.RemoveEmptyAppend | src/StepikAnalytics.Backend/Services/CourseService.cs:124 | the kept pieces stay in order: removing from a concatenation concatenates the results |
| Strings.IndexOf | src/StepikAnalytics.Backend/Services/CourseService.cs:125 | the first index holding the value, or −1 iff it is absent |
| Strings.TryParseInt32 | src/StepikAnalytics.Backend/Services/CourseService.cs:118 | a parsed value fits in 32 bits; white space may surround the signed digits, and NULs may follow them |
| Strings.ParseIntToString | src/StepikAnalytics.Backend/Services/CourseService.cs:118 | parsing a formatted Int32 gives it back |
| Strings.TryParseRejectsNonDigits | src/StepikAnalytics.Backend/Services/CourseService.cs:118 | a string that neither starts nor ends with white space, does not end with NUL, and is not a signed run of digits does not parse |
| Strings.TrailingNulsAccepted | src/StepikAnalytics.Backend/Services/CourseService.cs:118 | a formatted Int32 followed by white space and then NUL characters still parses to itself |
| Strings.NatToStringValue | src/StepikAnalytics.Backend/Stepik/StepikApiClient.cs:109 | the decimal spelling has the number's value |
| CourseService.CourseIdFromPath | src/StepikAnalytics.Backend/Services/CourseService.cs:124-130 | the segment after "course", parsed; any result fits in 32 bits |
| CourseService.IdAfterCourse | src/StepikAnalytics.Backend/Services/CourseService.cs:125-129 | the segment after the first "course", parsed; any result fits in 32 bits |
| CourseService.ParseCourseId | src/StepikAnalytics.Backend/Services/CourseService.cs:113-134 | any result fits in 32 bits |
| CourseService.ParseDirectId | src/StepikAnalytics.Backend/Services/CourseService.cs:115-119 | a plain integer is returned as is |
| CourseService.SplitAtSeparator | src/StepikAnalytics.Backend/Services/CourseService.cs:124 | splitting at a leading piece peels off that piece |
| CourseService.CoursePathPieces | src/StepikAnalytics.Backend/Services/CourseService.cs:124 | the pieces of "/course/d…" begin "", "course", d |
| CourseService.CourseSegments | src/StepikAnalytics.Backend/Services/CourseService.cs:124-126 | with empties removed, "course" is at index 0 and d follows it |
| CourseService.CoursePathId | src/StepikAnalytics.Backend/Services/CourseService.cs:124-129 | the path "/course/n…" gives n |
| CourseService.ParseCourseUrl | src/StepikAnalytics.Backend/Services/CourseService.cs:122-130 | a non-numeric absolute URL whose path is "/course/n…" gives n |
| CourseService.NoCourseSegment | src/StepikAnalytics.Backend/Services/CourseService.cs:122-133 | with no "course" segment, the result is null |
| CourseService.InsertByStartPerm | src/StepikAnalytics.Backend/Services/CourseService.cs:97 | insertion keeps the multiset of runs |
| CourseService.InsertByStartSorted | src/StepikAnalytics.Backend/Services/CourseService.cs:97 | insertion keeps the runs in descending `StartedAt` order |
| CourseService.SortByStartDescCorrect | src/StepikAnalytics.Backend/Services/CourseService.cs:96-97 | the sort is a permutation in descending `StartedAt` order |
| CourseService.RunDtos | src/StepikAnalytics.Backend/Services/CourseService.cs:101-110 | one DTO per run, in order |
| CourseService.GetSyncRunsCorrect | src/StepikAnalytics.Backend/Services/CourseService.cs:90-111 | a negative limit makes the query fail. Otherwise it returns min(limit, matching runs) runs, all of the course when one is given, descending by StartedAt; Duration is present iff FinishedAt is, and is FinishedAt − StartedAt |
| CourseService.GetSyncRunsFromTable | src/StepikAnalytics.Backend/Services/CourseService.cs:92-110 | the history is the DTOs of stored runs of the requested course, each run at most once |
| CourseService.GetSyncRunsKeepsLatest | src/StepikAnalytics.Backend/Services/CourseService.cs:96-98 | a matching run left out started no later than every run returned |
| CourseService.LatestRunCorrect | src/StepikAnalytics.Backend/Services/CourseService.cs:42 | the latest run is absent iff the course has no run; otherwise it is one of its runs with the greatest StartedAt |
| CourseService.GetByIdCorrect | src/StepikAnalytics.Backend/Services/CourseService.cs:39-46 | a DTO is returned iff the course exists; LastSync is null iff it has no runs, else from its latest-started run |
| CourseService.FindByStepikId | src/StepikAnalytics.Backend/Services/CourseService.cs:55 | finds a course with that upstream id iff one exists |
| CourseService.InsertCourseValid | src/StepikAnalytics.Backend/Data/AppDbContext.cs:21 | inserting a course with a fresh id and an untaken upstream id keeps the tables consistent |
| CourseService.AddCourse | src/StepikAnalytics.Backend/Services/CourseService.cs:48-77 | parse failure, or an unknown upstream course: null and no change. Parsed id present: the existing course and no change. Taken upstream id: the save fails and nothing changes. Otherwise exactly the new course is inserted and saved. `StepikCourseId` stays unique |
| CourseService.StoreCourse | src/StepikAnalytics.Backend/Services/CourseService.cs:73-76 | the unique index rejects a taken upstream id with no change; otherwise the course is added and saved |
| CourseService.DeleteCascadeValid | src/StepikAnalytics.Backend/Data/AppDbContext.cs:22-23 | deleting a course with its runs and metrics keeps the tables consistent |
| CourseService.DeleteCourse | src/StepikAnalytics.Backend/Services/CourseService.cs:79-88 | false with no change iff the id is absent; otherwise exactly that course and its runs and rows are removed, with one save |
| CourseService.DeleteLeavesNoOrphans | src/StepikAnalytics.Backend/Data/AppDbContext.cs:22-23 | the kept runs and rows are exactly those of other courses |
| MetricsController.ParseRange | src/StepikAnalytics.Backend/Controllers/MetricsController.cs:43-50 | "day", "month" and "year", case-insensitively, give Day, Month and Year; every other string gives Week |
| MetricsController.LowerName | src/StepikAnalytics.Backend/Controllers/MetricsController.cs:43-50 | the lower-cased enum name, which is "day", "month" or "year" exactly for those ranges |
| MetricsController.RangeNameRoundTrip | src/StepikAnalytics.Desktop/Services/ApiClient/ApiClient.cs:111 | the lower-cased enum name the desktop client sends parses back to the same range |
| MetricsController.ParseRangeIgnoresCase | src/StepikAnalytics.Backend/Controllers/MetricsController.cs:43 | a string and its lower-case form parse alike |
| MetricsController.ParseRangeCaseVariants | src/StepikAnalytics.Backend/Controllers/MetricsController.cs:43-50 | strings equal up to case parse alike |
| MetricsController.AnyCasingOfName | src/StepikAnalytics.Backend/Controllers/MetricsController.cs:43-50 | every casing of a range's name gives that range |
| MetricsController.GetMetrics | src/StepikAnalytics.Backend/Controllers/MetricsController.cs:39-41 | NotFound iff the course is unknown, and then no metrics are computed |
| MetricsController.GetMetricsAnswers | src/StepikAnalytics.Backend/Controllers/MetricsController.cs:43-57 | for a stored course: the service's metrics for the parsed range and anchor, or a server error iff the anchor does not parse |
| MetricsController.DefaultsAreThisWeek | src/StepikAnalytics.Backend/Controllers/MetricsController.cs:35-57 | with no anchor and no recognised range, the answer is the week ending today |
| Common.Take | src/StepikAnalytics.Backend/Stepik/StepikApiClient.cs:163 | the first min(max(n, 0), \|xs\|) elements |
| Common.Filter | src/StepikAnalytics.Backend/Stepik/StepikApiClient.cs:177 | keeps exactly the elements satisfying the predicate, and is no longer than the input |
| Common.FilterAppend | src/StepikAnalytics.Backend/Stepik/StepikApiClient.cs:177 | filtering keeps order and repetitions: filtering a concatenation concatenates the filtered parts |
| Common.FilterSingleton | src/StepikAnalytics.Backend/Stepik/StepikApiClient.cs:177 | one element is kept exactly when it satisfies the predicate |

## Left out

- HTTP, JSON and OAuth transport are not modelled: `HttpClient`, status codes, `JsonElement` navigation, the token POST and the bearer header. Responses are inputs: page sequences, a course tree of lookups, and token responses.
- `GetCourseAsync` and `GetCourseStatsAsync` field extraction are not modelled. `StepikCourseInfo` and `StepikCourseStats` values are inputs to the collector and to `AddCourse`.
- The token lock is not modelled. `SemaphoreSlim` and the double check inside it matter only under concurrency. `EnsureToken` models the check and the refresh.
- StepikApiClient.GetPaginated: the `EnsureTokenAsync` call inside each page request is not threaded through the loop. Token refresh is modelled on its own.
- `Task.Delay` rate limiting, cancellation tokens, logging, and the Polly and Hangfire plumbing are not modelled.
- `Math.Round` is not modelled. Percentages, ratings and averages are exact `real` values.
- `int` overflow is not modelled:
  - in `Sum` over many rows;
  - in `LearnersCount - prevTotal`;
  - in `ExpiresIn` seconds added to a `DateTime`.
  Integers are unbounded; only `int.TryParse` is bounded to Int32.
- `DateTime` range exceptions are not modelled. The initial expiry `DateTime.MinValue` is tick 0 here. While no token is cached, the check never reaches `AddMinutes(-5)`.
- `DateTime.Parse` and time zones are not modelled. Record times are already ticks.
- `DateOnly.Parse` is an input function, returning none where it throws.
- `int.TryParse` reads its sign symbols from the current culture. The model fixes them to '+' and '-', as in the invariant culture.
- `Uri.TryCreate` and `Uri.AbsolutePath` are the input function `absolutePath`.
- Case mapping maps only the characters whose lower case is an ASCII letter: `A`–`Z`, U+0130 and U+212A. Other characters are kept as they are, which does not change which range a string selects.
- `Guid.NewGuid` is not modelled:
  - in an inserted course, the caller supplies a fresh id (a precondition);
  - in a run, the caller supplies an id distinct from stored runs.
- `SaveChangesAsync` failures other than the unique index on `StepikCourseId` are not modelled.
- `GetAllAsync` is not part of this model. Its ordering by `CreatedAt` is not among the operations modelled here.
- `GetEnrollmentsAsync` is not modelled. It always returns an empty list.
- CourseService.SortByStartDesc: the tie order of `OrderByDescending` among runs with equal `StartedAt` is not claimed. The model keeps table order; only the descending order and the permutation are stated.
- `GetAsync<JsonElement>` has a `where T : class` constraint that `JsonElement` does not satisfy as written. The model takes its evident meaning: an undefined element on a non-success response.

## Findings

| source | as written | input that shows it | evidently intended | confidence | as-written member | corrected member |
|---|---|---|---|---|---|---|
| src/StepikAnalytics.Backend/Stepik/StepikApiClient.cs:227-228 | An unavailable lesson leaves `lessonData` undefined. `TryGetProperty` on it throws, which aborts the whole step walk and with it `GetSubmissionsAsync`. | One section with units 7 and 8; unit 7's lesson 3 is unavailable, and unit 8's lesson holds steps 40 and 41. | Skip the lesson, as unavailable sections and units are skipped: the walk yields steps 40 and 41. | not executed | StepikApiClient.UnavailableLessonAbortsWalk | StepikApiClient.GetCourseSteps |
