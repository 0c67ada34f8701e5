/**
 * `MetricsCollector.CollectAndAggregateAsync`: one sync of one course. The fetched records
 * are bucketed by day, every day of the sync period is upserted into `metrics_daily`
 * (oldest first, carrying the previous day's row for the rating delta), the learner growth
 * is written to the latest stored row, and a `SyncRun` records the outcome.
 */
module MetricsCollector {
  import opened Common
  import opened Contracts
  import opened Models
  import opened DateRange

  // ---------------------------------------------------------------------------
  // Bucketing by day (lines 69-75, 93-94)
  // ---------------------------------------------------------------------------

  /** The submissions made on day `d`, in fetch order. */
  function SubmissionsOn(subs: seq<StepikSubmission>, d: int): (r: seq<StepikSubmission>)
    ensures |r| <= |subs|
  {
    if subs == [] then []
    else (if DayOf(subs[0].time) == d then [subs[0]] else []) + SubmissionsOn(subs[1..], d)
  }

  /** A day's bucket holds exactly the submissions made that day. */
  lemma {:induction false} SubmissionsOnExactly(subs: seq<StepikSubmission>, d: int)
    ensures forall s :: s in SubmissionsOn(subs, d) <==> s in subs && DayOf(s.time) == d
  {
    if subs != [] {
      SubmissionsOnExactly(subs[1..], d);
      assert forall s :: s in subs <==> s == subs[0] || s in subs[1..];
    }
  }

  /** The reviews written on day `d`, in fetch order. */
  function ReviewsOn(revs: seq<StepikReview>, d: int): (r: seq<StepikReview>)
    ensures |r| <= |revs|
  {
    if revs == [] then []
    else (if DayOf(revs[0].createDate) == d then [revs[0]] else []) + ReviewsOn(revs[1..], d)
  }

  /** A day's bucket holds exactly the reviews written that day. */
  lemma {:induction false} ReviewsOnExactly(revs: seq<StepikReview>, d: int)
    ensures forall v :: v in ReviewsOn(revs, d) <==> v in revs && DayOf(v.createDate) == d
  {
    if revs != [] {
      ReviewsOnExactly(revs[1..], d);
      assert forall v :: v in revs <==> v == revs[0] || v in revs[1..];
    }
  }

  /** `Count(s => s.Status == status)` */
  function CountStatus(subs: seq<StepikSubmission>, status: string): nat {
    if subs == [] then 0
    else (if subs[0].status == status then 1 else 0) + CountStatus(subs[1..], status)
  }

  /** The submissions whose status is neither "correct" nor "wrong". */
  function CountOther(subs: seq<StepikSubmission>): nat {
    if subs == [] then 0
    else (if subs[0].status != "correct" && subs[0].status != "wrong" then 1 else 0) + CountOther(subs[1..])
  }

  /** `Select(s => s.UserId).Distinct()` */
  function UserIds(subs: seq<StepikSubmission>): set<int> {
    set s | s in subs :: s.userId
  }

  function ScoreSum(revs: seq<StepikReview>): int {
    if revs == [] then 0 else revs[0].score + ScoreSum(revs[1..])
  }

  /** `Any() ? Average(r => r.Score) : 0` */
  function MeanScore(revs: seq<StepikReview>): real {
    if revs == [] then 0.0 else ScoreSum(revs) as real / |revs| as real
  }

  /** The statistics of one day (lines 96-102). */
  datatype DayStats = DayStats(total: int, correct: int, wrong: int, reviewsCount: int, reviewsAvg: real, dau: int)

  /** The inputs of one sync, as returned by the upstream client. */
  datatype Fetched = Fetched(
    courseInfo: Option<StepikCourseInfo>,
    submissions: seq<StepikSubmission>,
    reviews: seq<StepikReview>,
    stats: Option<StepikCourseStats>)

  function Aggregate(subs: seq<StepikSubmission>, revs: seq<StepikReview>, d: int): (st: DayStats)
    ensures 0 <= st.correct && 0 <= st.wrong && st.correct + st.wrong <= st.total
    ensures 0 <= st.dau <= st.total
    ensures st.dau == 0 <==> st.total == 0
    ensures st.reviewsCount == |ReviewsOn(revs, d)| && (st.reviewsCount == 0 ==> st.reviewsAvg == 0.0)
  {
    var daySubs := SubmissionsOn(subs, d);
    var dayRevs := ReviewsOn(revs, d);
    StatusesPartition(daySubs);
    DistinctUsersBound(daySubs);
    DayStats(|daySubs|, CountStatus(daySubs, "correct"), CountStatus(daySubs, "wrong"),
             |dayRevs|, MeanScore(dayRevs), |UserIds(daySubs)|)
  }

  /** Every submission is correct, wrong or something else, exactly once. */
  lemma {:induction false} StatusesPartition(subs: seq<StepikSubmission>)
    ensures CountStatus(subs, "correct") + CountStatus(subs, "wrong") + CountOther(subs) == |subs|
  {
    if subs != [] {
      StatusesPartition(subs[1..]);
    }
  }

  /** There are no more distinct users than submissions, and some as soon as there is one. */
  lemma {:induction false} DistinctUsersBound(subs: seq<StepikSubmission>)
    ensures |UserIds(subs)| <= |subs|
    ensures |UserIds(subs)| == 0 <==> subs == []
  {
    if subs != [] {
      DistinctUsersBound(subs[1..]);
      assert UserIds(subs) == {subs[0].userId} + UserIds(subs[1..]) by {
        forall u | u in UserIds(subs) ensures u in {subs[0].userId} + UserIds(subs[1..]) {
          var s :| s in subs && s.userId == u;
          if s != subs[0] {
            assert s in subs[1..];
          }
        }
      }
      assert subs[0].userId in UserIds(subs);
    }
  }

  /** The mean review score lies between the lowest and the highest score. */
  lemma MeanScoreBounds(revs: seq<StepikReview>, lo: int, hi: int)
    requires revs != []
    requires forall v :: v in revs ==> lo <= v.score <= hi
    ensures lo as real <= MeanScore(revs) <= hi as real
  {
    ScoreSumBounds(revs, lo, hi);
    var n := |revs|;
    var total := ScoreSum(revs);
    assert (lo * n) as real == lo as real * n as real;
    assert (hi * n) as real == hi as real * n as real;
    QuotientBounds(total as real, n as real, lo as real, hi as real);
  }

  lemma {:induction false} ScoreSumBounds(revs: seq<StepikReview>, lo: int, hi: int)
    requires forall v :: v in revs ==> lo <= v.score <= hi
    ensures lo * |revs| <= ScoreSum(revs) <= hi * |revs|
  {
    if revs != [] {
      var n := |revs| - 1;
      assert forall v :: v in revs[1..] ==> v in revs;
      ScoreSumBounds(revs[1..], lo, hi);
      MulSucc(lo, n);
      MulSucc(hi, n);
      assert revs[0] in revs;
    }
  }

  lemma MulSucc(a: int, n: int)
    ensures a * (n + 1) == a * n + a
  {
  }

  /** Bucketing distributes over concatenated batches of submissions. */
  lemma {:induction false} SubmissionsOnAppend(a: seq<StepikSubmission>, b: seq<StepikSubmission>, d: int)
    ensures SubmissionsOn(a + b, d) == SubmissionsOn(a, d) + SubmissionsOn(b, d)
  {
    if a != [] {
      assert (a + b)[1..] == a[1..] + b;
      SubmissionsOnAppend(a[1..], b, d);
    } else {
      assert a + b == b;
    }
  }

  /** Records dated outside the sync period change no day inside it. */
  lemma {:induction false} OtherDaysIgnored(subs: seq<StepikSubmission>, revs: seq<StepikReview>, lo: int, hi: int, d: int)
    requires lo <= d <= hi
    ensures Aggregate(InPeriod(subs, lo, hi), ReviewsInPeriod(revs, lo, hi), d) == Aggregate(subs, revs, d)
  {
    SubmissionsInPeriod(subs, lo, hi, d);
    ReviewsOnInPeriod(revs, lo, hi, d);
  }

  function InPeriod(subs: seq<StepikSubmission>, lo: int, hi: int): seq<StepikSubmission> {
    if subs == [] then []
    else (if lo <= DayOf(subs[0].time) <= hi then [subs[0]] else []) + InPeriod(subs[1..], lo, hi)
  }

  function ReviewsInPeriod(revs: seq<StepikReview>, lo: int, hi: int): seq<StepikReview> {
    if revs == [] then []
    else (if lo <= DayOf(revs[0].createDate) <= hi then [revs[0]] else []) + ReviewsInPeriod(revs[1..], lo, hi)
  }

  lemma {:induction false} SubmissionsInPeriod(subs: seq<StepikSubmission>, lo: int, hi: int, d: int)
    requires lo <= d <= hi
    ensures SubmissionsOn(InPeriod(subs, lo, hi), d) == SubmissionsOn(subs, d)
  {
    if subs != [] {
      SubmissionsInPeriod(subs[1..], lo, hi, d);
      var head := if lo <= DayOf(subs[0].time) <= hi then [subs[0]] else [];
      SubmissionsOnAppend(head, InPeriod(subs[1..], lo, hi), d);
    }
  }

  lemma {:induction false} ReviewsOnInPeriod(revs: seq<StepikReview>, lo: int, hi: int, d: int)
    requires lo <= d <= hi
    ensures ReviewsOn(ReviewsInPeriod(revs, lo, hi), d) == ReviewsOn(revs, d)
  {
    if revs != [] {
      ReviewsOnInPeriod(revs[1..], lo, hi, d);
      var head := if lo <= DayOf(revs[0].createDate) <= hi then [revs[0]] else [];
      var rest := ReviewsInPeriod(revs[1..], lo, hi);
      if head == [] {
        assert head + rest == rest;
      } else {
        assert (head + rest)[1..] == rest;
      }
    }
  }

  // ---------------------------------------------------------------------------
  // The upsert of one day (lines 104-141)
  // ---------------------------------------------------------------------------

  /** `stats?.AverageScore ?? 0` */
  function ScoreOrZero(stats: Option<StepikCourseStats>): real {
    if stats.Some? then stats.value.averageScore.GetOr(0.0) else 0.0
  }

  /** An existing row after its fields are overwritten (lines 107-119). */
  function UpdatedRow(row: MetricsDaily, st: DayStats, stats: Option<StepikCourseStats>, prev: Option<MetricsDaily>): MetricsDaily {
    var counted := row.(totalSubmissions := st.total, correctSubmissions := st.correct,
                        wrongSubmissions := st.wrong, reviewsCount := st.reviewsCount,
                        reviewsAvg := st.reviewsAvg, activeLearnersDau := st.dau);
    if stats.None? then counted
    else
      var score := stats.value.averageScore.GetOr(0.0);
      var prevRating := if prev.Some? then prev.value.ratingValue else score;
      counted.(ratingValue := score, ratingDelta := score - prevRating)
  }

  /** A new row for a day that had none (lines 124-137). */
  function InsertedRow(c: Guid, d: int, st: DayStats, stats: Option<StepikCourseStats>): MetricsDaily {
    MetricsDaily(c, d, st.total, st.correct, st.wrong, 0, 0, 0, 0,
                 st.reviewsCount, ScoreOrZero(stats), 0.0, st.reviewsAvg, st.dau)
  }

  /** `existingMetrics` (lines 80-82): the course's stored rows in the period, by date. */
  function ExistingInPeriod(t: MetricsTable, c: Guid, lo: int, hi: int): (e: map<int, MetricsDaily>)
    ensures forall d :: d in e <==> lo <= d <= hi && (c, d) in t
    ensures forall d :: d in e ==> e[d] == t[(c, d)]
  {
    map d | lo <= d <= hi && (c, d) in t :: t[(c, d)]
  }

  /** `prevMetrics` (lines 85-88): the stored row of the day before the period. */
  function RowBefore(t: MetricsTable, c: Guid, lo: int): Option<MetricsDaily> {
    if (c, lo - 1) in t then Some(t[(c, lo - 1)]) else None
  }

  /** The row day `e` gets when the loop reaches it holding `carried` as `prevMetrics`. */
  function DayRow(existing: map<int, MetricsDaily>, c: Guid, e: int, f: Fetched, carried: Option<MetricsDaily>): MetricsDaily {
    var st := Aggregate(f.submissions, f.reviews, e);
    if e in existing then UpdatedRow(existing[e], st, f.stats, carried) else InsertedRow(c, e, st, f.stats)
  }

  /**
   * The day loop (lines 91-142) from day `d` to `hi`, holding `prev` as `prevMetrics`:
   * a day with an existing row updates it and makes it the next `prevMetrics`; a day
   * without one inserts a row and clears `prevMetrics`.
   */
  function UpsertDays(m: MetricsTable, existing: map<int, MetricsDaily>, c: Guid, d: int, hi: int,
                      f: Fetched, prev: Option<MetricsDaily>): MetricsTable
    decreases hi - d + 1
  {
    if d > hi then m
    else
      var row := DayRow(existing, c, d, f, prev);
      UpsertDays(m[(c, d) := row], existing, c, d + 1, hi, f, if d in existing then Some(row) else None)
  }

  /** One turn of the day loop. */
  lemma UpsertStep(m: MetricsTable, existing: map<int, MetricsDaily>, c: Guid, d: int, hi: int,
                   f: Fetched, prev: Option<MetricsDaily>)
    requires d <= hi
    ensures var st := Aggregate(f.submissions, f.reviews, d);
            var row := if d in existing then UpdatedRow(existing[d], st, f.stats, prev) else InsertedRow(c, d, st, f.stats);
            UpsertDays(m, existing, c, d, hi, f, prev)
              == UpsertDays(m[(c, d) := row], existing, c, d + 1, hi, f, if d in existing then Some(row) else None)
  {
  }

  /** The `prevMetrics` the day loop holds on reaching day `e`, having started at `d` with `prev`. */
  function PrevAt(existing: map<int, MetricsDaily>, c: Guid, d: int, e: int, f: Fetched, prev: Option<MetricsDaily>): Option<MetricsDaily>
    requires d <= e
    decreases e - d
  {
    if e == d then prev
    else if e - 1 in existing then Some(DayRow(existing, c, e - 1, f, PrevAt(existing, c, d, e - 1, f, prev)))
    else None
  }

  /** The row the day loop leaves for day `e`. */
  function RowAt(existing: map<int, MetricsDaily>, c: Guid, d: int, e: int, f: Fetched, prev: Option<MetricsDaily>): MetricsDaily
    requires d <= e
  {
    DayRow(existing, c, e, f, PrevAt(existing, c, d, e, f, prev))
  }

  lemma {:induction false} PrevAtShift(existing: map<int, MetricsDaily>, c: Guid, d: int, e: int, f: Fetched, prev: Option<MetricsDaily>)
    requires d + 1 <= e
    ensures PrevAt(existing, c, d + 1, e, f, PrevAt(existing, c, d, d + 1, f, prev)) == PrevAt(existing, c, d, e, f, prev)
    decreases e - d
  {
    if e > d + 1 {
      PrevAtShift(existing, c, d, e - 1, f, prev);
    }
  }

  /**
   * What the day loop does to the table's shape: the keys of days `d..hi` of the course are
   * added and every other row is left as it was.
   */
  lemma {:induction false} UpsertDaysFrame(m: MetricsTable, existing: map<int, MetricsDaily>, c: Guid, d: int, hi: int,
                                           f: Fetched, prev: Option<MetricsDaily>)
    ensures var r := UpsertDays(m, existing, c, d, hi, f, prev);
            && (forall k :: k in r <==> k in m || (k.0 == c && d <= k.1 <= hi))
            && (forall k :: k in m && !(k.0 == c && d <= k.1 <= hi) ==> r[k] == m[k])
    decreases hi - d + 1
  {
    if d <= hi {
      var row := DayRow(existing, c, d, f, prev);
      var next := if d in existing then Some(row) else None;
      UpsertDaysFrame(m[(c, d) := row], existing, c, d + 1, hi, f, next);
    }
  }

  /** Each day `e` of `d..hi` ends up holding `RowAt`. */
  lemma {:induction false} UpsertDaysRows(m: MetricsTable, existing: map<int, MetricsDaily>, c: Guid, d: int, hi: int,
                                          f: Fetched, prev: Option<MetricsDaily>)
    ensures var r := UpsertDays(m, existing, c, d, hi, f, prev);
            forall e :: d <= e <= hi ==> (c, e) in r && r[(c, e)] == RowAt(existing, c, d, e, f, prev)
    decreases hi - d + 1
  {
    if d <= hi {
      var row := DayRow(existing, c, d, f, prev);
      var next := if d in existing then Some(row) else None;
      var m' := m[(c, d) := row];
      UpsertDaysRows(m', existing, c, d + 1, hi, f, next);
      UpsertDaysFrame(m', existing, c, d + 1, hi, f, next);
      var r := UpsertDays(m', existing, c, d + 1, hi, f, next);
      assert r[(c, d)] == row;
      assert next == PrevAt(existing, c, d, d + 1, f, prev);
      forall e | d + 1 <= e <= hi
        ensures r[(c, e)] == RowAt(existing, c, d, e, f, prev)
      {
        PrevAtShift(existing, c, d, e, f, prev);
      }
    }
  }

  // ---------------------------------------------------------------------------
  // The latest stored row (lines 147-158), read from the committed table
  // ---------------------------------------------------------------------------

  /** The dates of the course's rows in `keys`, below `bound` when one is given. */
  ghost function DatesIn(keys: set<(Guid, int)>, c: Guid, bound: Option<int>): set<int> {
    set k | k in keys && k.0 == c && (bound.None? || k.1 < bound.value) :: k.1
  }

  ghost function Greatest(s: set<int>): (g: int)
    requires s != {}
    ensures g in s && forall x :: x in s ==> x <= g
  {
    NonEmptyHasElement(s);
    var x :| x in s;
    if s == {x} then x
    else
      var g' := Greatest(s - {x});
      assert forall y :: y in s ==> y == x || y in s - {x};
      if x <= g' then g' else x
  }

  /** The answer of `Where(course, Date < bound).OrderByDescending(Date).FirstOrDefault()`, as a date. */
  ghost function LatestDate(t: MetricsTable, c: Guid, bound: Option<int>): (r: Option<int>)
    ensures r.None? <==> DatesIn(t.Keys, c, bound) == {}
    ensures r.Some? ==> (c, r.value) in t && (bound.None? || r.value < bound.value)
    ensures r.Some? ==> forall k :: k in t && k.0 == c && (bound.None? || k.1 < bound.value) ==> k.1 <= r.value
  {
    var dates := DatesIn(t.Keys, c, bound);
    if dates == {} then None
    else
      var g := Greatest(dates);
      assert forall k :: k in t && k.0 == c && (bound.None? || k.1 < bound.value) ==> k.1 in dates;
      Some(g)
  }

  /** The database answering the ordered query: a scan that keeps the greatest matching date. */
  method QueryLatestDate(t: MetricsTable, c: Guid, bound: Option<int>) returns (r: Option<int>)
    ensures r == LatestDate(t, c, bound)
  {
    var todo := t.Keys;
    r := None;
    while todo != {}
      invariant todo <= t.Keys
      invariant r.None? <==> DatesIn(t.Keys - todo, c, bound) == {}
      invariant r.Some? ==> r.value in DatesIn(t.Keys - todo, c, bound)
      invariant r.Some? ==> forall x :: x in DatesIn(t.Keys - todo, c, bound) ==> x <= r.value
      decreases todo
    {
      var k :| k in todo;
      assert DatesIn(t.Keys - (todo - {k}), c, bound)
          == DatesIn(t.Keys - todo, c, bound) + (if k.0 == c && (bound.None? || k.1 < bound.value) then {k.1} else {});
      if k.0 == c && (bound.None? || k.1 < bound.value) && (r.None? || k.1 > r.value) {
        r := Some(k.1);
      }
      todo := todo - {k};
    }
    assert t.Keys - todo == t.Keys;
    var spec := LatestDate(t, c, bound);
    if r.Some? {
      assert spec.Some? && spec.value in DatesIn(t.Keys, c, bound);
    }
  }

  /** `prevTotal` (lines 154-158): `NewLearners` of the latest committed row before `latest`, or 0. */
  ghost function PrevTotal(t: MetricsTable, c: Guid, latest: int): int {
    var below := LatestDate(t, c, Some(latest));
    if below.Some? then t[(c, below.value)].newLearners else 0
  }

  /**
   * Lines 145-165: with course info at hand, the committed table's latest row of the course
   * gets `max(0, LearnersCount - prevTotal)` new learners and the course's certificate count.
   */
  function EstimateLearners(m: MetricsTable, c: Guid, info: Option<StepikCourseInfo>, latest: Option<int>, prevTotal: int): MetricsTable
    requires latest.Some? ==> (c, latest.value) in m
  {
    if info.None? || latest.None? then m
    else
      var row := m[(c, latest.value)];
      m[(c, latest.value) := row.(newLearners := Max(0, info.value.learnersCount - prevTotal),
                                  certificates := info.value.certificatesCount.GetOr(0))]
  }

  // ---------------------------------------------------------------------------
  // The whole sync
  // ---------------------------------------------------------------------------

  /** The four readings of `DateTime.UtcNow` (lines 39, 47, 48 and 171 or 181). */
  datatype Clock = Clock(startedAt: int, sinceNow: int, now: int, finishedAt: int)

  /** How `CollectAndAggregateAsync` ends: early return, normal completion, or a rethrown exception. */
  datatype SyncOutcome = CourseNotFound | Completed | Rethrown(message: string)

  /** The first day of the sync period: the last sync, or 30 days back (lines 47, 78). */
  function FirstDay(course: Course, clock: Clock): int {
    DayOf(course.lastSyncedAt.GetOr(clock.sinceNow - 30 * TicksPerDay))
  }

  /** The last day of the sync period: today (lines 48, 79). */
  function LastDay(clock: Clock): int {
    DayOf(clock.now)
  }

  /** The day loop run over the committed table, starting from the stored row of the day before. */
  function Upserted(before: MetricsTable, c: Guid, lo: int, hi: int, f: Fetched): (u: MetricsTable)
    ensures forall k :: k in u <==> k in before || (k.0 == c && lo <= k.1 <= hi)
    ensures forall k :: k in before && !(k.0 == c && lo <= k.1 <= hi) ==> u[k] == before[k]
    ensures forall e :: lo <= e <= hi ==>
              u[(c, e)] == RowAt(ExistingInPeriod(before, c, lo, hi), c, lo, e, f, RowBefore(before, c, lo))
  {
    UpsertDaysFrame(before, ExistingInPeriod(before, c, lo, hi), c, lo, hi, f, RowBefore(before, c, lo));
    UpsertDaysRows(before, ExistingInPeriod(before, c, lo, hi), c, lo, hi, f, RowBefore(before, c, lo));
    UpsertDays(before, ExistingInPeriod(before, c, lo, hi), c, lo, hi, f, RowBefore(before, c, lo))
  }

  /** The metrics table after a successful sync of course `c` over days `lo..hi`. */
  ghost function SyncedMetrics(before: MetricsTable, c: Guid, lo: int, hi: int, f: Fetched): (r: MetricsTable)
    ensures forall k :: k in r <==> k in before || (k.0 == c && lo <= k.1 <= hi)
  {
    var latest := LatestDate(before, c, None);
    EstimateLearners(Upserted(before, c, lo, hi, f), c, f.courseInfo, latest,
                     if latest.Some? then PrevTotal(before, c, latest.value) else 0)
  }

  /** After a sync every row still sits under its own primary key. */
  lemma SyncedMetricsKeyed(before: MetricsTable, c: Guid, lo: int, hi: int, f: Fetched)
    requires KeyedByPrimaryKey(before)
    ensures KeyedByPrimaryKey(SyncedMetrics(before, c, lo, hi, f))
  {
    var existing := ExistingInPeriod(before, c, lo, hi);
    var prev0 := RowBefore(before, c, lo);
    var u := Upserted(before, c, lo, hi, f);
    forall k | k in u
      ensures u[k].courseId == k.0 && u[k].date == k.1
    {
      if k.0 == c && lo <= k.1 <= hi {
        assert u[k] == RowAt(existing, c, lo, k.1, f, prev0);
      }
    }
  }

  /** The fields of `row` that hold the day's statistics. */
  predicate HasCounts(row: MetricsDaily, st: DayStats) {
    && row.totalSubmissions == st.total && row.correctSubmissions == st.correct
    && row.wrongSubmissions == st.wrong && row.reviewsCount == st.reviewsCount
    && row.reviewsAvg == st.reviewsAvg && row.activeLearnersDau == st.dau
  }

  /** A sync of a stored course keeps the tables consistent. */
  lemma SyncedMetricsValid(courses: map<Guid, Course>, syncRuns: seq<SyncRun>, before: MetricsTable,
                           c: Guid, lo: int, hi: int, f: Fetched)
    requires ValidTables(courses, syncRuns, before) && c in courses
    ensures ValidTables(courses, syncRuns, SyncedMetrics(before, c, lo, hi, f))
  {
    SyncedMetricsKeyed(before, c, lo, hi, f);
  }

  /** Each day of the period holds that day's counts, whatever was stored before. */
  lemma PeriodRowsCounted(before: MetricsTable, c: Guid, lo: int, hi: int, f: Fetched, e: int)
    requires lo <= e <= hi
    ensures HasCounts(SyncedMetrics(before, c, lo, hi, f)[(c, e)], Aggregate(f.submissions, f.reviews, e))
  {
    var existing := ExistingInPeriod(before, c, lo, hi);
    var prev0 := RowBefore(before, c, lo);
    var st := Aggregate(f.submissions, f.reviews, e);
    var u := Upserted(before, c, lo, hi, f);
    assert HasCounts(u[(c, e)], st) by {
      assert u[(c, e)] == RowAt(existing, c, lo, e, f, prev0);
      if e in existing {
        assert HasCounts(UpdatedRow(existing[e], st, f.stats, PrevAt(existing, c, lo, e, f, prev0)), st);
      } else {
        assert HasCounts(InsertedRow(c, e, st, f.stats), st);
      }
    }
  }

  /**
   * A day with no stored row gets a fresh one: no new learners, certificates, reputation or
   * knowledge, the course's score as rating and a zero rating delta.
   */
  lemma InsertedRowsFresh(before: MetricsTable, c: Guid, lo: int, hi: int, f: Fetched, e: int)
    requires lo <= e <= hi && (c, e) !in before
    ensures var row := SyncedMetrics(before, c, lo, hi, f)[(c, e)];
            && row.newLearners == 0 && row.certificates == 0
            && row.reputationDelta == 0 && row.knowledgeDelta == 0
            && row.ratingValue == ScoreOrZero(f.stats) && row.ratingDelta == 0.0
  {
    var u := Upserted(before, c, lo, hi, f);
    assert e !in ExistingInPeriod(before, c, lo, hi);
    assert u[(c, e)] == InsertedRow(c, e, Aggregate(f.submissions, f.reviews, e), f.stats);
  }

  /** Once past the first day, the carried `prevMetrics` is absent or holds the new score. */
  lemma CarriedRating(existing: map<int, MetricsDaily>, c: Guid, lo: int, e: int, f: Fetched, prev0: Option<MetricsDaily>)
    requires lo < e && f.stats.Some?
    ensures var prev := PrevAt(existing, c, lo, e, f, prev0);
            prev.Some? ==> prev.value.ratingValue == ScoreOrZero(f.stats)
  {
    if e - 1 in existing {
      var earlier := PrevAt(existing, c, lo, e - 1, f, prev0);
      var row := UpdatedRow(existing[e - 1], Aggregate(f.submissions, f.reviews, e - 1), f.stats, earlier);
      assert PrevAt(existing, c, lo, e, f, prev0) == Some(row);
    }
  }

  /**
   * With course statistics at hand, every stored day after the first day of the period gets a
   * zero rating delta: the row carried as `prevMetrics` already holds the new score.
   */
  lemma RatingDeltaAfterFirstDay(before: MetricsTable, c: Guid, lo: int, hi: int, f: Fetched, e: int)
    requires lo < e <= hi && (c, e) in before && f.stats.Some?
    ensures SyncedMetrics(before, c, lo, hi, f)[(c, e)].ratingDelta == 0.0
  {
    var existing := ExistingInPeriod(before, c, lo, hi);
    var prev0 := RowBefore(before, c, lo);
    var u := Upserted(before, c, lo, hi, f);
    CarriedRating(existing, c, lo, e, f, prev0);
    var prev := PrevAt(existing, c, lo, e, f, prev0);
    assert u[(c, e)] == UpdatedRow(existing[e], Aggregate(f.submissions, f.reviews, e), f.stats, prev);
    assert u[(c, e)].ratingDelta == 0.0;
  }

  /** On the first day of the period the delta is against the stored row of the day before. */
  lemma RatingDeltaOnFirstDay(before: MetricsTable, c: Guid, lo: int, hi: int, f: Fetched)
    requires lo <= hi && (c, lo) in before && f.stats.Some?
    ensures var row := SyncedMetrics(before, c, lo, hi, f)[(c, lo)];
            var score := ScoreOrZero(f.stats);
            && row.ratingValue == score
            && row.ratingDelta == score - (if (c, lo - 1) in before then before[(c, lo - 1)].ratingValue else score)
  {
    var existing := ExistingInPeriod(before, c, lo, hi);
    var u := Upserted(before, c, lo, hi, f);
    assert u[(c, lo)] == UpdatedRow(existing[lo], Aggregate(f.submissions, f.reviews, lo), f.stats, RowBefore(before, c, lo));
  }

  /**
   * The latest stored row of the course, wherever it lies, gets the learners gained since the
   * row before it (never negative) and the course's certificate count.
   */
  lemma LearnersOnLatestRow(before: MetricsTable, c: Guid, lo: int, hi: int, f: Fetched)
    requires f.courseInfo.Some? && LatestDate(before, c, None).Some?
    ensures var latest := LatestDate(before, c, None).value;
            var row := SyncedMetrics(before, c, lo, hi, f)[(c, latest)];
            && row.newLearners == Max(0, f.courseInfo.value.learnersCount - PrevTotal(before, c, latest))
            && row.newLearners >= 0
            && row.certificates == f.courseInfo.value.certificatesCount.GetOr(0)
  {
  }

  /** Rows of other courses, and of this course outside the period, are left alone (but for the latest one's learners). */
  lemma OtherRowsUnchanged(before: MetricsTable, c: Guid, lo: int, hi: int, f: Fetched, k: (Guid, int))
    requires k in before && !(k.0 == c && lo <= k.1 <= hi)
    ensures var r := SyncedMetrics(before, c, lo, hi, f);
            && r[k] == before[k].(newLearners := r[k].newLearners, certificates := r[k].certificates)
            && (k.0 != c || f.courseInfo.None? ==> r[k] == before[k])
  {
    var u := Upserted(before, c, lo, hi, f);
    assert u[k] == before[k];
  }

  /** Syncing the same data twice leaves the same days, with the same counts. */
  lemma ResyncSameCounts(before: MetricsTable, c: Guid, lo: int, hi: int, f: Fetched, e: int)
    requires lo <= e <= hi
    ensures var once := SyncedMetrics(before, c, lo, hi, f);
            var twice := SyncedMetrics(once, c, lo, hi, f);
            && twice.Keys == once.Keys
            && HasCounts(twice[(c, e)], Aggregate(f.submissions, f.reviews, e))
            && HasCounts(once[(c, e)], Aggregate(f.submissions, f.reviews, e))
  {
    var once := SyncedMetrics(before, c, lo, hi, f);
    PeriodRowsCounted(before, c, lo, hi, f, e);
    PeriodRowsCounted(once, c, lo, hi, f, e);
  }

  /** The course row after a successful sync (lines 61-66, 167-168). */
  function SyncedCourse(course: Course, info: Option<StepikCourseInfo>, now: int): Course {
    var described := if info.Some? then course.(title := info.value.title, description := info.value.summary,
                                                 coverUrl := info.value.cover)
                     else course;
    described.(lastSyncedAt := Some(now), updatedAt := now)
  }

  /** The run as first saved (lines 36-43). */
  function StartedRun(runId: Guid, c: Guid, clock: Clock): SyncRun {
    SyncRun(runId, c, clock.startedAt, None, Running, None, 0)
  }

  /** The run as finally saved: "ok" with the item count, or "failed" with the message (lines 58, 170-171, 179-181). */
  function FinishedRun(runId: Guid, c: Guid, clock: Clock, fetched: Result<Fetched>): SyncRun {
    match fetched
    case Success(f) => SyncRun(runId, c, clock.startedAt, Some(clock.finishedAt), Ok, None, |f.submissions| + |f.reviews|)
    case Failure(msg) => SyncRun(runId, c, clock.startedAt, Some(clock.finishedAt), Failed, Some(msg), 0)
  }

  /** The day loop (lines 78-142): upsert every day from `lo` to `hi`, oldest first. */
  method UpsertPeriod(db: AppDb, c: Guid, lo: int, hi: int, f: Fetched)
    modifies db`metrics
    ensures db.metrics == Upserted(old(db.metrics), c, lo, hi, f)
  {
    var before := db.metrics;
    var existing := ExistingInPeriod(before, c, lo, hi);
    var prevMetrics := RowBefore(before, c, lo);
    ghost var prev0 := prevMetrics;
    var date := lo;
    while date <= hi
      invariant UpsertDays(db.metrics, existing, c, date, hi, f, prevMetrics)
             == UpsertDays(before, existing, c, lo, hi, f, prev0)
      decreases hi - date
    {
      ghost var m0, p0 := db.metrics, prevMetrics;
      var st := Aggregate(f.submissions, f.reviews, date);
      if date in existing {
        db.metrics := db.metrics[(c, date) := UpdatedRow(existing[date], st, f.stats, prevMetrics)];
      } else {
        db.metrics := db.metrics[(c, date) := InsertedRow(c, date, st, f.stats)];
      }
      prevMetrics := if date in existing then Some(db.metrics[(c, date)]) else None;
      UpsertStep(m0, existing, c, date, hi, f, p0);
      date := date + 1;
    }
  }

  /**
   * Lines 145-165. The two ordered queries run against `committed`, the table as last saved;
   * the row they find is then updated in the tracked table.
   */
  method RecordLearners(db: AppDb, c: Guid, committed: MetricsTable, info: Option<StepikCourseInfo>)
    requires forall k :: k in committed ==> k in db.metrics
    modifies db`metrics
    ensures var latest := LatestDate(committed, c, None);
            db.metrics == EstimateLearners(old(db.metrics), c, info, latest,
                                           if latest.Some? then PrevTotal(committed, c, latest.value) else 0)
  {
    if info.Some? {
      var latest := QueryLatestDate(committed, c, None);
      if latest.Some? {
        var below := QueryLatestDate(committed, c, Some(latest.value));
        var prevTotal := if below.Some? then committed[(c, below.value)].newLearners else 0;
        var row := db.metrics[(c, latest.value)];
        db.metrics := db.metrics[(c, latest.value) := row.(newLearners := Max(0, info.value.learnersCount - prevTotal),
                                                           certificates := info.value.certificatesCount.GetOr(0))];
      }
    }
  }

  /** Lines 36-43: the run is created as "running" and saved before anything is fetched. */
  method StartRun(db: AppDb, c: Guid, runId: Guid, clock: Clock) returns (runIndex: int)
    requires db.Valid() && c in db.courses
    requires forall i :: 0 <= i < |db.syncRuns| ==> db.syncRuns[i].id != runId
    modifies db`syncRuns, db`commits
    ensures db.Valid()
    ensures db.syncRuns == old(db.syncRuns) + [StartedRun(runId, c, clock)]
    ensures db.commits == old(db.commits) + [Snapshot(db.courses, db.syncRuns, db.metrics)]
    ensures runIndex == |old(db.syncRuns)|
  {
    AppendRunValid(db.courses, db.syncRuns, db.metrics, StartedRun(runId, c, clock));
    runIndex := |db.syncRuns|;
    db.syncRuns := db.syncRuns + [StartedRun(runId, c, clock)];
    db.SaveChanges();
  }

  /** Lines 176-182: the run is marked "failed" with the message and saved. */
  method FailRun(db: AppDb, runIndex: int, clock: Clock, message: string)
    requires db.Valid() && 0 <= runIndex < |db.syncRuns|
    modifies db`syncRuns, db`commits
    ensures db.Valid()
    ensures db.syncRuns == old(db.syncRuns)[runIndex := old(db.syncRuns)[runIndex].(
              status := Failed, errorText := Some(message), finishedAt := Some(clock.finishedAt))]
    ensures db.commits == old(db.commits) + [Snapshot(db.courses, db.syncRuns, db.metrics)]
  {
    var failed := db.syncRuns[runIndex].(status := Failed, errorText := Some(message),
                                         finishedAt := Some(clock.finishedAt));
    UpdateRunValid(db.courses, db.syncRuns, db.metrics, runIndex, failed);
    db.syncRuns := db.syncRuns[runIndex := failed];
    db.SaveChanges();
  }

  /**
   * `CollectAndAggregateAsync`. `fetched` is what the four upstream calls (lines 53-56)
   * returned, or the message of the exception one of them threw; `runId` is the new run's
   * `Guid.NewGuid()`.
   */
  method CollectAndAggregate(db: AppDb, c: Guid, runId: Guid, clock: Clock, fetched: Result<Fetched>)
    returns (outcome: SyncOutcome)
    requires db.Valid()
    requires forall i :: 0 <= i < |db.syncRuns| ==> db.syncRuns[i].id != runId
    modifies db`courses, db`syncRuns, db`metrics, db`commits
    ensures db.Valid()
    ensures c !in old(db.courses) ==> outcome == CourseNotFound && unchanged(db)
    ensures c in old(db.courses) ==>
      && db.syncRuns == old(db.syncRuns) + [FinishedRun(runId, c, clock, fetched)]
      && db.commits == old(db.commits)
           + [Snapshot(old(db.courses), old(db.syncRuns) + [StartedRun(runId, c, clock)], old(db.metrics))]
           + [Snapshot(db.courses, db.syncRuns, db.metrics)]
    ensures c in old(db.courses) && fetched.Failure? ==>
      outcome == Rethrown(fetched.error) && db.courses == old(db.courses) && db.metrics == old(db.metrics)
    ensures c in old(db.courses) && fetched.Success? ==>
      var course := old(db.courses)[c];
      && outcome == Completed
      && db.courses == old(db.courses)[c := SyncedCourse(course, fetched.value.courseInfo, clock.now)]
      && db.metrics == SyncedMetrics(old(db.metrics), c, FirstDay(course, clock), LastDay(clock), fetched.value)
  {
    if c !in db.courses {
      return CourseNotFound;
    }
    outcome := SyncCourse(db, c, runId, clock, fetched);
  }

  /** Lines 36-182 for a course that exists: start the run, then finish it either way. */
  method SyncCourse(db: AppDb, c: Guid, runId: Guid, clock: Clock, fetched: Result<Fetched>)
    returns (outcome: SyncOutcome)
    requires db.Valid() && c in db.courses
    requires forall i :: 0 <= i < |db.syncRuns| ==> db.syncRuns[i].id != runId
    modifies db`courses, db`syncRuns, db`metrics, db`commits
    ensures db.Valid()
    ensures db.syncRuns == old(db.syncRuns) + [FinishedRun(runId, c, clock, fetched)]
    ensures db.commits == old(db.commits)
              + [Snapshot(old(db.courses), old(db.syncRuns) + [StartedRun(runId, c, clock)], old(db.metrics))]
              + [Snapshot(db.courses, db.syncRuns, db.metrics)]
    ensures fetched.Failure? ==>
      outcome == Rethrown(fetched.error) && db.courses == old(db.courses) && db.metrics == old(db.metrics)
    ensures fetched.Success? ==>
      var course := old(db.courses)[c];
      && outcome == Completed
      && db.courses == old(db.courses)[c := SyncedCourse(course, fetched.value.courseInfo, clock.now)]
      && db.metrics == SyncedMetrics(old(db.metrics), c, FirstDay(course, clock), LastDay(clock), fetched.value)
  {
    ghost var runs0 := db.syncRuns;
    var runIndex := StartRun(db, c, runId, clock);
    ReplaceLast(runs0, StartedRun(runId, c, clock), FinishedRun(runId, c, clock, fetched));
    outcome := FinishRun(db, c, runId, runIndex, clock, fetched);
  }

  /** Lines 53-182 once the running run is saved at `runIndex`: the `try` and its `catch`. */
  method FinishRun(db: AppDb, c: Guid, runId: Guid, runIndex: int, clock: Clock, fetched: Result<Fetched>)
    returns (outcome: SyncOutcome)
    requires db.Valid() && c in db.courses
    requires 0 <= runIndex < |db.syncRuns| && db.syncRuns[runIndex] == StartedRun(runId, c, clock)
    modifies db`courses, db`syncRuns, db`metrics, db`commits
    ensures db.Valid()
    ensures db.syncRuns == old(db.syncRuns)[runIndex := FinishedRun(runId, c, clock, fetched)]
    ensures db.commits == old(db.commits) + [Snapshot(db.courses, db.syncRuns, db.metrics)]
    ensures fetched.Failure? ==>
      outcome == Rethrown(fetched.error) && db.courses == old(db.courses) && db.metrics == old(db.metrics)
    ensures fetched.Success? ==>
      var course := old(db.courses)[c];
      && outcome == Completed
      && db.courses == old(db.courses)[c := SyncedCourse(course, fetched.value.courseInfo, clock.now)]
      && db.metrics == SyncedMetrics(old(db.metrics), c, FirstDay(course, clock), LastDay(clock), fetched.value)
  {
    FinishedFromStarted(runId, c, clock, fetched);
    if fetched.Failure? {
      FailRun(db, runIndex, clock, fetched.error);
      return Rethrown(fetched.error);
    }
    outcome := CompleteSync(db, c, runIndex, clock, fetched.value);
  }

  /** Overwriting the element just appended is appending the new one instead. */
  lemma ReplaceLast(s: seq<SyncRun>, a: SyncRun, b: SyncRun)
    ensures (s + [a])[|s| := b] == s + [b]
  {
  }

  /** The finished run is the started one with the fields that the end of the sync sets. */
  lemma FinishedFromStarted(runId: Guid, c: Guid, clock: Clock, fetched: Result<Fetched>)
    ensures fetched.Failure? ==>
              StartedRun(runId, c, clock).(status := Failed, errorText := Some(fetched.error), finishedAt := Some(clock.finishedAt))
              == FinishedRun(runId, c, clock, fetched)
    ensures fetched.Success? ==>
              StartedRun(runId, c, clock).(fetchedItemsCount := |fetched.value.submissions| + |fetched.value.reviews|,
                                           status := Ok, finishedAt := Some(clock.finishedAt))
              == FinishedRun(runId, c, clock, fetched)
  {
  }

  /** Lines 78-165 on the table as last saved: the day loop, then the learner estimate. */
  method AggregateMetrics(db: AppDb, c: Guid, lo: int, hi: int, f: Fetched)
    modifies db`metrics
    ensures db.metrics == SyncedMetrics(old(db.metrics), c, lo, hi, f)
  {
    var committed := db.metrics;
    UpsertPeriod(db, c, lo, hi, f);
    RecordLearners(db, c, committed, f.courseInfo);
  }

  /**
   * Lines 53-173, once the running run is saved at `runIndex`: the fetch succeeded. Nothing is
   * saved before line 173, so the tracked changes are applied here in the order that keeps each
   * step's consistency argument small: the day loop and the learner estimate, then the course
   * (lines 61-66, 167-168), then the run (lines 58, 170-171).
   */
  method CompleteSync(db: AppDb, c: Guid, runIndex: int, clock: Clock, f: Fetched) returns (outcome: SyncOutcome)
    requires db.Valid() && c in db.courses
    requires 0 <= runIndex < |db.syncRuns| && db.syncRuns[runIndex].courseId == c
    modifies db`courses, db`syncRuns, db`metrics, db`commits
    ensures db.Valid()
    ensures outcome == Completed
    ensures db.syncRuns == old(db.syncRuns)[runIndex := old(db.syncRuns)[runIndex].(
              fetchedItemsCount := |f.submissions| + |f.reviews|, status := Ok, finishedAt := Some(clock.finishedAt))]
    ensures db.commits == old(db.commits) + [Snapshot(db.courses, db.syncRuns, db.metrics)]
    ensures db.courses == old(db.courses)[c := SyncedCourse(old(db.courses)[c], f.courseInfo, clock.now)]
    ensures db.metrics == SyncedMetrics(old(db.metrics), c, FirstDay(old(db.courses)[c], clock), LastDay(clock), f)
  {
    var course := db.courses[c];
    var lo := FirstDay(course, clock);
    var hi := LastDay(clock);
    SyncedMetricsValid(db.courses, db.syncRuns, db.metrics, c, lo, hi, f);
    AggregateMetrics(db, c, lo, hi, f);

    var synced := SyncedCourse(course, f.courseInfo, clock.now);
    UpdateCourseValid(db.courses, db.syncRuns, db.metrics, synced);
    db.courses := db.courses[c := synced];

    var finished := db.syncRuns[runIndex].(fetchedItemsCount := |f.submissions| + |f.reviews|,
                                           status := Ok, finishedAt := Some(clock.finishedAt));
    UpdateRunValid(db.courses, db.syncRuns, db.metrics, runIndex, finished);
    db.syncRuns := db.syncRuns[runIndex := finished];
    db.SaveChanges();
    return Completed;
  }
}
