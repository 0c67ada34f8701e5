/**
 * `MetricsService.GetMetricsAsync`: the rows of the current and the previous window, the
 * summary of each, and one chart series per metric.
 */
module MetricsService {
  import opened Common
  import opened Models
  import opened DateRange
  import opened Dtos

  // ---------------------------------------------------------------------------
  // The window query (lines 34-42)
  // ---------------------------------------------------------------------------

  /**
   * `Where(m => m.CourseId == c && m.Date >= lo && m.Date <= hi).OrderBy(m => m.Date)`: the
   * course's rows of days `lo..hi`, oldest first.
   */
  function WindowRows(t: MetricsTable, c: Guid, lo: int, hi: int): (rows: seq<MetricsDaily>)
    ensures |rows| <= if lo <= hi then hi - lo + 1 else 0
    decreases hi - lo + 1
  {
    if lo > hi then []
    else (if (c, lo) in t then [t[(c, lo)]] else []) + WindowRows(t, c, lo + 1, hi)
  }

  /** `m` is the table's row of course `c` for a day of `lo..hi`. */
  predicate RowOfWindow(t: MetricsTable, c: Guid, lo: int, hi: int, m: MetricsDaily) {
    m.courseId == c && lo <= m.date <= hi && (c, m.date) in t && t[(c, m.date)] == m
  }

  /**
   * On a table keyed by its primary key the query returns exactly the course's rows of the
   * window, in strictly ascending date order.
   */
  lemma WindowRowsSelectWindow(t: MetricsTable, c: Guid, lo: int, hi: int)
    requires KeyedByPrimaryKey(t)
    ensures forall i :: 0 <= i < |WindowRows(t, c, lo, hi)| ==> RowOfWindow(t, c, lo, hi, WindowRows(t, c, lo, hi)[i])
    ensures forall i, j :: 0 <= i < j < |WindowRows(t, c, lo, hi)| ==>
              WindowRows(t, c, lo, hi)[i].date < WindowRows(t, c, lo, hi)[j].date
    ensures forall d :: lo <= d <= hi && (c, d) in t ==> t[(c, d)] in WindowRows(t, c, lo, hi)
  {
    WindowRowsInWindow(t, c, lo, hi);
    WindowRowsAscending(t, c, lo, hi);
    WindowRowsComplete(t, c, lo, hi);
  }

  lemma {:induction false} WindowRowsInWindow(t: MetricsTable, c: Guid, lo: int, hi: int)
    requires KeyedByPrimaryKey(t)
    ensures forall i :: 0 <= i < |WindowRows(t, c, lo, hi)| ==> RowOfWindow(t, c, lo, hi, WindowRows(t, c, lo, hi)[i])
    decreases hi - lo + 1
  {
    if lo <= hi {
      WindowRowsInWindow(t, c, lo + 1, hi);
      var head := if (c, lo) in t then [t[(c, lo)]] else [];
      var rest := WindowRows(t, c, lo + 1, hi);
      var rows := head + rest;
      assert WindowRows(t, c, lo, hi) == rows;
      forall i | 0 <= i < |rows|
        ensures RowOfWindow(t, c, lo, hi, rows[i])
      {
        if i < |head| {
          assert rows[i] == t[(c, lo)];
        } else {
          assert rows[i] == rest[i - |head|];
          assert RowOfWindow(t, c, lo + 1, hi, rest[i - |head|]);
        }
      }
    }
  }

  lemma {:induction false} WindowRowsAscending(t: MetricsTable, c: Guid, lo: int, hi: int)
    requires KeyedByPrimaryKey(t)
    ensures forall i, j :: 0 <= i < j < |WindowRows(t, c, lo, hi)| ==>
              WindowRows(t, c, lo, hi)[i].date < WindowRows(t, c, lo, hi)[j].date
    decreases hi - lo + 1
  {
    if lo <= hi {
      WindowRowsAscending(t, c, lo + 1, hi);
      WindowRowsInWindow(t, c, lo + 1, hi);
      var head := if (c, lo) in t then [t[(c, lo)]] else [];
      var rest := WindowRows(t, c, lo + 1, hi);
      var rows := head + rest;
      assert WindowRows(t, c, lo, hi) == rows;
      forall i, j | 0 <= i < j < |rows|
        ensures rows[i].date < rows[j].date
      {
        if i < |head| {
          assert rows[i] == t[(c, lo)] && rows[j] == rest[j - |head|];
          assert RowOfWindow(t, c, lo + 1, hi, rest[j - |head|]);
        } else {
          assert rows[i] == rest[i - |head|] && rows[j] == rest[j - |head|];
        }
      }
    }
  }

  lemma {:induction false} WindowRowsComplete(t: MetricsTable, c: Guid, lo: int, hi: int)
    ensures forall d :: lo <= d <= hi && (c, d) in t ==> t[(c, d)] in WindowRows(t, c, lo, hi)
    decreases hi - lo + 1
  {
    if lo <= hi {
      WindowRowsComplete(t, c, lo + 1, hi);
      var head := if (c, lo) in t then [t[(c, lo)]] else [];
      var rest := WindowRows(t, c, lo + 1, hi);
      assert WindowRows(t, c, lo, hi) == head + rest;
      forall d | lo <= d <= hi && (c, d) in t
        ensures t[(c, d)] in head + rest
      {
        if d == lo {
          assert t[(c, d)] in head;
        } else {
          assert t[(c, d)] in rest;
        }
      }
    }
  }

  // ---------------------------------------------------------------------------
  // Sums and averages (lines 58-71)
  // ---------------------------------------------------------------------------

  /** The integer columns `CalculateSummary` sums. */
  datatype IntColumn = TotalColumn | CorrectColumn | WrongColumn | NewLearnersColumn | CertificatesColumn
                     | ReputationColumn | KnowledgeColumn | ReviewsCountColumn | DauColumn

  function ColumnValue(m: MetricsDaily, col: IntColumn): int {
    match col
    case TotalColumn => m.totalSubmissions
    case CorrectColumn => m.correctSubmissions
    case WrongColumn => m.wrongSubmissions
    case NewLearnersColumn => m.newLearners
    case CertificatesColumn => m.certificates
    case ReputationColumn => m.reputationDelta
    case KnowledgeColumn => m.knowledgeDelta
    case ReviewsCountColumn => m.reviewsCount
    case DauColumn => m.activeLearnersDau
  }

  /** `rows.Sum(m => m.<col>)` */
  function Sum(rows: seq<MetricsDaily>, col: IntColumn): int {
    if rows == [] then 0 else Sum(rows[..|rows| - 1], col) + ColumnValue(rows[|rows| - 1], col)
  }

  /** Sums add up over consecutive stretches of rows. */
  lemma {:induction false} SumAppend(a: seq<MetricsDaily>, b: seq<MetricsDaily>, col: IntColumn)
    ensures Sum(a + b, col) == Sum(a, col) + Sum(b, col)
    decreases |b|
  {
    if b == [] {
      assert a + b == a;
    } else {
      assert (a + b)[..|a + b| - 1] == a + b[..|b| - 1];
      SumAppend(a, b[..|b| - 1], col);
    }
  }

  /** A sum of values between `lo` and `hi` lies between `lo` and `hi` times the row count. */
  lemma {:induction false} SumBounds(rows: seq<MetricsDaily>, col: IntColumn, lo: int, hi: int)
    requires forall m :: m in rows ==> lo <= ColumnValue(m, col) <= hi
    ensures lo * |rows| <= Sum(rows, col) <= hi * |rows|
  {
    if rows != [] {
      var init := rows[..|rows| - 1];
      var last := rows[|rows| - 1];
      assert forall m :: m in init ==> m in rows;
      assert last in rows;
      SumBounds(init, col, lo, hi);
      assert Sum(rows, col) == Sum(init, col) + ColumnValue(last, col);
      MulSucc(lo, |init|);
      MulSucc(hi, |init|);
    }
  }

  lemma MulSucc(a: int, n: int)
    ensures a * (n + 1) == a * n + a
  {
  }

  /** `(int)x`: conversion toward zero. */
  function TruncateTowardZero(x: real): (n: int)
    ensures x >= 0.0 ==> 0 <= n && n as real <= x < n as real + 1.0
    ensures x < 0.0 ==> n <= 0 && n as real - 1.0 < x <= n as real
  {
    if x >= 0.0 then x.Floor else -((-x).Floor)
  }

  /** `rows.Any() ? (int)rows.Average(m => m.ActiveLearnersDau) : 0` */
  function AverageDau(rows: seq<MetricsDaily>): int {
    if rows == [] then 0 else TruncateTowardZero(Sum(rows, DauColumn) as real / |rows| as real)
  }

  /** With every day's DAU between 0 and `most`, so is the average. */
  lemma AverageDauBounds(rows: seq<MetricsDaily>, most: int)
    requires forall m :: m in rows ==> 0 <= m.activeLearnersDau <= most
    ensures 0 <= AverageDau(rows) && (rows != [] ==> AverageDau(rows) <= most)
  {
    if rows != [] {
      var mean := Sum(rows, DauColumn) as real / |rows| as real;
      DauMeanBounds(rows, most);
      assert AverageDau(rows) == TruncateTowardZero(mean);
    }
  }

  lemma DauMeanBounds(rows: seq<MetricsDaily>, most: int)
    requires rows != [] && forall m :: m in rows ==> 0 <= m.activeLearnersDau <= most
    ensures 0.0 <= Sum(rows, DauColumn) as real / |rows| as real <= most as real
  {
    SumBounds(rows, DauColumn, 0, most);
    var n := |rows|;
    IntProductAsReal(most, n);
    QuotientBounds(Sum(rows, DauColumn) as real, n as real, 0.0, most as real);
  }

  lemma IntProductAsReal(a: int, b: int)
    ensures (a * b) as real == a as real * b as real
  {
  }

  /** The days that had reviews. */
  function ReviewedRows(rows: seq<MetricsDaily>): (r: seq<MetricsDaily>)
    ensures |r| <= |rows|
    ensures forall m :: m in r ==> m in rows && m.reviewsCount > 0
    ensures forall m :: m in rows && m.reviewsCount > 0 ==> m in r
  {
    if rows == [] then []
    else (if rows[0].reviewsCount > 0 then [rows[0]] else []) + ReviewedRows(rows[1..])
  }

  /** The reviewed days of two stretches, in order: the filter keeps the days' order. */
  lemma {:induction false} ReviewedRowsAppend(a: seq<MetricsDaily>, b: seq<MetricsDaily>)
    ensures ReviewedRows(a + b) == ReviewedRows(a) + ReviewedRows(b)
  {
    if a != [] {
      assert (a + b)[1..] == a[1..] + b;
      ReviewedRowsAppend(a[1..], b);
    } else {
      assert a + b == b;
    }
  }

  function SumReviewsAvg(rows: seq<MetricsDaily>): real {
    if rows == [] then 0.0 else rows[0].reviewsAvg + SumReviewsAvg(rows[1..])
  }

  /**
   * `Where(m => m.ReviewsCount > 0).DefaultIfEmpty().Average(m => m?.ReviewsAvg ?? 0)`: the
   * mean of the daily review averages over the days that had reviews, 0 when none had.
   */
  function ReviewsAverage(rows: seq<MetricsDaily>): real {
    var reviewed := ReviewedRows(rows);
    if rows == [] || reviewed == [] then 0.0 else SumReviewsAvg(reviewed) / |reviewed| as real
  }

  /** `n` copies of `a` added up. */
  function Times(a: real, n: nat): real {
    if n == 0 then 0.0 else a + Times(a, n - 1)
  }

  lemma {:induction false} TimesIsProduct(a: real, n: nat)
    ensures Times(a, n) == a * n as real
  {
    if n > 0 {
      TimesIsProduct(a, n - 1);
      RealScale(a, n as real, (n - 1) as real, 1.0);
    }
  }

  /** `a * (n + d)` distributes, for a count `k` that is `n + d`. */
  lemma RealScale(a: real, k: real, n: real, d: real)
    requires k == n + d
    ensures a * k == a * n + a * d
  {
  }

  lemma {:induction false} SumReviewsAvgBounds(rows: seq<MetricsDaily>, lo: real, hi: real)
    requires forall m :: m in rows ==> lo <= m.reviewsAvg <= hi
    ensures Times(lo, |rows|) <= SumReviewsAvg(rows) <= Times(hi, |rows|)
  {
    if rows != [] {
      var rest := rows[1..];
      assert forall m :: m in rest ==> m in rows;
      assert rows[0] in rows;
      SumReviewsAvgBounds(rest, lo, hi);
    }
  }

  /**
   * Days without reviews do not pull the average down: it is 0 when no day had reviews and
   * otherwise lies between the lowest and highest daily average of the reviewed days.
   */
  lemma ReviewsAverageBounds(rows: seq<MetricsDaily>, lo: real, hi: real)
    requires forall m :: m in rows && m.reviewsCount > 0 ==> lo <= m.reviewsAvg <= hi
    ensures ReviewedRows(rows) == [] ==> ReviewsAverage(rows) == 0.0
    ensures ReviewedRows(rows) != [] ==> lo <= ReviewsAverage(rows) <= hi
  {
    var reviewed := ReviewedRows(rows);
    if reviewed != [] {
      ReviewedMeanBounds(reviewed, lo, hi);
    }
  }

  lemma ReviewedMeanBounds(reviewed: seq<MetricsDaily>, lo: real, hi: real)
    requires reviewed != [] && forall m :: m in reviewed ==> lo <= m.reviewsAvg <= hi
    ensures lo <= SumReviewsAvg(reviewed) / |reviewed| as real <= hi
  {
    SumReviewsAvgBounds(reviewed, lo, hi);
    TimesIsProduct(lo, |reviewed|);
    TimesIsProduct(hi, |reviewed|);
    QuotientBounds(SumReviewsAvg(reviewed), |reviewed| as real, lo, hi);
  }

  /** `rows.LastOrDefault()?.RatingValue ?? fallback` */
  function LatestRating(rows: seq<MetricsDaily>, fallback: real): real {
    if rows == [] then fallback else rows[|rows| - 1].ratingValue
  }

  /** `total > 0 ? (double)correct / total * 100 : 0`, before rounding. */
  function SuccessRate(correct: int, total: int): real {
    if total > 0 then correct as real / total as real * 100.0 else 0.0
  }

  /** `prev > 0 ? (double)(cur - prev) / prev * 100 : 0`, before rounding. */
  function ChangePercent(cur: int, prev: int): real {
    if prev > 0 then (cur - prev) as real / prev as real * 100.0 else 0.0
  }

  /** The change percentage has the sign of the change, and a drop to zero is -100%. */
  lemma ChangePercentSign(cur: int, prev: int)
    requires prev > 0
    ensures ChangePercent(cur, prev) > 0.0 <==> cur > prev
    ensures ChangePercent(cur, prev) == 0.0 <==> cur == prev
    ensures cur == 0 ==> ChangePercent(cur, prev) == -100.0
    ensures cur >= 0 ==> ChangePercent(cur, prev) >= -100.0
  {
    var q := (cur - prev) as real / prev as real;
    assert q * prev as real == (cur - prev) as real;
    if cur >= 0 {
      assert (cur - prev) as real >= -(prev as real);
      QuotientBounds((cur - prev) as real, prev as real, -1.0, (cur - prev) as real / prev as real);
    }
  }

  // ---------------------------------------------------------------------------
  // The summary (lines 56-94)
  // ---------------------------------------------------------------------------

  /** `CalculateSummary(metrics, prevMetrics)`, every `Math.Round` left out. */
  function CalculateSummary(rows: seq<MetricsDaily>, prevRows: seq<MetricsDaily>): SummaryDto {
    var totalSubs := Sum(rows, TotalColumn);
    var correctSubs := Sum(rows, CorrectColumn);
    var newLearners := Sum(rows, NewLearnersColumn);
    var prevNewLearners := Sum(prevRows, NewLearnersColumn);
    var certificates := Sum(rows, CertificatesColumn);
    var reviewsCount := Sum(rows, ReviewsCountColumn);
    var avgDau := AverageDau(rows);
    var prevAvgDau := AverageDau(prevRows);
    var latestRating := LatestRating(rows, 0.0);
    var prevLatestRating := LatestRating(prevRows, latestRating);
    SummaryDto(
      totalSubs, correctSubs, Sum(rows, WrongColumn),
      SuccessRate(correctSubs, totalSubs),
      newLearners, newLearners - prevNewLearners, ChangePercent(newLearners, prevNewLearners),
      certificates, certificates - Sum(prevRows, CertificatesColumn),
      Sum(rows, ReputationColumn), Sum(rows, KnowledgeColumn),
      reviewsCount, reviewsCount - Sum(prevRows, ReviewsCountColumn),
      latestRating, latestRating - prevLatestRating,
      ReviewsAverage(rows),
      avgDau, avgDau - prevAvgDau, ChangePercent(avgDau, prevAvgDau))
  }

  /** What a day's counts satisfy when the collector wrote them. */
  predicate ConsistentCounts(m: MetricsDaily) {
    0 <= m.correctSubmissions && 0 <= m.wrongSubmissions
    && m.correctSubmissions + m.wrongSubmissions <= m.totalSubmissions
  }

  lemma {:induction false} ConsistentSums(rows: seq<MetricsDaily>)
    requires forall m :: m in rows ==> ConsistentCounts(m)
    ensures 0 <= Sum(rows, CorrectColumn) && 0 <= Sum(rows, WrongColumn)
    ensures Sum(rows, CorrectColumn) + Sum(rows, WrongColumn) <= Sum(rows, TotalColumn)
  {
    if rows != [] {
      assert forall m :: m in rows[..|rows| - 1] ==> m in rows;
      assert rows[|rows| - 1] in rows;
      ConsistentSums(rows[..|rows| - 1]);
    }
  }

  /**
   * Over consistent days the period's correct and wrong submissions fit in its total, and the
   * success rate is a percentage.
   */
  lemma SummaryCountsBounded(rows: seq<MetricsDaily>, prevRows: seq<MetricsDaily>)
    requires forall m :: m in rows ==> ConsistentCounts(m)
    ensures var s := CalculateSummary(rows, prevRows);
            && 0 <= s.correctSubmissions && 0 <= s.wrongSubmissions
            && s.correctSubmissions + s.wrongSubmissions <= s.totalSubmissions
            && 0.0 <= s.submissionSuccessRate <= 100.0
            && (s.totalSubmissions == 0 ==> s.submissionSuccessRate == 0.0)
  {
    ConsistentSums(rows);
    var total := Sum(rows, TotalColumn);
    if total > 0 {
      QuotientBounds(Sum(rows, CorrectColumn) as real, total as real, 0.0, 1.0);
    }
  }

  /**
   * A previous window with no new learners, or with an average DAU of 0, gives a 0% change
   * instead of a division by zero; so does a period with no submissions for the success rate.
   */
  lemma ZeroBaselines(rows: seq<MetricsDaily>, prevRows: seq<MetricsDaily>)
    ensures var s := CalculateSummary(rows, prevRows);
            && (Sum(rows, TotalColumn) <= 0 ==> s.submissionSuccessRate == 0.0)
            && (Sum(prevRows, NewLearnersColumn) <= 0 ==> s.newLearnersChangePercent == 0.0)
            && (AverageDau(prevRows) <= 0 ==> s.activeLearnersDauChangePercent == 0.0)
  {
  }

  /** The summary of two consecutive stretches of days adds up their counts. */
  lemma SummaryCountsAdd(a: seq<MetricsDaily>, b: seq<MetricsDaily>, prevRows: seq<MetricsDaily>)
    ensures var s := CalculateSummary(a + b, prevRows);
            var sa := CalculateSummary(a, prevRows);
            var sb := CalculateSummary(b, prevRows);
            && s.totalSubmissions == sa.totalSubmissions + sb.totalSubmissions
            && s.correctSubmissions == sa.correctSubmissions + sb.correctSubmissions
            && s.wrongSubmissions == sa.wrongSubmissions + sb.wrongSubmissions
            && s.newLearners == sa.newLearners + sb.newLearners
            && s.certificates == sa.certificates + sb.certificates
            && s.reviewsCount == sa.reviewsCount + sb.reviewsCount
  {
    SumAppend(a, b, TotalColumn);
    SumAppend(a, b, CorrectColumn);
    SumAppend(a, b, WrongColumn);
    SumAppend(a, b, NewLearnersColumn);
    SumAppend(a, b, CertificatesColumn);
    SumAppend(a, b, ReviewsCountColumn);
  }

  /** The count changes in the current summary are the differences to the previous window's own summary. */
  lemma CountChangesAgainstPrevious(rows: seq<MetricsDaily>, prevRows: seq<MetricsDaily>)
    ensures var s := CalculateSummary(rows, prevRows);
            var p := CalculateSummary(prevRows, []);
            && s.newLearnersChange == s.newLearners - p.newLearners
            && s.newLearnersChangePercent == ChangePercent(s.newLearners, p.newLearners)
            && s.certificatesChange == s.certificates - p.certificates
            && s.reviewsCountChange == s.reviewsCount - p.reviewsCount
  {
  }

  /** The DAU change is against the previous window's average DAU. */
  lemma DauAgainstPrevious(rows: seq<MetricsDaily>, prevRows: seq<MetricsDaily>)
    ensures var s := CalculateSummary(rows, prevRows);
            var p := CalculateSummary(prevRows, []);
            && s.activeLearnersDauChange == s.activeLearnersDau - p.activeLearnersDau
            && s.activeLearnersDauChangePercent == ChangePercent(s.activeLearnersDau, p.activeLearnersDau)
  {
  }

  /** The rating delta is against the previous window's latest rating, and 0 when it has no rows. */
  lemma RatingAgainstPrevious(rows: seq<MetricsDaily>, prevRows: seq<MetricsDaily>)
    ensures var s := CalculateSummary(rows, prevRows);
            var p := CalculateSummary(prevRows, []);
            s.ratingDelta == (if prevRows == [] then 0.0 else s.ratingValue - p.ratingValue)
  {
  }

  /** Against an empty previous window every change is the value itself and every percentage 0. */
  lemma EmptyBaseline(rows: seq<MetricsDaily>)
    ensures var s := CalculateSummary(rows, []);
            && s.newLearnersChange == s.newLearners && s.newLearnersChangePercent == 0.0
            && s.certificatesChange == s.certificates && s.reviewsCountChange == s.reviewsCount
            && s.activeLearnersDauChange == s.activeLearnersDau && s.activeLearnersDauChangePercent == 0.0
            && s.ratingDelta == 0.0
  {
  }

  // ---------------------------------------------------------------------------
  // The series (lines 96-113)
  // ---------------------------------------------------------------------------

  const ChartColors: seq<string> := ["#10B981", "#3B82F6", "#F59E0B", "#EF4444", "#8B5CF6", "#EC4899"]

  datatype SeriesKind = TotalSeries | CorrectSeries | WrongSeries | NewLearnersSeries | DauSeries | RatingSeries

  /** The series in the order `BuildSeries` lists them. */
  const SeriesOrder: seq<SeriesKind> := [TotalSeries, CorrectSeries, WrongSeries, NewLearnersSeries, DauSeries, RatingSeries]

  function SeriesName(k: SeriesKind): string {
    match k
    case TotalSeries => "total_submissions"
    case CorrectSeries => "correct_submissions"
    case WrongSeries => "wrong_submissions"
    case NewLearnersSeries => "new_learners"
    case DauSeries => "dau"
    case RatingSeries => "rating"
  }

  function SeriesLabel(k: SeriesKind): string {
    match k
    case TotalSeries => "Всего решений"
    case CorrectSeries => "Правильные решения"
    case WrongSeries => "Неправильные решения"
    case NewLearnersSeries => "Новые ученики"
    case DauSeries => "Активные ученики (DAU)"
    case RatingSeries => "Рейтинг курса"
  }

  function SeriesColor(k: SeriesKind): string {
    match k
    case TotalSeries => ChartColors[0]
    case CorrectSeries => ChartColors[1]
    case WrongSeries => ChartColors[3]
    case NewLearnersSeries => ChartColors[4]
    case DauSeries => ChartColors[2]
    case RatingSeries => ChartColors[5]
  }

  function PointValue(m: MetricsDaily, k: SeriesKind): real {
    match k
    case TotalSeries => m.totalSubmissions as real
    case CorrectSeries => m.correctSubmissions as real
    case WrongSeries => m.wrongSubmissions as real
    case NewLearnersSeries => m.newLearners as real
    case DauSeries => m.activeLearnersDau as real
    case RatingSeries => m.ratingValue
  }

  /** `metrics.Select(m => new DataPointDto(m.Date.ToDateTime(TimeOnly.MinValue), <value>))` */
  function Points(rows: seq<MetricsDaily>, k: SeriesKind): (pts: seq<DataPointDto>)
    ensures |pts| == |rows|
    ensures forall i :: 0 <= i < |rows| ==> pts[i] == DataPointDto(DayStart(rows[i].date), PointValue(rows[i], k))
  {
    if rows == [] then [] else [DataPointDto(DayStart(rows[0].date), PointValue(rows[0], k))] + Points(rows[1..], k)
  }

  function MakeSeries(rows: seq<MetricsDaily>, k: SeriesKind): SeriesDto {
    SeriesDto(SeriesName(k), SeriesLabel(k), SeriesColor(k), Points(rows, k))
  }

  /** Six series, one per metric, each with one point per row in row order. */
  function BuildSeries(rows: seq<MetricsDaily>): (series: seq<SeriesDto>)
    ensures |series| == |SeriesOrder|
    ensures forall i :: 0 <= i < |series| ==>
              && series[i].metricName == SeriesName(SeriesOrder[i])
              && series[i].color == SeriesColor(SeriesOrder[i])
              && |series[i].dataPoints| == |rows|
              && forall j :: 0 <= j < |rows| ==>
                   series[i].dataPoints[j] == DataPointDto(DayStart(rows[j].date), PointValue(rows[j], SeriesOrder[i]))
  {
    seq(|SeriesOrder|, i requires 0 <= i < |SeriesOrder| => MakeSeries(rows, SeriesOrder[i]))
  }

  /** The series have distinct names, and each series has its own color. */
  lemma SeriesDistinct(rows: seq<MetricsDaily>)
    ensures var series := BuildSeries(rows);
            forall i, j :: 0 <= i < j < |series| ==>
              series[i].metricName != series[j].metricName && series[i].color != series[j].color
  {
    var series := BuildSeries(rows);
    forall i, j | 0 <= i < j < |series|
      ensures series[i].metricName != series[j].metricName && series[i].color != series[j].color
    {
      var ki, kj := SeriesOrder[i], SeriesOrder[j];
      assert ki != kj;
      KindsDistinct(ki, kj);
      assert series[i].metricName == SeriesName(ki) && series[j].metricName == SeriesName(kj);
      assert series[i].color == SeriesColor(ki) && series[j].color == SeriesColor(kj);
    }
  }

  /** Two different metrics have different names and different colors. */
  lemma KindsDistinct(k1: SeriesKind, k2: SeriesKind)
    requires k1 != k2
    ensures SeriesName(k1) != SeriesName(k2) && SeriesColor(k1) != SeriesColor(k2)
  {
    assert |SeriesName(k1)| != |SeriesName(k2)| || SeriesName(k1)[0] != SeriesName(k2)[0];
    assert SeriesColor(k1)[1] != SeriesColor(k2)[1] || SeriesColor(k1)[2] != SeriesColor(k2)[2];
  }

  // ---------------------------------------------------------------------------
  // The response (lines 24-54)
  // ---------------------------------------------------------------------------

  /** `GetMetricsAsync(courseId, range, anchorDate)` with `anchorDay` a day number. */
  function GetMetrics(t: MetricsTable, c: Guid, range: MetricsRange, anchorDay: int): MetricsResponseDto {
    var anchor := DayStart(anchorDay);
    var cur := GetRange(range, anchor);
    var prev := GetPreviousRange(range, anchor);
    var rows := WindowRows(t, c, DayOf(cur.start), DayOf(cur.end));
    var prevRows := WindowRows(t, c, DayOf(prev.start), DayOf(prev.end));
    var summary := CalculateSummary(rows, prevRows);
    MetricsResponseDto(summary, BuildSeries(rows), Some(ComparisonDto(summary, CalculateSummary(prevRows, []))))
  }

  /**
   * The response summarises the `DurationDays` days ending on the anchor day against the same
   * number of days just before; its comparison holds that summary and the previous window's own.
   */
  lemma GetMetricsWindows(t: MetricsTable, c: Guid, range: MetricsRange, anchorDay: int)
    ensures var n := DurationDays(range);
            var rows := WindowRows(t, c, anchorDay - n + 1, anchorDay);
            var prevRows := WindowRows(t, c, anchorDay - 2 * n + 1, anchorDay - n);
            var r := GetMetrics(t, c, range, anchorDay);
            && r.summary == CalculateSummary(rows, prevRows)
            && r.series == BuildSeries(rows)
            && r.comparison == Some(ComparisonDto(r.summary, CalculateSummary(prevRows, [])))
  {
    var anchor := DayStart(anchorDay);
    var n := DurationDays(range);
    WindowDays(range, anchor);
    assert DayOf(GetRange(range, anchor).start) == anchorDay - n + 1;
    assert DayOf(GetRange(range, anchor).end) == anchorDay;
    assert DayOf(GetPreviousRange(range, anchor).start) == anchorDay - 2 * n + 1;
    assert DayOf(GetPreviousRange(range, anchor).end) == anchorDay - n;
  }

  /** Points of rows in ascending date order are in ascending time order, each at a midnight. */
  lemma PointsAscending(rows: seq<MetricsDaily>, k: SeriesKind)
    requires forall i, j :: 0 <= i < j < |rows| ==> rows[i].date < rows[j].date
    ensures forall i :: 0 <= i < |rows| ==>
              Points(rows, k)[i].date % TicksPerDay == 0 && DayOf(Points(rows, k)[i].date) == rows[i].date
    ensures forall i, j :: 0 <= i < j < |rows| ==> Points(rows, k)[i].date < Points(rows, k)[j].date
  {
    var pts := Points(rows, k);
    forall i, j | 0 <= i < j < |rows|
      ensures pts[i].date < pts[j].date
    {
      assert pts[i].date == rows[i].date * TicksPerDay;
      assert pts[j].date == rows[j].date * TicksPerDay;
    }
  }

  /**
   * Every chart point of a window's series is the midnight of a distinct day of the window, in
   * ascending order, so a series has at most one point per day. With `GetMetricsWindows` this
   * holds for the series of every response.
   */
  lemma SeriesPointsInWindow(t: MetricsTable, c: Guid, lo: int, hi: int, k: int)
    requires KeyedByPrimaryKey(t) && 0 <= k < |SeriesOrder|
    ensures |BuildSeries(WindowRows(t, c, lo, hi))[k].dataPoints| <= if lo <= hi then hi - lo + 1 else 0
    ensures forall i :: 0 <= i < |BuildSeries(WindowRows(t, c, lo, hi))[k].dataPoints| ==>
              BuildSeries(WindowRows(t, c, lo, hi))[k].dataPoints[i].date % TicksPerDay == 0
              && lo <= DayOf(BuildSeries(WindowRows(t, c, lo, hi))[k].dataPoints[i].date) <= hi
    ensures forall i, j :: 0 <= i < j < |BuildSeries(WindowRows(t, c, lo, hi))[k].dataPoints| ==>
              BuildSeries(WindowRows(t, c, lo, hi))[k].dataPoints[i].date
              < BuildSeries(WindowRows(t, c, lo, hi))[k].dataPoints[j].date
  {
    var rows := WindowRows(t, c, lo, hi);
    var pts := Points(rows, SeriesOrder[k]);
    assert BuildSeries(rows)[k].dataPoints == pts;
    WindowRowsSelectWindow(t, c, lo, hi);
    assert forall i :: 0 <= i < |rows| ==> RowOfWindow(t, c, lo, hi, rows[i]);
    PointsAscending(rows, SeriesOrder[k]);
  }
}
