/**
 * The persisted entities (`Course`, `SyncRun`, `MetricsDaily`) and the database context
 * that holds their tables.
 */
module Models {
  import opened Common

  datatype Course = Course(
    id: Guid,
    stepikCourseId: int,
    title: string,
    description: Option<string>,
    coverUrl: Option<string>,
    isEnabled: bool,
    createdAt: int,
    updatedAt: int,
    lastSyncedAt: Option<int>)

  /** The values `SyncRun.Status` takes. */
  datatype RunStatus = Running | Ok | Failed

  function StatusText(s: RunStatus): string {
    match s
    case Running => "running"
    case Ok => "ok"
    case Failed => "failed"
  }

  datatype SyncRun = SyncRun(
    id: Guid,
    courseId: Guid,
    startedAt: int,
    finishedAt: Option<int>,
    status: RunStatus,
    errorText: Option<string>,
    fetchedItemsCount: int)

  /** One day of one course; `date` is a day number. */
  datatype MetricsDaily = MetricsDaily(
    courseId: Guid,
    date: int,
    totalSubmissions: int,
    correctSubmissions: int,
    wrongSubmissions: int,
    newLearners: int,
    certificates: int,
    reputationDelta: int,
    knowledgeDelta: int,
    reviewsCount: int,
    ratingValue: real,
    ratingDelta: real,
    reviewsAvg: real,
    activeLearnersDau: int)

  /** The `metrics_daily` table, keyed by its primary key `(CourseId, Date)`. */
  type MetricsTable = map<(Guid, int), MetricsDaily>

  /** Every row sits under its own `(CourseId, Date)`. */
  ghost predicate KeyedByPrimaryKey(t: MetricsTable) {
    forall k :: k in t ==> t[k].courseId == k.0 && t[k].date == k.1
  }

  /** What one `SaveChangesAsync` made durable. */
  datatype Snapshot = Snapshot(courses: map<Guid, Course>, syncRuns: seq<SyncRun>, metrics: MetricsTable)

  /** Primary keys, the unique index on `StepikCourseId` and the foreign keys to `courses`. */
  ghost predicate ValidTables(courses: map<Guid, Course>, syncRuns: seq<SyncRun>, metrics: MetricsTable) {
    && (forall id :: id in courses ==> courses[id].id == id)
    && (forall a, b :: a in courses && b in courses && courses[a].stepikCourseId == courses[b].stepikCourseId ==> a == b)
    && (forall i, j :: 0 <= i < j < |syncRuns| ==> syncRuns[i].id != syncRuns[j].id)
    && (forall i :: 0 <= i < |syncRuns| ==> syncRuns[i].courseId in courses)
    && KeyedByPrimaryKey(metrics)
    && (forall k :: k in metrics ==> k.0 in courses)
  }

  /** Appending a run with a fresh id for a stored course keeps the tables consistent. */
  lemma AppendRunValid(courses: map<Guid, Course>, syncRuns: seq<SyncRun>, metrics: MetricsTable, run: SyncRun)
    requires ValidTables(courses, syncRuns, metrics)
    requires run.courseId in courses && forall i :: 0 <= i < |syncRuns| ==> syncRuns[i].id != run.id
    ensures ValidTables(courses, syncRuns + [run], metrics)
  {
    var runs := syncRuns + [run];
    forall i, j | 0 <= i < j < |runs|
      ensures runs[i].id != runs[j].id
    {
      if j == |syncRuns| {
        assert runs[i] == syncRuns[i];
      }
    }
  }

  /** Rewriting a course row without changing its keys keeps the tables consistent. */
  lemma UpdateCourseValid(courses: map<Guid, Course>, syncRuns: seq<SyncRun>, metrics: MetricsTable, c: Course)
    requires ValidTables(courses, syncRuns, metrics)
    requires c.id in courses && courses[c.id].stepikCourseId == c.stepikCourseId
    ensures ValidTables(courses[c.id := c], syncRuns, metrics)
  {
  }

  /** Rewriting a run without changing its id or course keeps the tables consistent. */
  lemma UpdateRunValid(courses: map<Guid, Course>, syncRuns: seq<SyncRun>, metrics: MetricsTable, i: int, run: SyncRun)
    requires ValidTables(courses, syncRuns, metrics)
    requires 0 <= i < |syncRuns| && run.id == syncRuns[i].id && run.courseId == syncRuns[i].courseId
    ensures ValidTables(courses, syncRuns[i := run], metrics)
  {
  }

  /** `AppDbContext`: the tables, and the states committed so far. */
  class AppDb {
    var courses: map<Guid, Course>
    var syncRuns: seq<SyncRun>
    var metrics: MetricsTable
    ghost var commits: seq<Snapshot>

    ghost predicate Valid()
      reads this
    {
      ValidTables(courses, syncRuns, metrics)
    }

    constructor ()
      ensures Valid()
      ensures courses == map[] && syncRuns == [] && metrics == map[] && commits == []
    {
      courses, syncRuns, metrics := map[], [], map[];
      commits := [];
    }

    /** `SaveChangesAsync`: the tracked state becomes the committed state. */
    method SaveChanges()
      modifies this`commits
      ensures commits == old(commits) + [Snapshot(courses, syncRuns, metrics)]
    {
      commits := commits + [Snapshot(courses, syncRuns, metrics)];
    }
  }
}
