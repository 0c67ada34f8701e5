/**
 * `CourseService`: parsing a course reference, adding and deleting courses, the sync-run
 * history and the mapping of entities to the DTOs the API returns.
 */
module CourseService {
  import opened Common
  import opened Strings
  import opened Contracts
  import opened Models
  import opened Dtos

  // ---------------------------------------------------------------------------
  // ParseCourseId (lines 113-134)
  // ---------------------------------------------------------------------------

  /** The id in an absolute path: the integer segment right after the first `course` segment. */
  function CourseIdFromPath(path: string): (r: Option<int>)
    ensures r.Some? ==> Int32Min <= r.value <= Int32Max
  {
    IdAfterCourse(RemoveEmpty(Split(path, '/')))
  }

  /** The non-empty path segments' part: the segment after the first `course`, parsed. */
  function IdAfterCourse(segments: seq<string>): (r: Option<int>)
    ensures r.Some? ==> Int32Min <= r.value <= Int32Max
  {
    var courseIndex := IndexOf(segments, "course");
    if courseIndex >= 0 && courseIndex + 1 < |segments| then TryParseInt32(segments[courseIndex + 1])
    else None
  }

  /**
   * `ParseCourseId(input)`: the trimmed input as an integer, or else, when it is an absolute
   * URI, the id in its path. `absolutePath` is `Uri.TryCreate(_, UriKind.Absolute, _)`
   * followed by `AbsolutePath`: `None` for a string that is not an absolute URI.
   */
  function ParseCourseId(input: string, absolutePath: string -> Option<string>): (r: Option<int>)
    ensures r.Some? ==> Int32Min <= r.value <= Int32Max
  {
    var trimmed := Trim(input);
    var direct := TryParseInt32(trimmed);
    if direct.Some? then direct
    else
      match absolutePath(trimmed)
      case None => None
      case Some(path) => CourseIdFromPath(path)
  }

  /** `n.ToString()` contains no white space. */
  lemma IntToStringHasNoWhiteSpace(n: int)
    ensures forall i :: 0 <= i < |IntToString(n)| ==> !IsWhiteSpace(IntToString(n)[i])
  {
    var s := IntToString(n);
    forall i | 0 <= i < |s|
      ensures !IsWhiteSpace(s[i])
    {
      if !AllDigits(s) && i > 0 {
        assert IsDigit(s[1..][i - 1]);
      }
    }
  }

  /** A plain course id parses to itself, whatever `Uri` would make of it. */
  lemma ParseDirectId(n: int, absolutePath: string -> Option<string>)
    requires Int32Min <= n <= Int32Max
    ensures ParseCourseId(IntToString(n), absolutePath) == Some(n)
  {
    IntToStringHasNoWhiteSpace(n);
    assert Trim(IntToString(n)) == IntToString(n);
    ParseIntToString(n);
  }

  /** A string without the separator is one piece. */
  lemma {:induction false} SplitNoSeparator(a: string, sep: char)
    requires sep !in a
    ensures Split(a, sep) == [a]
  {
    if a != [] {
      SplitNoSeparator(a[1..], sep);
      assert [a[0]] + a[1..] == a;
    }
  }

  /** The text before the first separator is the first piece. */
  lemma {:induction false} SplitAtSeparator(a: string, b: string, sep: char)
    requires sep !in a
    ensures Split(a + [sep] + b, sep) == [a] + Split(b, sep)
  {
    if a == [] {
      assert (a + [sep] + b)[1..] == b;
    } else {
      SplitAtSeparator(a[1..], b, sep);
      assert (a + [sep] + b)[1..] == a[1..] + [sep] + b;
      assert [a[0]] + a[1..] == a;
    }
  }

  /** The pieces of `/course/<d><rest>` start with an empty one, `course` and `d`. */
  lemma CoursePathPieces(d: string, rest: string)
    requires '/' !in d && (rest == [] || rest[0] == '/')
    ensures var p := Split("/course/" + d + rest, '/');
            |p| >= 3 && p[0] == [] && p[1] == "course" && p[2] == d
  {
    FirstPiece(d, rest);
    CoursePrefixPieces(d + rest);
    assert "/course/" + d + rest == "/course/" + (d + rest);
  }

  /** The pieces of `/course/<tail>` are an empty one, `course`, and those of `tail`. */
  lemma CoursePrefixPieces(tail: string)
    ensures Split("/course/" + tail, '/') == [[], "course"] + Split(tail, '/')
  {
    SplitAtSeparator("course", tail, '/');
    assert "course/" + tail == "course" + ['/'] + tail;
    SplitAtSeparator([], "course/" + tail, '/');
    assert "/course/" + tail == [] + ['/'] + ("course/" + tail);
  }

  /** A separator-free `d` followed by nothing or by a separator is the first piece. */
  lemma FirstPiece(d: string, rest: string)
    requires '/' !in d && (rest == [] || rest[0] == '/')
    ensures |Split(d + rest, '/')| >= 1 && Split(d + rest, '/')[0] == d
  {
    if rest == [] {
      SplitNoSeparator(d, '/');
      assert d + rest == d;
    } else {
      SplitAtSeparator(d, rest[1..], '/');
      assert d + rest == d + ['/'] + rest[1..];
    }
  }

  /** Dropping empty pieces from `["", "course", d, ...]` leaves `["course", d, ...]`. */
  lemma CourseSegments(p: seq<string>, d: string)
    requires |p| >= 3 && p[0] == [] && p[1] == "course" && p[2] == d && d != []
    ensures var segments := RemoveEmpty(p);
            |segments| >= 2 && segments[0] == "course" && segments[1] == d
  {
    assert RemoveEmpty(p) == RemoveEmpty(p[1..]);
    assert p[1..][0] == "course" && p[1..][1..] == p[2..];
    assert RemoveEmpty(p[1..]) == ["course"] + RemoveEmpty(p[2..]);
    assert p[2..][0] == d;
    assert RemoveEmpty(p[2..]) == [d] + RemoveEmpty(p[2..][1..]);
  }

  /** The path `/course/<n>` or `/course/<n>/...` holds the id `n`. */
  lemma CoursePathId(n: nat, rest: string)
    requires n <= Int32Max
    requires rest == [] || rest[0] == '/'
    ensures CourseIdFromPath("/course/" + NatToString(n) + rest) == Some(n)
  {
    var path := "/course/" + NatToString(n) + rest;
    CoursePathSegments(n, rest);
    IdAfterCourseSegment(RemoveEmpty(Split(path, '/')), NatToString(n));
    assert IntToString(n) == NatToString(n);
    ParseIntToString(n);
  }

  /** Segments that begin with `course` and `d` give whatever `d` parses to. */
  lemma IdAfterCourseSegment(segments: seq<string>, d: string)
    requires |segments| >= 2 && segments[0] == "course" && segments[1] == d
    ensures IdAfterCourse(segments) == TryParseInt32(d)
  {
    FirstIndex(segments, "course");
  }

  /** A list that starts with `x` finds it at index 0. */
  lemma FirstIndex(xs: seq<string>, x: string)
    requires |xs| >= 1 && xs[0] == x
    ensures IndexOf(xs, x) == 0
  {
  }

  /** The non-empty segments of that path begin with `course` and the digits of `n`. */
  lemma CoursePathSegments(n: nat, rest: string)
    requires rest == [] || rest[0] == '/'
    ensures var segments := RemoveEmpty(Split("/course/" + NatToString(n) + rest, '/'));
            |segments| >= 2 && segments[0] == "course" && segments[1] == NatToString(n)
  {
    var d := NatToString(n);
    assert '/' !in d by {
      assert forall i :: 0 <= i < |d| ==> IsDigit(d[i]);
    }
    CoursePathPieces(d, rest);
    CourseSegments(Split("/course/" + d + rest, '/'), d);
  }

  /**
   * A URL whose path is `/course/<n>` or `/course/<n>/...` gives `n`; the path's other
   * segments do not matter.
   */
  lemma ParseCourseUrl(input: string, absolutePath: string -> Option<string>, n: nat, rest: string)
    requires n <= Int32Max
    requires TryParseInt32(Trim(input)) == None
    requires absolutePath(Trim(input)) == Some("/course/" + NatToString(n) + rest)
    requires rest == [] || rest[0] == '/'
    ensures ParseCourseId(input, absolutePath) == Some(n)
  {
    CoursePathId(n, rest);
  }

  /** Without a `course` segment in the path (and no plain id) there is no course id. */
  lemma NoCourseSegment(input: string, absolutePath: string -> Option<string>)
    requires TryParseInt32(Trim(input)) == None
    requires absolutePath(Trim(input)).Some? ==> "course" !in Split(absolutePath(Trim(input)).value, '/')
    ensures ParseCourseId(input, absolutePath) == None
  {
  }

  // ---------------------------------------------------------------------------
  // MapToDto (lines 136-155)
  // ---------------------------------------------------------------------------

  /** The status part of a course DTO, from its latest run. */
  function SyncStatus(run: SyncRun): (s: SyncStatusDto)
    ensures s.lastSyncAt == Some(if run.finishedAt.Some? then run.finishedAt.value else run.startedAt)
  {
    SyncStatusDto(Some(run.finishedAt.GetOr(run.startedAt)), StatusText(run.status), run.errorText,
                  Some(run.fetchedItemsCount))
  }

  /** `MapToDto(c)`, where `lastSync` is the first of the course's loaded runs. */
  function MapToDto(c: Course, lastSync: Option<SyncRun>): CourseDto {
    CourseDto(c.id, c.stepikCourseId, c.title, c.description, c.coverUrl, c.isEnabled, c.createdAt, c.updatedAt,
              if lastSync.None? then None else Some(SyncStatus(lastSync.value)))
  }

  // ---------------------------------------------------------------------------
  // The sync-run history (lines 90-111)
  // ---------------------------------------------------------------------------

  /** `s => s.CourseId == c` */
  function OfCourse(c: Guid): SyncRun -> bool {
    (r: SyncRun) => r.courseId == c
  }

  /** `Where(s => s.CourseId == courseId)` when a course is given. */
  function RunsOf(runs: seq<SyncRun>, courseId: Option<Guid>): seq<SyncRun> {
    match courseId
    case None => runs
    case Some(c) => Filter(runs, OfCourse(c))
  }

  predicate StartedDescending(runs: seq<SyncRun>) {
    forall i, j :: 0 <= i < j < |runs| ==> runs[i].startedAt >= runs[j].startedAt
  }

  /** Puts `x` before the first run that started no later than it. */
  function InsertByStart(x: SyncRun, runs: seq<SyncRun>): seq<SyncRun> {
    if runs == [] || x.startedAt >= runs[0].startedAt then [x] + runs
    else [runs[0]] + InsertByStart(x, runs[1..])
  }

  /**
   * `OrderByDescending(s => s.StartedAt)`. The database does not promise an order among runs
   * that started at the same instant; the model keeps them in table order.
   */
  function SortByStartDesc(runs: seq<SyncRun>): seq<SyncRun> {
    if runs == [] then [] else InsertByStart(runs[0], SortByStartDesc(runs[1..]))
  }

  lemma {:induction false} InsertByStartPerm(x: SyncRun, runs: seq<SyncRun>)
    ensures multiset(InsertByStart(x, runs)) == multiset(runs) + multiset{x}
  {
    if runs != [] && x.startedAt < runs[0].startedAt {
      InsertByStartPerm(x, runs[1..]);
      assert runs == [runs[0]] + runs[1..];
    }
  }

  /** A run that comes first in front of later-started runs keeps them sorted. */
  lemma ConsSorted(x: SyncRun, runs: seq<SyncRun>)
    requires StartedDescending(runs)
    requires forall y :: y in runs ==> y.startedAt <= x.startedAt
    ensures StartedDescending([x] + runs)
  {
    var r := [x] + runs;
    forall i, j | 0 <= i < j < |r|
      ensures r[i].startedAt >= r[j].startedAt
    {
      assert r[j] == runs[j - 1];
      if i > 0 {
        assert r[i] == runs[i - 1];
      }
    }
  }

  lemma {:induction false} InsertByStartSorted(x: SyncRun, runs: seq<SyncRun>)
    requires StartedDescending(runs)
    ensures StartedDescending(InsertByStart(x, runs))
  {
    if runs == [] || x.startedAt >= runs[0].startedAt {
      forall y | y in runs
        ensures y.startedAt <= x.startedAt
      {
        var k :| 0 <= k < |runs| && runs[k] == y;
      }
      ConsSorted(x, runs);
    } else {
      var tail := runs[1..];
      assert StartedDescending(tail) by {
        forall i, j | 0 <= i < j < |tail|
          ensures tail[i].startedAt >= tail[j].startedAt
        {
          assert tail[i] == runs[i + 1] && tail[j] == runs[j + 1];
        }
      }
      InsertByStartSorted(x, tail);
      InsertByStartPerm(x, tail);
      var rest := InsertByStart(x, tail);
      forall y | y in rest
        ensures y.startedAt <= runs[0].startedAt
      {
        assert y in multiset(rest);
        if y != x {
          assert y in multiset(tail);
          var k :| 0 <= k < |tail| && tail[k] == y;
          assert runs[k + 1] == y;
        }
      }
      ConsSorted(runs[0], rest);
    }
  }

  /** The sort orders the runs by start time, latest first, and keeps every run. */
  lemma {:induction false} SortByStartDescCorrect(runs: seq<SyncRun>)
    ensures multiset(SortByStartDesc(runs)) == multiset(runs)
    ensures StartedDescending(SortByStartDesc(runs))
  {
    if runs != [] {
      SortByStartDescCorrect(runs[1..]);
      InsertByStartSorted(runs[0], SortByStartDesc(runs[1..]));
      InsertByStartPerm(runs[0], SortByStartDesc(runs[1..]));
      assert runs == [runs[0]] + runs[1..];
    }
  }

  /** The DTO of one run; `Duration` is `FinishedAt - StartedAt` when the run has finished. */
  function RunDto(r: SyncRun): SyncRunDto {
    SyncRunDto(r.id, r.courseId, r.startedAt, r.finishedAt, StatusText(r.status), r.errorText, r.fetchedItemsCount,
               if r.finishedAt.Some? then Some(r.finishedAt.value - r.startedAt) else None)
  }

  function RunDtos(runs: seq<SyncRun>): (dtos: seq<SyncRunDto>)
    ensures |dtos| == |runs|
    ensures forall i :: 0 <= i < |runs| ==> dtos[i] == RunDto(runs[i])
  {
    if runs == [] then [] else [RunDto(runs[0])] + RunDtos(runs[1..])
  }

  /**
   * The error PostgreSQL raises for a negative `LIMIT`, which is what `Take(limit)` becomes
   * once the query is translated.
   */
  const NegativeLimit: string := "2201W: LIMIT must not be negative"

  /** `GetSyncRunsAsync(courseId, limit)`: the course's runs (or all), latest first, at most `limit`. */
  function GetSyncRuns(runs: seq<SyncRun>, courseId: Option<Guid>, limit: int): Result<seq<SyncRunDto>> {
    if limit < 0 then Failure(NegativeLimit)
    else Success(RunDtos(Take(SortByStartDesc(RunsOf(runs, courseId)), limit)))
  }

  /**
   * A negative limit makes the query fail. Otherwise the history holds at most `limit` runs
   * of the requested course, latest first, each with a duration exactly when it finished,
   * and there are fewer than `limit` exactly when the course has fewer runs.
   */
  lemma GetSyncRunsCorrect(runs: seq<SyncRun>, courseId: Option<Guid>, limit: int)
    ensures GetSyncRuns(runs, courseId, limit).Failure? <==> limit < 0
    ensures var res := GetSyncRuns(runs, courseId, limit);
            res.Success? ==>
            var r := res.value;
            && |r| == Min(limit, |RunsOf(runs, courseId)|)
            && (forall i :: 0 <= i < |r| ==> courseId.None? || r[i].courseId == courseId.value)
            && (forall i, j :: 0 <= i < j < |r| ==> r[i].startedAt >= r[j].startedAt)
            && (forall i :: 0 <= i < |r| ==>
                  (r[i].duration.Some? <==> r[i].finishedAt.Some?)
                  && (r[i].duration.Some? ==> r[i].duration.value == r[i].finishedAt.value - r[i].startedAt))
  {
    if limit >= 0 {
      RunsOfCourse(runs, courseId);
      LatestFirst(RunsOf(runs, courseId), courseId, limit);
    }
  }

  lemma RunsOfCourse(runs: seq<SyncRun>, courseId: Option<Guid>)
    ensures forall m :: m in RunsOf(runs, courseId) ==> courseId.None? || m.courseId == courseId.value
  {
  }

  /** The first `limit` runs of a course's runs sorted latest first, as DTOs. */
  lemma LatestFirst(matching: seq<SyncRun>, courseId: Option<Guid>, limit: nat)
    requires forall m :: m in matching ==> courseId.None? || m.courseId == courseId.value
    ensures var r := RunDtos(Take(SortByStartDesc(matching), limit));
            && |r| == Min(limit, |matching|)
            && (forall i :: 0 <= i < |r| ==> courseId.None? || r[i].courseId == courseId.value)
            && (forall i, j :: 0 <= i < j < |r| ==> r[i].startedAt >= r[j].startedAt)
            && (forall i :: 0 <= i < |r| ==>
                  (r[i].duration.Some? <==> r[i].finishedAt.Some?)
                  && (r[i].duration.Some? ==> r[i].duration.value == r[i].finishedAt.value - r[i].startedAt))
  {
    var sorted := SortByStartDesc(matching);
    SortByStartDescCorrect(matching);
    var top := Take(sorted, limit);
    var r := RunDtos(top);
    assert |sorted| == |matching| by {
      assert |multiset(sorted)| == |multiset(matching)|;
    }
    forall i | 0 <= i < |r|
      ensures courseId.None? || r[i].courseId == courseId.value
    {
      assert top[i] == sorted[i];
      assert sorted[i] in multiset(matching);
      assert sorted[i] in matching;
    }
    forall i, j | 0 <= i < j < |r|
      ensures r[i].startedAt >= r[j].startedAt
    {
      assert top[i] == sorted[i] && top[j] == sorted[j];
    }
  }

  /** The history is made of stored runs of the requested course, each at most once. */
  lemma GetSyncRunsFromTable(runs: seq<SyncRun>, courseId: Option<Guid>, limit: int)
    ensures var res := GetSyncRuns(runs, courseId, limit);
            res.Success? ==>
            exists top :: multiset(top) <= multiset(RunsOf(runs, courseId)) && res.value == RunDtos(top)
  {
    if limit >= 0 {
      var matching := RunsOf(runs, courseId);
      var sorted := SortByStartDesc(matching);
      SortByStartDescCorrect(matching);
      var top := Take(sorted, limit);
      PrefixSubmultiset(sorted, |top|);
      assert GetSyncRuns(runs, courseId, limit).value == RunDtos(top);
    }
  }

  /** A prefix holds each element at most as often as the whole sequence. */
  lemma PrefixSubmultiset<T>(xs: seq<T>, n: nat)
    requires n <= |xs|
    ensures multiset(xs[..n]) <= multiset(xs)
  {
    assert xs == xs[..n] + xs[n..];
  }

  /** A matching run that is not returned started no later than any run that is. */
  lemma GetSyncRunsKeepsLatest(runs: seq<SyncRun>, courseId: Option<Guid>, limit: int, x: SyncRun)
    requires GetSyncRuns(runs, courseId, limit).Success?
    requires x in RunsOf(runs, courseId) && RunDto(x) !in GetSyncRuns(runs, courseId, limit).value
    ensures forall i :: 0 <= i < |GetSyncRuns(runs, courseId, limit).value| ==>
              x.startedAt <= GetSyncRuns(runs, courseId, limit).value[i].startedAt
  {
    var matching := RunsOf(runs, courseId);
    var sorted := SortByStartDesc(matching);
    SortByStartDescCorrect(matching);
    assert x in multiset(sorted);
    var top := Take(sorted, limit);
    var r := RunDtos(top);
    forall i | 0 <= i < |top|
      ensures top[i] != x
    {
      assert r[i] == RunDto(top[i]);
    }
    LaterThanLeftOut(sorted, |top|, x);
    forall i | 0 <= i < |r|
      ensures x.startedAt <= r[i].startedAt
    {
      assert r[i] == RunDto(top[i]) && top[i] == sorted[i];
    }
  }

  /** In a latest-first list, a run outside the first `n` started no later than each of them. */
  lemma LaterThanLeftOut(sorted: seq<SyncRun>, n: nat, x: SyncRun)
    requires StartedDescending(sorted) && n <= |sorted| && x in sorted
    requires forall i :: 0 <= i < n ==> sorted[i] != x
    ensures forall i :: 0 <= i < n ==> x.startedAt <= sorted[i].startedAt
  {
    var k :| 0 <= k < |sorted| && sorted[k] == x;
    assert k >= n;
  }

  // ---------------------------------------------------------------------------
  // GetById (lines 39-46)
  // ---------------------------------------------------------------------------

  /** `SyncRuns.OrderByDescending(s => s.StartedAt).Take(1)`, as loaded by `Include`. */
  function LatestRun(runs: seq<SyncRun>, c: Guid): Option<SyncRun> {
    var sorted := SortByStartDesc(RunsOf(runs, Some(c)));
    if sorted == [] then None else Some(sorted[0])
  }

  lemma LatestRunCorrect(runs: seq<SyncRun>, c: Guid)
    ensures LatestRun(runs, c).None? <==> forall i :: 0 <= i < |runs| ==> runs[i].courseId != c
    ensures LatestRun(runs, c).Some? ==>
              && LatestRun(runs, c).value in runs && LatestRun(runs, c).value.courseId == c
              && forall i :: 0 <= i < |runs| && runs[i].courseId == c ==> runs[i].startedAt <= LatestRun(runs, c).value.startedAt
  {
    var sorted := SortByStartDesc(RunsOf(runs, Some(c)));
    SortedRunsOfCourse(runs, c);
    if sorted != [] {
      var w :| 0 <= w < |runs| && runs[w] == sorted[0];
      forall i | 0 <= i < |runs| && runs[i].courseId == c
        ensures runs[i].startedAt <= sorted[0].startedAt
      {
        var k :| 0 <= k < |sorted| && sorted[k] == runs[i];
        assert k == 0 || sorted[0].startedAt >= sorted[k].startedAt;
      }
    }
  }

  /** The sorted runs of a course are exactly the course's runs, latest first. */
  lemma SortedRunsOfCourse(runs: seq<SyncRun>, c: Guid)
    ensures var sorted := SortByStartDesc(RunsOf(runs, Some(c)));
            && StartedDescending(sorted)
            && (forall r :: r in sorted <==> r in runs && r.courseId == c)
  {
    var matching := RunsOf(runs, Some(c));
    var sorted := SortByStartDesc(matching);
    SortByStartDescCorrect(matching);
    forall r
      ensures r in sorted <==> r in runs && r.courseId == c
    {
      assert r in sorted <==> r in multiset(matching);
      assert r in matching <==> r in runs && OfCourse(c)(r);
    }
  }

  /** `GetByIdAsync(id)`: the course with its latest run as the sync status, or null. */
  function GetById(courses: map<Guid, Course>, runs: seq<SyncRun>, id: Guid): Option<CourseDto> {
    if id in courses then Some(MapToDto(courses[id], LatestRun(runs, id))) else None
  }

  /**
   * The DTO is present exactly for a stored course; its sync status is absent exactly when the
   * course has no run, and otherwise is that of its latest-started run, dated by when it
   * finished or, while running, by when it started.
   */
  lemma GetByIdCorrect(courses: map<Guid, Course>, runs: seq<SyncRun>, id: Guid)
    ensures GetById(courses, runs, id).Some? <==> id in courses
    ensures id in courses ==>
              var dto := GetById(courses, runs, id).value;
              && dto.id == courses[id].id && dto.stepikCourseId == courses[id].stepikCourseId
              && dto.title == courses[id].title
              && (dto.lastSync.None? <==> forall i :: 0 <= i < |runs| ==> runs[i].courseId != id)
              && (dto.lastSync.Some? ==>
                    exists k :: 0 <= k < |runs| && runs[k].courseId == id
                      && dto.lastSync.value.lastSyncAt == Some(runs[k].finishedAt.GetOr(runs[k].startedAt))
                      && dto.lastSync.value.status == StatusText(runs[k].status)
                      && forall i :: 0 <= i < |runs| && runs[i].courseId == id ==> runs[i].startedAt <= runs[k].startedAt)
  {
    LatestRunCorrect(runs, id);
    if id in courses && LatestRun(runs, id).Some? {
      var run := LatestRun(runs, id).value;
      var k :| 0 <= k < |runs| && runs[k] == run;
    }
  }

  // ---------------------------------------------------------------------------
  // AddCourse and DeleteCourse (lines 48-88)
  // ---------------------------------------------------------------------------

  /** `FirstOrDefaultAsync(c => c.StepikCourseId == stepikCourseId)`: a scan of the table. */
  method FindByStepikId(courses: map<Guid, Course>, stepikCourseId: int) returns (found: Option<Course>)
    ensures found.None? <==> !StepikIdTaken(courses, stepikCourseId)
    ensures found.Some? ==> exists k :: k in courses && courses[k] == found.value && found.value.stepikCourseId == stepikCourseId
  {
    var todo := courses.Keys;
    while todo != {}
      invariant todo <= courses.Keys
      invariant forall k :: k in courses.Keys - todo ==> courses[k].stepikCourseId != stepikCourseId
      decreases todo
    {
      NonEmptyHasElement(todo);
      var k :| k in todo;
      if courses[k].stepikCourseId == stepikCourseId {
        return Some(courses[k]);
      }
      todo := todo - {k};
    }
    return None;
  }

  /** The course `AddCourseAsync` creates from the upstream's description. */
  function NewCourse(id: Guid, info: StepikCourseInfo, now: int): (c: Course)
    ensures c.id == id && c.stepikCourseId == info.id && c.isEnabled && c.lastSyncedAt.None?
  {
    Course(id, info.id, info.title, info.summary, info.cover, true, now, now, None)
  }

  /** Whether some stored course already has this upstream id. */
  predicate StepikIdTaken(courses: map<Guid, Course>, stepikCourseId: int) {
    exists k :: k in courses && courses[k].stepikCourseId == stepikCourseId
  }

  /** A course with a fresh id and an untaken upstream id can be stored. */
  lemma InsertCourseValid(courses: map<Guid, Course>, syncRuns: seq<SyncRun>, metrics: MetricsTable, c: Course)
    requires ValidTables(courses, syncRuns, metrics)
    requires c.id !in courses && !StepikIdTaken(courses, c.stepikCourseId)
    ensures ValidTables(courses[c.id := c], syncRuns, metrics)
  {
  }

  /**
   * `AddCourseAsync(courseIdOrUrl)`. `upstream` is what `GetCourseAsync` answers for the parsed
   * id, `newId` the new course's `Guid.NewGuid()` and `now` the clock. The unique index on
   * `StepikCourseId` rejects an insert whose upstream id, which may differ from the parsed
   * one, is taken: the save throws (`Failure`) and nothing is stored.
   */
  method AddCourse(db: AppDb, courseIdOrUrl: string, absolutePath: string -> Option<string>,
                   upstream: Option<StepikCourseInfo>, newId: Guid, now: int)
    returns (result: Result<Option<CourseDto>>)
    requires db.Valid() && newId !in db.courses
    modifies db`courses, db`commits
    ensures db.Valid()
    ensures var parsed := ParseCourseId(courseIdOrUrl, absolutePath);
      && (parsed.None? ==> result == Success(None) && unchanged(db))
      && (parsed.Some? && StepikIdTaken(old(db.courses), parsed.value) ==>
            unchanged(db) && exists k :: k in db.courses && db.courses[k].stepikCourseId == parsed.value
                                        && result == Success(Some(MapToDto(db.courses[k], None))))
      && (parsed.Some? && !StepikIdTaken(old(db.courses), parsed.value) && upstream.None? ==>
            result == Success(None) && unchanged(db))
      && (parsed.Some? && !StepikIdTaken(old(db.courses), parsed.value) && upstream.Some?
          && StepikIdTaken(old(db.courses), upstream.value.id) ==>
            result.Failure? && unchanged(db))
      && (parsed.Some? && !StepikIdTaken(old(db.courses), parsed.value) && upstream.Some?
          && !StepikIdTaken(old(db.courses), upstream.value.id) ==>
            && db.courses == old(db.courses)[newId := NewCourse(newId, upstream.value, now)]
            && db.commits == old(db.commits) + [Snapshot(db.courses, db.syncRuns, db.metrics)]
            && result == Success(Some(MapToDto(NewCourse(newId, upstream.value, now), None))))
  {
    var stepikCourseId := ParseCourseId(courseIdOrUrl, absolutePath);
    if stepikCourseId.None? {
      return Success(None);
    }
    var existing := FindByStepikId(db.courses, stepikCourseId.value);
    if existing.Some? {
      return Success(Some(MapToDto(existing.value, None)));
    }
    if upstream.None? {
      return Success(None);
    }
    result := StoreCourse(db, NewCourse(newId, upstream.value, now));
  }

  /**
   * `Courses.Add(course); SaveChangesAsync()`: the unique index on `StepikCourseId` makes the
   * save throw when the upstream id is already stored, and then nothing is stored.
   */
  method StoreCourse(db: AppDb, course: Course) returns (result: Result<Option<CourseDto>>)
    requires db.Valid() && course.id !in db.courses
    modifies db`courses, db`commits
    ensures db.Valid()
    ensures StepikIdTaken(old(db.courses), course.stepikCourseId) ==> result.Failure? && unchanged(db)
    ensures !StepikIdTaken(old(db.courses), course.stepikCourseId) ==>
              && db.courses == old(db.courses)[course.id := course]
              && db.commits == old(db.commits) + [Snapshot(db.courses, db.syncRuns, db.metrics)]
              && result == Success(Some(MapToDto(course, None)))
  {
    var clash := FindByStepikId(db.courses, course.stepikCourseId);
    if clash.Some? {
      return Failure("duplicate key value violates unique constraint on stepik_course_id");
    }
    InsertCourseValid(db.courses, db.syncRuns, db.metrics, course);
    db.courses := db.courses[course.id := course];
    db.SaveChanges();
    return Success(Some(MapToDto(course, None)));
  }

  /** The runs that remain once a course's runs are cascaded away. */
  function RunsExcept(runs: seq<SyncRun>, id: Guid): seq<SyncRun> {
    Filter(runs, NotOfCourse(id))
  }

  /** `s => s.CourseId != id` */
  function NotOfCourse(id: Guid): SyncRun -> bool {
    (r: SyncRun) => r.courseId != id
  }

  /** The metrics rows that remain once a course's rows are cascaded away. */
  function MetricsExcept(t: MetricsTable, id: Guid): MetricsTable {
    map k | k in t && k.0 != id :: t[k]
  }

  /** Run ids stay distinct in a filtered history. */
  lemma {:induction false} FilterKeepsIdsDistinct(runs: seq<SyncRun>, keep: SyncRun -> bool)
    requires forall i, j :: 0 <= i < j < |runs| ==> runs[i].id != runs[j].id
    ensures forall i, j :: 0 <= i < j < |Filter(runs, keep)| ==> Filter(runs, keep)[i].id != Filter(runs, keep)[j].id
  {
    if runs != [] {
      var tail := runs[1..];
      assert forall i, j :: 0 <= i < j < |tail| ==> tail[i].id == runs[i + 1].id && tail[j].id == runs[j + 1].id;
      FilterKeepsIdsDistinct(tail, keep);
      var rest := Filter(tail, keep);
      var head := if keep(runs[0]) then [runs[0]] else [];
      var r := head + rest;
      forall i, j | 0 <= i < j < |r|
        ensures r[i].id != r[j].id
      {
        if i < |head| {
          assert r[i] == runs[0];
          assert r[j] == rest[j - |head|] && rest[j - |head|] in tail;
          var k :| 0 <= k < |tail| && tail[k] == rest[j - |head|];
          assert runs[k + 1] == tail[k];
        } else {
          assert r[i] == rest[i - |head|] && r[j] == rest[j - |head|];
        }
      }
    }
  }

  /** Removing a course with its runs and metrics rows keeps the tables consistent. */
  lemma DeleteCascadeValid(courses: map<Guid, Course>, runs: seq<SyncRun>, metrics: MetricsTable, id: Guid)
    requires ValidTables(courses, runs, metrics)
    ensures ValidTables(courses - {id}, RunsExcept(runs, id), MetricsExcept(metrics, id))
  {
    FilterKeepsIdsDistinct(runs, NotOfCourse(id));
    var remaining := RunsExcept(runs, id);
    forall i | 0 <= i < |remaining|
      ensures remaining[i].courseId in courses - {id}
    {
      assert remaining[i] in runs;
      var k :| 0 <= k < |runs| && runs[k] == remaining[i];
    }
  }

  /**
   * `DeleteCourseAsync(id)`: removes the course and, through the required foreign keys, its
   * runs and metrics rows; false and nothing changed when there is no such course.
   */
  method DeleteCourse(db: AppDb, id: Guid) returns (deleted: bool)
    requires db.Valid()
    modifies db`courses, db`syncRuns, db`metrics, db`commits
    ensures db.Valid()
    ensures deleted <==> id in old(db.courses)
    ensures !deleted ==> unchanged(db)
    ensures deleted ==>
      && db.courses == old(db.courses) - {id}
      && db.syncRuns == RunsExcept(old(db.syncRuns), id)
      && db.metrics == MetricsExcept(old(db.metrics), id)
      && db.commits == old(db.commits) + [Snapshot(db.courses, db.syncRuns, db.metrics)]
  {
    if id !in db.courses {
      return false;
    }
    DeleteCascadeValid(db.courses, db.syncRuns, db.metrics, id);
    db.courses := db.courses - {id};
    db.syncRuns := RunsExcept(db.syncRuns, id);
    db.metrics := MetricsExcept(db.metrics, id);
    db.SaveChanges();
    return true;
  }

  /** After a delete no run and no metrics row refers to the course, and everything else stays. */
  lemma DeleteLeavesNoOrphans(runs: seq<SyncRun>, metrics: MetricsTable, id: Guid)
    ensures forall r :: r in RunsExcept(runs, id) <==> r in runs && r.courseId != id
    ensures forall k :: k in MetricsExcept(metrics, id) <==> k in metrics && k.0 != id
  {
  }
}
