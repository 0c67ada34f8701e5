/**
 * `StepikApiClient`: the OAuth token cache, the page-by-page fetch of a list endpoint, the
 * capped walk of a course's structure and the `since` filters of submissions and reviews.
 *
 * The upstream is an input: a list endpoint is the sequence of responses to its pages
 * `1, 2, 3, ...`, each already run through the extractor's JSON reading, and a course's
 * structure is the responses of its section, unit and lesson endpoints.
 */
module StepikApiClient {
  import opened Common
  import opened Strings
  import opened DateRange
  import opened Contracts

  // ---------------------------------------------------------------------------
  // The OAuth token (lines 27-28, 44-81)
  // ---------------------------------------------------------------------------

  /** The token endpoint's answer; `expiresIn` in seconds. */
  datatype TokenResponse = TokenResponse(accessToken: string, expiresIn: int, tokenType: string)

  /** A token is reused until five minutes before it expires. */
  const RefreshMargin: int := 5 * TicksPerMinute

  /** The cached token and its expiry time (ticks). */
  class TokenCache {
    var accessToken: Option<string>
    var expiresAt: int

    /** No token; `_tokenExpiresAt = DateTime.MinValue`, tick 0. */
    constructor ()
      ensures accessToken == None && expiresAt == 0
    {
      accessToken := None;
      expiresAt := 0;
    }

    /** `_accessToken != null && now < _tokenExpiresAt.AddMinutes(-5)` */
    predicate HasValidToken(now: int)
      reads this
    {
      accessToken.Some? && now < expiresAt - RefreshMargin
    }

    /**
     * `EnsureTokenAsync`: keeps a token still valid at the check instant `now`; otherwise takes
     * the token endpoint's answer `refresh` (a `Failure` when the request or its parsing
     * failed, which is rethrown) and stores the new token with its expiry `expires_in` seconds
     * after `refreshedAt`, the clock reading taken once the answer has arrived (line 73).
     */
    method EnsureToken(now: int, refreshedAt: int, refresh: Result<TokenResponse>) returns (outcome: Result<bool>)
      requires now <= refreshedAt
      modifies this
      ensures old(HasValidToken(now)) ==> outcome == Success(false) && unchanged(this)
      ensures !old(HasValidToken(now)) && refresh.Failure? ==>
                outcome == Failure(refresh.error) && unchanged(this)
      ensures !old(HasValidToken(now)) && refresh.Success? ==>
                && outcome == Success(true)
                && accessToken == Some(refresh.value.accessToken)
                && expiresAt == refreshedAt + refresh.value.expiresIn * TicksPerSecond
    {
      if HasValidToken(now) {
        return Success(false);
      }
      if refresh.Failure? {
        return Failure(refresh.error);
      }
      accessToken := Some(refresh.value.accessToken);
      expiresAt := refreshedAt + refresh.value.expiresIn * TicksPerSecond;
      return Success(true);
    }
  }

  /**
   * A freshly stored token is reused at the same instant exactly when it lives longer than
   * the five-minute margin; a shorter-lived token is refreshed on every request.
   */
  lemma FreshTokenValidIff(now: int, expiresIn: int)
    ensures now < (now + expiresIn * TicksPerSecond) - RefreshMargin <==> expiresIn > 300
  {
  }

  // ---------------------------------------------------------------------------
  // Page URLs (lines 108-109)
  // ---------------------------------------------------------------------------

  /** `endpoint.Contains('?') ? '&' : '?'` */
  function Separator(endpoint: string): char {
    if '?' in endpoint then '&' else '?'
  }

  /** `$"{endpoint}{separator}page={page}"` */
  function PageUrl(endpoint: string, page: nat): (url: string)
    ensures |url| > |endpoint| + 6 && url[..|endpoint|] == endpoint
    ensures url[|endpoint|] == (if '?' in endpoint then '&' else '?')
    ensures url[|endpoint| + 1..|endpoint| + 6] == "page="
  {
    endpoint + [Separator(endpoint)] + "page=" + NatToString(page)
  }

  /** The page number a page URL ends with. */
  function PageNumber(endpoint: string, url: string): nat
    requires |url| >= |endpoint| + 6 && AllDigits(url[|endpoint| + 6..])
  {
    DigitsValue(url[|endpoint| + 6..])
  }

  /** The page number can be read back from the URL, so distinct pages have distinct URLs. */
  lemma PageUrlRoundTrip(endpoint: string, page: nat)
    ensures AllDigits(PageUrl(endpoint, page)[|endpoint| + 6..])
    ensures PageNumber(endpoint, PageUrl(endpoint, page)) == page
  {
    assert PageUrl(endpoint, page)[|endpoint| + 6..] == NatToString(page);
    NatToStringValue(page);
  }

  lemma PageUrlInjective(endpoint: string, p: nat, q: nat)
    requires PageUrl(endpoint, p) == PageUrl(endpoint, q)
    ensures p == q
  {
    PageUrlRoundTrip(endpoint, p);
    PageUrlRoundTrip(endpoint, q);
  }

  /** On an endpoint that already has a query string the page number is one more parameter. */
  lemma PageUrlAfterQuery(endpoint: string, page: nat)
    requires '?' in endpoint
    ensures PageUrl(endpoint, page) == endpoint + "&page=" + NatToString(page)
  {
    assert endpoint + ['&'] + "page=" == endpoint + "&page=";
  }

  /** The URLs of pages `1..n`, in request order. */
  function PageUrls(endpoint: string, n: nat): (urls: seq<string>)
    ensures |urls| == n
    ensures forall i :: 0 <= i < n ==> urls[i] == PageUrl(endpoint, i + 1)
  {
    if n == 0 then [] else PageUrls(endpoint, n - 1) + [PageUrl(endpoint, n)]
  }

  // ---------------------------------------------------------------------------
  // Pagination (lines 101-133)
  // ---------------------------------------------------------------------------

  /**
   * The response to one page: whether the status was a success, the items the extractor
   * read from it, and `meta.has_next` (false when missing).
   */
  datatype Page<T> = Page(ok: bool, items: seq<T>, hasNext: bool)

  /** The response to page `p`; pages past the given ones fail. */
  function PageAt<T>(pages: seq<Page<T>>, p: int): Page<T> {
    if 1 <= p <= |pages| then pages[p - 1] else Page(false, [], false)
  }

  /** The kept items of the pages from `page` on: what the loop still adds to its result. */
  function Collected<T>(pages: seq<Page<T>>, keep: T -> bool, page: int, maxPages: int): seq<T>
    decreases maxPages - page + 1
  {
    if page > maxPages then []
    else
      var resp := PageAt(pages, page);
      if !resp.ok then []
      else Filter(resp.items, keep) + (if resp.hasNext then Collected(pages, keep, page + 1, maxPages) else [])
  }

  /** How many pages the loop requests from `page` on. */
  function Requests<T>(pages: seq<Page<T>>, page: int, maxPages: int): nat
    decreases maxPages - page + 1
  {
    if page > maxPages then 0
    else
      var resp := PageAt(pages, page);
      if resp.ok && resp.hasNext then 1 + Requests(pages, page + 1, maxPages) else 1
  }

  /**
   * `GetPaginatedAsync(endpoint, extractor, maxPages)`: requests pages 1, 2, 3, ... and adds
   * each page's kept items, stopping after `maxPages` pages, at the first failed response or
   * after a page without a next one. Also returns the URLs it requested.
   */
  method GetPaginated<T>(endpoint: string, pages: seq<Page<T>>, keep: T -> bool, maxPages: int)
    returns (result: seq<T>, urls: seq<string>)
    ensures result == Collected(pages, keep, 1, maxPages)
    ensures urls == PageUrls(endpoint, Requests(pages, 1, maxPages))
  {
    result := [];
    urls := [];
    var page := 1;
    while page <= maxPages
      invariant 1 <= page
      invariant page - 1 <= if maxPages < 0 then 0 else maxPages
      invariant result + Collected(pages, keep, page, maxPages) == Collected(pages, keep, 1, maxPages)
      invariant urls == PageUrls(endpoint, page - 1)
      invariant page - 1 + Requests(pages, page, maxPages) == Requests(pages, 1, maxPages)
      decreases maxPages - page + 1
    {
      urls := urls + [PageUrl(endpoint, page)];
      var resp := PageAt(pages, page);
      if !resp.ok {
        assert result + [] == result;
        break;
      }
      var items := Filter(resp.items, keep);
      ghost var before := result;
      result := result + items;
      if !resp.hasNext {
        assert items + [] == items;
        break;
      }
      assert before + (items + Collected(pages, keep, page + 1, maxPages))
          == result + Collected(pages, keep, page + 1, maxPages);
      page := page + 1;
    }
  }

  /** At most `maxPages` pages are requested, and at least one when `maxPages >= 1`. */
  lemma {:induction false} RequestsBounded<T>(pages: seq<Page<T>>, page: int, maxPages: int)
    ensures Requests(pages, page, maxPages) <= if page > maxPages then 0 else maxPages - page + 1
    ensures page <= maxPages ==> Requests(pages, page, maxPages) >= 1
    decreases maxPages - page + 1
  {
    if page <= maxPages {
      RequestsBounded(pages, page + 1, maxPages);
    }
  }

  /** Every collected item satisfies `keep` and comes from a successful page among the first `maxPages`. */
  lemma {:induction false} CollectedFromPages<T>(pages: seq<Page<T>>, keep: T -> bool, page: int, maxPages: int, x: T)
    requires x in Collected(pages, keep, page, maxPages)
    ensures keep(x)
    ensures exists p :: page <= p <= maxPages && PageAt(pages, p).ok && x in PageAt(pages, p).items
    decreases maxPages - page + 1
  {
    var resp := PageAt(pages, page);
    if x in Filter(resp.items, keep) {
      assert page <= maxPages && PageAt(pages, page).ok && x in PageAt(pages, page).items;
    } else {
      CollectedFromPages(pages, keep, page + 1, maxPages, x);
    }
  }

  /** The kept items of a run of pages, in page order. */
  function AllKept<T>(ps: seq<Page<T>>, keep: T -> bool): seq<T> {
    if ps == [] then [] else Filter(ps[0].items, keep) + AllKept(ps[1..], keep)
  }

  /**
   * Over a run of successful pages that each announce a next one, the result is their kept
   * items in page order followed by what the rest of the pages give.
   */
  lemma {:induction false} CollectedThrough<T>(pages: seq<Page<T>>, keep: T -> bool, from: int, n: int, maxPages: int)
    requires 1 <= from <= n + 1 && n <= maxPages && from - 1 <= |pages|
    requires forall p :: from <= p <= n ==> PageAt(pages, p).ok && PageAt(pages, p).hasNext
    ensures n <= |pages|
    ensures Collected(pages, keep, from, maxPages) == AllKept(pages[from - 1..n], keep) + Collected(pages, keep, n + 1, maxPages)
    decreases n - from + 1
  {
    if from <= n {
      assert PageAt(pages, from).ok;
      CollectedThrough(pages, keep, from + 1, n, maxPages);
      assert PageAt(pages, n).ok;
      var ps := pages[from - 1..n];
      assert ps[0] == pages[from - 1] && ps[1..] == pages[from..n];
    } else {
      assert pages[from - 1..n] == [];
    }
  }

  /**
   * Where the loop stops: at a failed page the items of the earlier pages are kept; after a
   * page with no next one its own items are added and nothing more.
   */
  lemma StopsAfter<T>(pages: seq<Page<T>>, keep: T -> bool, n: int, maxPages: int)
    requires 0 <= n <= |pages| && n + 1 <= maxPages
    requires forall p :: 1 <= p <= n ==> PageAt(pages, p).ok && PageAt(pages, p).hasNext
    ensures !PageAt(pages, n + 1).ok ==> Collected(pages, keep, 1, maxPages) == AllKept(pages[..n], keep)
    ensures PageAt(pages, n + 1).ok && !PageAt(pages, n + 1).hasNext ==>
              Collected(pages, keep, 1, maxPages) == AllKept(pages[..n], keep) + Filter(pages[n].items, keep)
  {
    CollectedThrough(pages, keep, 1, n, maxPages);
    assert pages[0..n] == pages[..n];
  }

  // ---------------------------------------------------------------------------
  // The `since` filters (lines 177, 274)
  // ---------------------------------------------------------------------------

  /** `since == null || time >= since` */
  predicate SinceKeeps(since: Option<int>, time: int) {
    since.None? || time >= since.value
  }

  function SubmissionKeep(since: Option<int>): StepikSubmission -> bool {
    (s: StepikSubmission) => SinceKeeps(since, s.time)
  }

  function ReviewKeep(since: Option<int>): StepikReview -> bool {
    (r: StepikReview) => SinceKeeps(since, r.createDate)
  }

  // ---------------------------------------------------------------------------
  // The course structure walk (lines 189-242)
  // ---------------------------------------------------------------------------

  /** The answer of `lessons/{id}`. */
  datatype LessonResponse =
    | LessonUnavailable         // a failed request: `GetAsync` yields an undefined element
    | LessonEmpty               // no `lessons` array, or an empty one
    | LessonSteps(steps: seq<int>)

  /**
   * The answers of the structure endpoints: the course's section ids (`None` when the course
   * request failed or listed no course), a section's unit ids (`None` when the request failed
   * or listed no section), a unit's lesson id (`None` likewise; 0 when `lesson` is missing)
   * and a lesson's steps.
   */
  datatype CourseTree = CourseTree(
    sections: Option<seq<int>>,
    unitsOf: int -> Option<seq<int>>,
    lessonOf: int -> Option<int>,
    lessonOfId: int -> LessonResponse)

  const MaxSections: nat := 10
  const MaxUnits: nat := 10

  /** The steps one unit contributes, skipping units whose lesson cannot be read. */
  function UnitSteps(tree: CourseTree, unitId: int): seq<int> {
    match tree.lessonOf(unitId)
    case None => []
    case Some(lessonId) =>
      if lessonId <= 0 then []
      else
        match tree.lessonOfId(lessonId)
        case LessonSteps(steps) => steps
        case _ => []
  }

  /** The steps of the given units, in order. */
  function UnitsSteps(tree: CourseTree, unitIds: seq<int>): seq<int> {
    if unitIds == [] then [] else UnitsSteps(tree, unitIds[..|unitIds| - 1]) + UnitSteps(tree, unitIds[|unitIds| - 1])
  }

  /** The steps of one section: those of its first ten units. */
  function SectionSteps(tree: CourseTree, sectionId: int): seq<int> {
    match tree.unitsOf(sectionId)
    case None => []
    case Some(unitIds) => UnitsSteps(tree, Take(unitIds, MaxUnits))
  }

  function SectionsSteps(tree: CourseTree, sectionIds: seq<int>): seq<int> {
    if sectionIds == [] then []
    else SectionsSteps(tree, sectionIds[..|sectionIds| - 1]) + SectionSteps(tree, sectionIds[|sectionIds| - 1])
  }

  /** The step ids of the course: those of the first ten units of each of its first ten sections. */
  function CourseSteps(tree: CourseTree): seq<int> {
    match tree.sections
    case None => []
    case Some(sectionIds) => SectionsSteps(tree, Take(sectionIds, MaxSections))
  }

  /**
   * `GetCourseStepsAsync`: the nested walk over sections, units and lessons, appending each
   * lesson's steps in traversal order.
   */
  method GetCourseSteps(tree: CourseTree) returns (stepIds: seq<int>)
    ensures stepIds == CourseSteps(tree)
  {
    stepIds := [];
    if tree.sections.None? {
      return;
    }
    var sectionIds := Take(tree.sections.value, MaxSections);
    var i := 0;
    while i < |sectionIds|
      invariant 0 <= i <= |sectionIds|
      invariant stepIds == SectionsSteps(tree, sectionIds[..i])
    {
      var sectionId := sectionIds[i];
      assert SectionsSteps(tree, sectionIds[..i + 1]) == SectionsSteps(tree, sectionIds[..i]) + SectionSteps(tree, sectionId) by {
        assert sectionIds[..i + 1][..i] == sectionIds[..i];
      }
      var units := tree.unitsOf(sectionId);
      if units.Some? {
        var sectionSteps := UnitsLoop(tree, Take(units.value, MaxUnits));
        stepIds := stepIds + sectionSteps;
      }
      i := i + 1;
    }
    assert sectionIds[..i] == sectionIds;
  }

  /** The inner `foreach` over a section's first ten units. */
  method UnitsLoop(tree: CourseTree, unitIds: seq<int>) returns (stepIds: seq<int>)
    ensures stepIds == UnitsSteps(tree, unitIds)
  {
    stepIds := [];
    var j := 0;
    while j < |unitIds|
      invariant 0 <= j <= |unitIds|
      invariant stepIds == UnitsSteps(tree, unitIds[..j])
    {
      var unitId := unitIds[j];
      assert UnitsSteps(tree, unitIds[..j + 1]) == UnitsSteps(tree, unitIds[..j]) + UnitSteps(tree, unitId) by {
        assert unitIds[..j + 1][..j] == unitIds[..j];
      }
      var lesson := tree.lessonOf(unitId);
      if lesson.Some? && lesson.value > 0 {
        var lessonData := tree.lessonOfId(lesson.value);
        if lessonData.LessonSteps? {
          stepIds := stepIds + lessonData.steps;
        }
      }
      j := j + 1;
    }
    assert unitIds[..j] == unitIds;
  }

  /** Every step id of a unit list comes from the readable lesson, with a positive id, of one of them. */
  lemma {:induction false} UnitsStepsOrigin(tree: CourseTree, unitIds: seq<int>, x: int)
    requires x in UnitsSteps(tree, unitIds)
    ensures exists k :: 0 <= k < |unitIds| && x in UnitSteps(tree, unitIds[k])
  {
    var last := |unitIds| - 1;
    if x !in UnitSteps(tree, unitIds[last]) {
      UnitsStepsOrigin(tree, unitIds[..last], x);
      var k :| 0 <= k < last && x in UnitSteps(tree, unitIds[..last][k]);
      assert unitIds[..last][k] == unitIds[k];
    }
  }

  lemma {:induction false} SectionsStepsOrigin(tree: CourseTree, sectionIds: seq<int>, x: int)
    requires x in SectionsSteps(tree, sectionIds)
    ensures exists k :: 0 <= k < |sectionIds| && x in SectionSteps(tree, sectionIds[k])
  {
    var last := |sectionIds| - 1;
    if x !in SectionSteps(tree, sectionIds[last]) {
      SectionsStepsOrigin(tree, sectionIds[..last], x);
      var k :| 0 <= k < last && x in SectionSteps(tree, sectionIds[..last][k]);
      assert sectionIds[..last][k] == sectionIds[k];
    }
  }

  /**
   * The fan-out caps: every step id of the course belongs to a readable lesson with a positive
   * id, of one of the first ten units of one of the first ten sections.
   */
  lemma CourseStepsOrigin(tree: CourseTree, x: int)
    requires x in CourseSteps(tree)
    ensures tree.sections.Some?
    ensures exists i, j, l ::
              && 0 <= i < MaxSections && i < |tree.sections.value|
              && tree.unitsOf(tree.sections.value[i]).Some?
              && 0 <= j < MaxUnits && j < |tree.unitsOf(tree.sections.value[i]).value|
              && tree.lessonOf(tree.unitsOf(tree.sections.value[i]).value[j]) == Some(l)
              && l > 0 && tree.lessonOfId(l).LessonSteps? && x in tree.lessonOfId(l).steps
  {
    var secs := Take(tree.sections.value, MaxSections);
    SectionsStepsOrigin(tree, secs, x);
    var i :| 0 <= i < |secs| && x in SectionSteps(tree, secs[i]);
    var sid := secs[i];
    assert sid == tree.sections.value[i];
    var units := Take(tree.unitsOf(sid).value, MaxUnits);
    UnitsStepsOrigin(tree, units, x);
    var j :| 0 <= j < |units| && x in UnitSteps(tree, units[j]);
    assert units[j] == tree.unitsOf(sid).value[j];
    var l := tree.lessonOf(units[j]).value;
    assert tree.lessonOf(tree.unitsOf(tree.sections.value[i]).value[j]) == Some(l);
  }

  /**
   * The message of the parameterless `InvalidOperationException` that `TryGetProperty` throws
   * on a `default(JsonElement)`, which has no backing document.
   */
  const UndefinedElement: string := "Operation is not valid due to the current state of the object."

  /**
   * The walk as written: a failed lesson request leaves `lessonData` undefined, and
   * `TryGetProperty` on it throws, so the whole walk fails.
   */
  function UnitStepsAsWritten(tree: CourseTree, unitId: int): Result<seq<int>> {
    match tree.lessonOf(unitId)
    case None => Success([])
    case Some(lessonId) =>
      if lessonId <= 0 then Success([])
      else
        match tree.lessonOfId(lessonId)
        case LessonUnavailable => Failure(UndefinedElement)
        case LessonEmpty => Success([])
        case LessonSteps(steps) => Success(steps)
  }

  /** A unit list's walk as written: the first failure ends it. */
  function UnitsStepsAsWritten(tree: CourseTree, unitIds: seq<int>): (r: Result<seq<int>>)
    ensures r.Success? ==> r.value == UnitsSteps(tree, unitIds)
  {
    if unitIds == [] then Success([])
    else
      match UnitsStepsAsWritten(tree, unitIds[..|unitIds| - 1])
      case Failure(e) => Failure(e)
      case Success(before) =>
        match UnitStepsAsWritten(tree, unitIds[|unitIds| - 1])
        case Failure(e) => Failure(e)
        case Success(steps) => Success(before + steps)
  }

  function SectionsStepsAsWritten(tree: CourseTree, sectionIds: seq<int>): (r: Result<seq<int>>)
    ensures r.Success? ==> r.value == SectionsSteps(tree, sectionIds)
  {
    if sectionIds == [] then Success([])
    else
      match SectionsStepsAsWritten(tree, sectionIds[..|sectionIds| - 1])
      case Failure(e) => Failure(e)
      case Success(before) =>
        var sid := sectionIds[|sectionIds| - 1];
        match tree.unitsOf(sid)
        case None => Success(before)
        case Some(unitIds) =>
          match UnitsStepsAsWritten(tree, Take(unitIds, MaxUnits))
          case Failure(e) => Failure(e)
          case Success(steps) => Success(before + steps)
  }

  function CourseStepsAsWritten(tree: CourseTree): (r: Result<seq<int>>)
    ensures r.Success? ==> r.value == CourseSteps(tree)
  {
    match tree.sections
    case None => Success([])
    case Some(sectionIds) => SectionsStepsAsWritten(tree, Take(sectionIds, MaxSections))
  }

  /**
   * One unreadable lesson makes the walk as written fail altogether, where every other level
   * of the walk skips what it cannot read; the model's walk skips it and keeps the rest.
   */
  lemma UnavailableLessonAbortsWalk()
    ensures var tree := CourseTree(Some([1]), s => Some([7, 8]),
                                   u => if u == 7 then Some(3) else Some(4),
                                   l => if l == 3 then LessonUnavailable else LessonSteps([40, 41]));
            && CourseStepsAsWritten(tree).Failure?
            && CourseSteps(tree) == [40, 41]
  {
    var tree := CourseTree(Some([1]), s => Some([7, 8]),
                           u => if u == 7 then Some(3) else Some(4),
                           l => if l == 3 then LessonUnavailable else LessonSteps([40, 41]));
    assert tree.unitsOf(1) == Some([7, 8]);
    assert tree.lessonOf(7) == Some(3) && tree.lessonOf(8) == Some(4);
    assert tree.lessonOfId(3) == LessonUnavailable && tree.lessonOfId(4) == LessonSteps([40, 41]);
    TwoUnitWalk(tree);
  }

  /** The shape of the example above, for any tree that answers as it does. */
  lemma TwoUnitWalk(tree: CourseTree)
    requires tree.sections == Some([1]) && tree.unitsOf(1) == Some([7, 8])
    requires tree.lessonOf(7) == Some(3) && tree.lessonOf(8) == Some(4)
    requires tree.lessonOfId(3) == LessonUnavailable && tree.lessonOfId(4) == LessonSteps([40, 41])
    ensures CourseStepsAsWritten(tree).Failure?
    ensures CourseSteps(tree) == [40, 41]
  {
    ExampleIds();
    UnitOutcome(tree, 7);
    UnitOutcome(tree, 8);
    var units := Take(tree.unitsOf(1).value, MaxUnits);
    UnitsWalkLast(tree, units);
    UnitsWalkLast(tree, [7]);
    assert UnitsStepsAsWritten(tree, units).Failure?;
    assert UnitsSteps(tree, units) == [40, 41];
    var sections := Take(tree.sections.value, MaxSections);
    assert SectionsStepsAsWritten(tree, sections).Failure?;
    assert SectionsSteps(tree, sections) == [40, 41];
  }

  /** The id lists of the example, as the walk slices them. */
  lemma ExampleIds()
    ensures Take([7, 8], MaxUnits) == [7, 8] && [7, 8][..1] == [7] && [7][..0] == []
    ensures Take([1], MaxSections) == [1] && [1][..0] == []
  {
  }

  /** What one unit contributes: its lesson's steps, nothing when unreadable, failure as written when unavailable. */
  lemma UnitOutcome(tree: CourseTree, u: int)
    requires tree.lessonOf(u).Some? && tree.lessonOf(u).value > 0
    ensures tree.lessonOfId(tree.lessonOf(u).value).LessonUnavailable?
            ==> UnitStepsAsWritten(tree, u).Failure? && UnitSteps(tree, u) == []
    ensures tree.lessonOfId(tree.lessonOf(u).value).LessonSteps?
            ==> var steps := tree.lessonOfId(tree.lessonOf(u).value).steps;
                UnitStepsAsWritten(tree, u) == Success(steps) && UnitSteps(tree, u) == steps
  {
  }

  /** The last unit: the as-written walk fails if the prefix or the unit fails, and the model's walk appends. */
  lemma UnitsWalkLast(tree: CourseTree, unitIds: seq<int>)
    requires unitIds != []
    ensures var u := unitIds[|unitIds| - 1];
            UnitsSteps(tree, unitIds) == UnitsSteps(tree, unitIds[..|unitIds| - 1]) + UnitSteps(tree, u)
    ensures var u := unitIds[|unitIds| - 1];
            UnitsStepsAsWritten(tree, unitIds).Failure?
            <==> UnitsStepsAsWritten(tree, unitIds[..|unitIds| - 1]).Failure? || UnitStepsAsWritten(tree, u).Failure?
  {
  }

  // ---------------------------------------------------------------------------
  // Submissions (lines 156-187)
  // ---------------------------------------------------------------------------

  const MaxSteps: nat := 50
  const SubmissionPages: int := 5

  /** `$"submissions?step={stepId}&order=desc"` */
  function SubmissionsEndpoint(stepId: int): string {
    "submissions?step=" + IntToString(stepId) + "&order=desc"
  }

  /** The kept submissions of the given steps, step by step. */
  function StepsSubmissions(pagesOf: int -> seq<Page<StepikSubmission>>, since: Option<int>, stepIds: seq<int>): seq<StepikSubmission> {
    if stepIds == [] then []
    else
      StepsSubmissions(pagesOf, since, stepIds[..|stepIds| - 1])
      + Collected(pagesOf(stepIds[|stepIds| - 1]), SubmissionKeep(since), 1, SubmissionPages)
  }

  /** What `GetSubmissionsAsync` returns: the kept submissions of the course's first fifty steps. */
  function Submissions(tree: CourseTree, pagesOf: int -> seq<Page<StepikSubmission>>, since: Option<int>): seq<StepikSubmission> {
    StepsSubmissions(pagesOf, since, Take(CourseSteps(tree), MaxSteps))
  }

  /** The earliest time among some submissions. */
  function MinTime(subs: seq<StepikSubmission>): (m: int)
    requires |subs| > 0
    ensures exists i :: 0 <= i < |subs| && subs[i].time == m
    ensures forall i :: 0 <= i < |subs| ==> m <= subs[i].time
  {
    if |subs| == 1 then subs[0].time else Min(subs[0].time, MinTime(subs[1..]))
  }

  /** The early exit at line 182 cannot fire: the filter has already dropped everything before `since`. */
  lemma EarlyExitNeverFires(pages: seq<Page<StepikSubmission>>, since: Option<int>)
    ensures var subs := Collected(pages, SubmissionKeep(since), 1, SubmissionPages);
            !(since.Some? && |subs| > 0 && MinTime(subs) < since.value)
  {
    var subs := Collected(pages, SubmissionKeep(since), 1, SubmissionPages);
    if since.Some? && |subs| > 0 {
      var i :| 0 <= i < |subs| && subs[i].time == MinTime(subs);
      CollectedFromPages(pages, SubmissionKeep(since), 1, SubmissionPages, subs[i]);
    }
  }

  /** One more step adds that step's kept submissions at the end. */
  lemma StepsSubmissionsSnoc(pagesOf: int -> seq<Page<StepikSubmission>>, since: Option<int>, stepIds: seq<int>, i: int)
    requires 0 <= i < |stepIds|
    ensures StepsSubmissions(pagesOf, since, stepIds[..i + 1])
         == StepsSubmissions(pagesOf, since, stepIds[..i])
            + Collected(pagesOf(stepIds[i]), SubmissionKeep(since), 1, SubmissionPages)
  {
    assert stepIds[..i + 1][..i] == stepIds[..i];
  }

  /**
   * `GetSubmissionsAsync(courseId, since)`: walks the course, then fetches up to five pages of
   * submissions for each of the first fifty steps, keeping those at or after `since`.
   */
  method GetSubmissions(tree: CourseTree, pagesOf: int -> seq<Page<StepikSubmission>>, since: Option<int>)
    returns (allSubmissions: seq<StepikSubmission>)
    ensures allSubmissions == Submissions(tree, pagesOf, since)
  {
    var steps := GetCourseSteps(tree);
    allSubmissions := StepsLoop(Take(steps, MaxSteps), pagesOf, since);
  }

  /** The `foreach` over the step ids (lines 163-184). */
  method StepsLoop(stepIds: seq<int>, pagesOf: int -> seq<Page<StepikSubmission>>, since: Option<int>)
    returns (allSubmissions: seq<StepikSubmission>)
    ensures allSubmissions == StepsSubmissions(pagesOf, since, stepIds)
  {
    allSubmissions := [];
    var i := 0;
    while i < |stepIds|
      invariant 0 <= i <= |stepIds|
      invariant allSubmissions == StepsSubmissions(pagesOf, since, stepIds[..i])
    {
      var stepId := stepIds[i];
      StepsSubmissionsSnoc(pagesOf, since, stepIds, i);
      var submissions, _ := GetPaginated(SubmissionsEndpoint(stepId), pagesOf(stepId), SubmissionKeep(since), SubmissionPages);
      allSubmissions := allSubmissions + submissions;
      EarlyExitNeverFires(pagesOf(stepId), since);
      if since.Some? && |submissions| > 0 && MinTime(submissions) < since.value {
        break;
      }
      i := i + 1;
    }
    assert stepIds[..i] == stepIds;
  }

  /** Every returned submission is at or after `since` and belongs to one of the first fifty steps. */
  lemma {:induction false} StepsSubmissionsKept(pagesOf: int -> seq<Page<StepikSubmission>>, since: Option<int>, stepIds: seq<int>, s: StepikSubmission)
    requires s in StepsSubmissions(pagesOf, since, stepIds)
    ensures SinceKeeps(since, s.time)
    ensures exists k :: 0 <= k < |stepIds| && s in Collected(pagesOf(stepIds[k]), SubmissionKeep(since), 1, SubmissionPages)
  {
    var last := |stepIds| - 1;
    var tail := Collected(pagesOf(stepIds[last]), SubmissionKeep(since), 1, SubmissionPages);
    if s in tail {
      CollectedFromPages(pagesOf(stepIds[last]), SubmissionKeep(since), 1, SubmissionPages, s);
    } else {
      StepsSubmissionsKept(pagesOf, since, stepIds[..last], s);
      var k :| 0 <= k < last && s in Collected(pagesOf(stepIds[..last][k]), SubmissionKeep(since), 1, SubmissionPages);
      assert stepIds[..last][k] == stepIds[k];
    }
  }

  lemma SubmissionsKept(tree: CourseTree, pagesOf: int -> seq<Page<StepikSubmission>>, since: Option<int>, s: StepikSubmission)
    requires s in Submissions(tree, pagesOf, since)
    ensures SinceKeeps(since, s.time)
    ensures exists k :: 0 <= k < MaxSteps && k < |CourseSteps(tree)|
              && s in Collected(pagesOf(CourseSteps(tree)[k]), SubmissionKeep(since), 1, SubmissionPages)
  {
    var stepIds := Take(CourseSteps(tree), MaxSteps);
    StepsSubmissionsKept(pagesOf, since, stepIds, s);
    var k :| 0 <= k < |stepIds| && s in Collected(pagesOf(stepIds[k]), SubmissionKeep(since), 1, SubmissionPages);
    assert stepIds[k] == CourseSteps(tree)[k];
  }

  // ---------------------------------------------------------------------------
  // Reviews (lines 260-276)
  // ---------------------------------------------------------------------------

  const ReviewPages: int := 10

  /** `$"course-reviews?course={courseId}"` */
  function ReviewsEndpoint(courseId: int): (endpoint: string)
    ensures '?' in endpoint
  {
    var e := "course-reviews?course=" + IntToString(courseId);
    assert e[14] == '?';
    e
  }

  /**
   * `GetCourseReviewsAsync(courseId, since)`: up to ten pages of the course's reviews, keeping
   * those created at or after `since`.
   */
  method GetCourseReviews(courseId: int, pages: seq<Page<StepikReview>>, since: Option<int>)
    returns (reviews: seq<StepikReview>, urls: seq<string>)
    ensures reviews == Collected(pages, ReviewKeep(since), 1, ReviewPages)
    ensures forall r :: r in reviews ==> SinceKeeps(since, r.createDate)
    ensures |urls| <= ReviewPages
    ensures forall i :: 0 <= i < |urls| ==> urls[i] == ReviewsEndpoint(courseId) + "&page=" + NatToString(i + 1)
  {
    var endpoint := ReviewsEndpoint(courseId);
    reviews, urls := GetPaginated(endpoint, pages, ReviewKeep(since), ReviewPages);
    forall r | r in reviews
      ensures SinceKeeps(since, r.createDate)
    {
      CollectedFromPages(pages, ReviewKeep(since), 1, ReviewPages, r);
    }
    RequestsBounded(pages, 1, ReviewPages);
    forall i | 0 <= i < |urls|
      ensures urls[i] == endpoint + "&page=" + NatToString(i + 1)
    {
      PageUrlAfterQuery(endpoint, i + 1);
    }
  }
}
