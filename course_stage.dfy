/**
 * The second stage, `select_courses_with_prerequisites`: for each picked
 * department in turn, read its course file, show its first fifty courses
 * to the completion service and collect the selections of the reply.
 */
module CourseStage {
  import opened Wrappers
  import opened Text
  import opened Courses
  import opened Client
  import opened Extract
  import opened Prompts
  import Partition

  /** `department_courses[:50]`: the number of courses shown in a course prompt. */
  const CourseLimit: nat := 50

  /** The file `_load_department_courses` reads for a department. */
  function DepartmentFile(department: string): string
  {
    "departments/" + department + ".json"
  }

  /** `_load_department_courses`: the file's records, `[]` when it is missing or does not decode. */
  function LoadDepartmentCourses(files: string -> LoadResult, department: string): seq<CourseRecord>
  {
    match files(DepartmentFile(department))
    case Loaded(courses) => courses
    case _ => []
  }

  function CourseLine(course: CourseRecord): string
  {
    "- " + course.title.GetOr("No Title") + ": " + course.shortDescription.GetOr("No Description")
  }

  /** The lines of the course prompt: one per course, for the first fifty courses. */
  function CourseLines(courses: seq<CourseRecord>): (r: seq<string>)
    ensures |r| == if |courses| <= CourseLimit then |courses| else CourseLimit
  {
    var shown := Take(courses, CourseLimit);
    seq(|shown|, i requires 0 <= i < |shown| => CourseLine(shown[i]))
  }

  /** `courses_text`. */
  function CourseListing(courses: seq<CourseRecord>): string
  {
    Join(CourseLines(courses), "\n")
  }

  function CoursePromptFor(department: string, profile: Profile, courses: seq<CourseRecord>): Prompt
  {
    CoursePrompt(department, profile.advisorDescription, profile.conversationTranscript,
                 SkillsText(profile.skillLevels), CourseListing(courses))
  }

  /**
   * The courses one reply adds: nothing when there is no response, when it
   * is empty, when it holds no array or when the array does not decode.
   */
  function CoursesFromReply(response: Option<string>, decode: string -> Option<seq<CourseSelection>>): (r: seq<CourseSelection>)
    ensures response.None? || response == Some("") ==> r == []
    ensures response.Some? && ExtractArray(response.value).None? ==> r == []
    ensures response.Some? && ExtractArray(response.value).Some? && decode(ExtractArray(response.value).value).None? ==> r == []
  {
    match response
    case None => []
    case Some(text) =>
      if text == "" then []
      else
        match ExtractArray(text)
        case None => []
        case Some(region) =>
          match decode(region)
          case None => []
          case Some(selected) => selected
  }

  /** What one department adds: nothing, and no call, when its file yields no courses. */
  function Contribution(department: string, profile: Profile, files: string -> LoadResult,
                        service: (Prompt, nat) -> Reply, decode: string -> Option<seq<CourseSelection>>): seq<CourseSelection>
  {
    var courses := LoadDepartmentCourses(files, department);
    if courses == [] then []
    else CoursesFromReply(FirstAnswer(service, CoursePromptFor(department, profile, courses), 0, DefaultRetries), decode)
  }

  /** The per-department contributions as one function of the department. */
  function ContributionOf(profile: Profile, files: string -> LoadResult,
                          service: (Prompt, nat) -> Reply, decode: string -> Option<seq<CourseSelection>>): string -> seq<CourseSelection>
  {
    d => Contribution(d, profile, files, service, decode)
  }

  /** The concatenation of `f(x)` over `xs`, in order. */
  function FlatMap<X, Y>(xs: seq<X>, f: X -> seq<Y>): seq<Y>
  {
    if xs == [] then [] else FlatMap(xs[..|xs| - 1], f) + f(xs[|xs| - 1])
  }

  /** The selections of the departments, department by department. */
  function Selected(departments: seq<string>, profile: Profile, files: string -> LoadResult,
                    service: (Prompt, nat) -> Reply, decode: string -> Option<seq<CourseSelection>>): seq<CourseSelection>
  {
    FlatMap(departments, ContributionOf(profile, files, service, decode))
  }

  /** `select_courses_with_prerequisites`. */
  method SelectCoursesWithPrerequisites(departments: seq<string>, profile: Profile, files: string -> LoadResult,
                                        service: (Prompt, nat) -> Reply, decode: string -> Option<seq<CourseSelection>>)
    returns (selected: seq<CourseSelection>)
    ensures selected == Selected(departments, profile, files, service, decode)
  {
    ghost var contribution := ContributionOf(profile, files, service, decode);
    selected := [];
    for i := 0 to |departments|
      invariant selected == FlatMap(departments[..i], contribution)
    {
      assert departments[..i + 1][..i] == departments[..i];
      var department := departments[i];
      assert contribution(department) == Contribution(department, profile, files, service, decode);
      var courses := LoadDepartmentCourses(files, department);
      if courses == [] {
        continue;
      }
      var response, _, _ := CallWithRetry(service, CoursePromptFor(department, profile, courses), DefaultRetries);
      selected := selected + CoursesFromReply(response, decode);
    }
    assert departments[..|departments|] == departments;
  }

  lemma {:induction false} FlatMapAppend<X, Y>(a: seq<X>, b: seq<X>, f: X -> seq<Y>)
    ensures FlatMap(a + b, f) == FlatMap(a, f) + FlatMap(b, f)
    decreases |b|
  {
    if b == [] {
      assert a + b == a;
    } else {
      var b' := b[..|b| - 1];
      assert (a + b)[..|a + b| - 1] == a + b';
      assert (a + b)[|a + b| - 1] == b[|b| - 1];
      FlatMapAppend(a, b', f);
    }
  }

  lemma {:induction false} FlatMapMember<X, Y>(xs: seq<X>, f: X -> seq<Y>, y: Y)
    requires y in FlatMap(xs, f)
    ensures exists k :: 0 <= k < |xs| && y in f(xs[k])
  {
    var n := |xs|;
    if y !in f(xs[n - 1]) {
      FlatMapMember(xs[..n - 1], f, y);
      var k :| 0 <= k < n - 1 && y in f(xs[..n - 1][k]);
      assert xs[..n - 1][k] == xs[k];
    }
  }

  /** Running the stage on two lists of departments in turn gives the selections of both, in order. */
  lemma SelectedAppend(a: seq<string>, b: seq<string>, profile: Profile, files: string -> LoadResult,
                       service: (Prompt, nat) -> Reply, decode: string -> Option<seq<CourseSelection>>)
    ensures Selected(a + b, profile, files, service, decode)
         == Selected(a, profile, files, service, decode) + Selected(b, profile, files, service, decode)
  {
    FlatMapAppend(a, b, ContributionOf(profile, files, service, decode));
  }

  /** Every selection comes from the reply for one of the departments. */
  lemma SelectedComesFromDepartment(departments: seq<string>, profile: Profile, files: string -> LoadResult,
                                    service: (Prompt, nat) -> Reply, decode: string -> Option<seq<CourseSelection>>,
                                    c: CourseSelection)
    requires c in Selected(departments, profile, files, service, decode)
    ensures exists k :: 0 <= k < |departments| && c in Contribution(departments[k], profile, files, service, decode)
  {
    var f := ContributionOf(profile, files, service, decode);
    FlatMapMember(departments, f, c);
    var k :| 0 <= k < |departments| && c in f(departments[k]);
    assert f(departments[k]) == Contribution(departments[k], profile, files, service, decode);
  }

  lemma FlatMapSkip<X, Y>(a: seq<X>, x: X, b: seq<X>, f: X -> seq<Y>)
    requires f(x) == []
    ensures FlatMap(a + [x] + b, f) == FlatMap(a, f) + FlatMap(b, f)
  {
    var ax := a + [x];
    FlatMapAppend(ax, b, f);
    assert ax[..|ax| - 1] == a && ax[|ax| - 1] == x;
    assert FlatMap(ax, f) == FlatMap(a, f) + f(x);
    assert FlatMap(ax, f) == FlatMap(a, f);
  }

  /** A department that contributes nothing drops out of the result. */
  lemma SkipSilentDepartment(a: seq<string>, d: string, b: seq<string>, profile: Profile, files: string -> LoadResult,
                             service: (Prompt, nat) -> Reply, decode: string -> Option<seq<CourseSelection>>)
    requires Contribution(d, profile, files, service, decode) == []
    ensures Selected(a + [d] + b, profile, files, service, decode)
         == Selected(a, profile, files, service, decode) + Selected(b, profile, files, service, decode)
  {
    var f := ContributionOf(profile, files, service, decode);
    assert f(d) == [];
    FlatMapSkip(a, d, b, f);
  }

  /**
   * A department whose file is missing, does not decode or is empty is
   * skipped: the result is that of the other departments.
   */
  lemma MissingDepartmentIsSkipped(a: seq<string>, d: string, b: seq<string>, profile: Profile, files: string -> LoadResult,
                                   service: (Prompt, nat) -> Reply, decode: string -> Option<seq<CourseSelection>>)
    requires !files(DepartmentFile(d)).Loaded? || files(DepartmentFile(d)).courses == []
    ensures Selected(a + [d] + b, profile, files, service, decode)
         == Selected(a, profile, files, service, decode) + Selected(b, profile, files, service, decode)
  {
    SkipSilentDepartment(a, d, b, profile, files, service, decode);
  }

  /** A department whose every call fails contributes nothing. */
  lemma FailingDepartmentIsSkipped(a: seq<string>, d: string, b: seq<string>, profile: Profile, files: string -> LoadResult,
                                   service: (Prompt, nat) -> Reply, decode: string -> Option<seq<CourseSelection>>)
    requires FailsBefore(service, CoursePromptFor(d, profile, LoadDepartmentCourses(files, d)), DefaultRetries)
    ensures Selected(a + [d] + b, profile, files, service, decode)
         == Selected(a, profile, files, service, decode) + Selected(b, profile, files, service, decode)
  {
    FirstAnswerNone(service, CoursePromptFor(d, profile, LoadDepartmentCourses(files, d)), 0, DefaultRetries);
    SkipSilentDepartment(a, d, b, profile, files, service, decode);
  }

  /**
   * A department whose reply holds no array, or whose array does not
   * decode, contributes nothing and the loop goes on.
   */
  lemma UndecodableDepartmentIsSkipped(a: seq<string>, d: string, b: seq<string>, profile: Profile, files: string -> LoadResult,
                                       service: (Prompt, nat) -> Reply, decode: string -> Option<seq<CourseSelection>>)
    requires var reply := FirstAnswer(service, CoursePromptFor(d, profile, LoadDepartmentCourses(files, d)), 0, DefaultRetries);
      reply.Some? && (ExtractArray(reply.value).None? || decode(ExtractArray(reply.value).value).None?)
    ensures Selected(a + [d] + b, profile, files, service, decode)
         == Selected(a, profile, files, service, decode) + Selected(b, profile, files, service, decode)
  {
    SkipSilentDepartment(a, d, b, profile, files, service, decode);
  }

  /**
   * The course prompt lists the first fifty courses, one line each, in
   * file order, when no title or description holds a newline.
   */
  lemma CourseListingLines(courses: seq<CourseRecord>)
    requires courses != []
    requires forall i :: 0 <= i < |courses| ==> '\n' !in courses[i].title.GetOr("No Title")
                                                && '\n' !in courses[i].shortDescription.GetOr("No Description")
    ensures SplitOn(CourseListing(courses), '\n') == CourseLines(courses)
    ensures forall i :: 0 <= i < |CourseLines(courses)| ==> CourseLines(courses)[i] == CourseLine(courses[i])
  {
    var shown := Take(courses, CourseLimit);
    var lines := CourseLines(courses);
    forall i | 0 <= i < |lines|
      ensures lines[i] == CourseLine(courses[i]) && '\n' !in lines[i]
    {
      assert shown[i] == courses[i];
      assert lines[i] == "- " + courses[i].title.GetOr("No Title") + ": " + courses[i].shortDescription.GetOr("No Description");
    }
    LinesReadBack(lines);
  }

  /** Courses after the fiftieth never reach the prompt. */
  lemma CourseListingIgnoresTail(courses: seq<CourseRecord>, more: seq<CourseRecord>)
    requires |courses| >= CourseLimit
    ensures CourseListing(courses + more) == CourseListing(courses)
  {
    assert Take(courses + more, CourseLimit) == Take(courses, CourseLimit);
  }

  lemma LoaderPath(key: string)
    requires '/' !in key
    ensures Partition.GroupPath("departments", key) == DepartmentFile(key)
  {
    assert (key + ".json")[0] != '/' by {
      if key != [] {
        assert (key + ".json")[0] == key[0];
      }
    }
    assert "departments"[10] != '/';
  }

  /**
   * The partitioner writes each group to the file this stage reads for a
   * department of the same name, when it writes into `departments`.
   */
  lemma WrittenGroupIsLoaded(courses: seq<CourseRecord>, key: string)
    requires Partition.Group(courses, key) != []
    ensures Partition.GroupPath("departments", key) == DepartmentFile(key)
  {
    Partition.GroupPathInDirectory(courses, "departments", key);
    LoaderPath(key);
  }

  /**
   * When every file of the partitioner's plan for `departments` holds its
   * group, this stage loads, for each department that has courses, exactly
   * the courses the partitioner grouped under it.
   */
  lemma PartitionedGroupIsLoaded(courses: seq<CourseRecord>, plan: seq<Partition.GroupFile>,
                                 files: string -> LoadResult, key: string)
    requires forall k :: 0 <= k < |plan| ==>
               plan[k].path == Partition.GroupPath("departments", plan[k].department)
               && plan[k].courses == Partition.Group(courses, plan[k].department)
    requires forall d :: d in Partition.Departments(plan) <==> Partition.Group(courses, d) != []
    requires forall k :: 0 <= k < |plan| ==> files(plan[k].path) == Loaded(plan[k].courses)
    requires Partition.Group(courses, key) != []
    ensures LoadDepartmentCourses(files, key) == Partition.Group(courses, key)
  {
    var names := Partition.Departments(plan);
    assert key in names;
    var k :| 0 <= k < |names| && names[k] == key;
    assert plan[k].department == key;
    WrittenGroupIsLoaded(courses, key);
    assert files(DepartmentFile(key)) == Loaded(Partition.Group(courses, key));
  }
}
