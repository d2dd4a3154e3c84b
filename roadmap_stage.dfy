/**
 * The third stage, `create_learning_roadmap`: the numbered listing of the
 * selected courses, the optional profile line, and the reading of the
 * reply into a roadmap object or an error.
 */
module RoadmapStage {
  import opened Wrappers
  import opened Text
  import opened Courses
  import opened Client
  import opened Extract
  import opened Prompts

  /** The `{"error": message}` object the stage returns when it has no roadmap. */
  function ErrorObject(message: string): Json
  {
    JObject([("error", JString(message))])
  }

  const NoCoursesMessage: string := "No courses provided for roadmap creation"
  const NoRoadmapMessage: string := "Failed to create roadmap"
  const FailurePrefix: string := "Roadmap creation failed: "

  /** The prerequisites joined with `", "`, or `None` when that join is empty. */
  function PrerequisiteText(course: CourseSelection): string
  {
    var joined := Join(course.prerequisites.GetOr([]), ", ");
    if joined == "" then "None" else joined
  }

  /** The four lines of a course's block after its number, and the blank line that ends it. */
  function EntryBody(course: CourseSelection): string
  {
    ". Course: " + course.courseTitle.GetOr("Unknown") + "\n"
    + "   Department: " + course.department.GetOr("Unknown") + "\n"
    + "   Description: " + course.courseDescription.GetOr("No description") + "\n"
    + "   Prerequisites: " + PrerequisiteText(course) + "\n\n"
  }

  /** The block for the `n`-th course of the listing, counting from one. */
  function RoadmapEntry(n: nat, course: CourseSelection): string
  {
    Decimal(n) + EntryBody(course)
  }

  /** The listing of the courses, numbered from one in input order. */
  function RoadmapListing(courses: seq<CourseSelection>): string
  {
    if courses == [] then ""
    else RoadmapListing(courses[..|courses| - 1]) + RoadmapEntry(|courses|, courses[|courses| - 1])
  }

  /** `courses_text` as the loop builds it with `+=`. */
  method CoursesText(courses: seq<CourseSelection>) returns (text: string)
    ensures text == RoadmapListing(courses)
  {
    text := "";
    for i := 0 to |courses|
      invariant text == RoadmapListing(courses[..i])
    {
      assert courses[..i + 1][..i] == courses[..i];
      text := text + RoadmapEntry(i + 1, courses[i]);
    }
    assert courses[..|courses|] == courses;
  }

  /** `profile_text`: empty when no (or an empty) profile is given. */
  function ProfileText(profile: Option<string>): string
  {
    match profile
    case None => ""
    case Some(p) => "Student Profile Context: " + p
  }

  function RoadmapPromptFor(courses: seq<CourseSelection>, profile: Option<string>): Prompt
  {
    RoadmapPrompt(ProfileText(profile), RoadmapListing(courses))
  }

  /**
   * The value read from the completion `response`: the failure object
   * when there is no response, when it is empty or when it holds no
   * object; the decoder's error behind the failure prefix when the object
   * does not decode; the decoded value otherwise.
   */
  function RoadmapFromReply(response: Option<string>, decode: string -> Result<Json, string>): (r: Json)
    ensures response.None? || response == Some("") ==> r == ErrorObject(NoRoadmapMessage)
    ensures response.Some? && ExtractObject(response.value).None? ==> r == ErrorObject(NoRoadmapMessage)
    ensures response.Some? && response.value != "" && ExtractObject(response.value).Some? ==>
              match decode(ExtractObject(response.value).value)
              case Err(e) => r == ErrorObject(FailurePrefix + e)
              case Ok(v) => r == v
  {
    match response
    case None => ErrorObject(NoRoadmapMessage)
    case Some(text) =>
      if text == "" then ErrorObject(NoRoadmapMessage)
      else
        match ExtractObject(text)
        case None => ErrorObject(NoRoadmapMessage)
        case Some(region) =>
          match decode(region)
          case Err(e) => ErrorObject(FailurePrefix + e)
          case Ok(v) => v
  }

  /**
   * `create_learning_roadmap`. `calls` counts the calls to the service:
   * none for an empty course list.
   */
  method CreateLearningRoadmap(courses: seq<CourseSelection>, profile: Option<string>,
                               service: (Prompt, nat) -> Reply, decode: string -> Result<Json, string>)
    returns (roadmap: Json, calls: nat)
    ensures calls == 0 <==> courses == []
    ensures courses == [] ==> roadmap == ErrorObject(NoCoursesMessage)
    ensures courses != [] ==> roadmap == RoadmapFromReply(FirstAnswer(service, RoadmapPromptFor(courses, profile), 0, DefaultRetries), decode)
    ensures courses != [] ==> 1 <= calls <= DefaultRetries
  {
    if courses == [] {
      return ErrorObject(NoCoursesMessage), 0;
    }
    var text := CoursesText(courses);
    var response, attempts, _ := CallWithRetry(service, RoadmapPrompt(ProfileText(profile), text), DefaultRetries);
    roadmap, calls := RoadmapFromReply(response, decode), attempts;
  }

  /** The listing is the courses' entries, numbered `1, 2, ...` in input order. */
  lemma {:induction false} RoadmapListingNumbered(courses: seq<CourseSelection>)
    ensures RoadmapListing(courses)
         == Concat(seq(|courses|, k requires 0 <= k < |courses| => RoadmapEntry(k + 1, courses[k])))
  {
    if courses != [] {
      var n := |courses|;
      var init := courses[..n - 1];
      RoadmapListingNumbered(init);
      var before := seq(n - 1, k requires 0 <= k < n - 1 => RoadmapEntry(k + 1, init[k]));
      var entries := seq(n, k requires 0 <= k < n => RoadmapEntry(k + 1, courses[k]));
      var last := RoadmapEntry(n, courses[n - 1]);
      forall k | 0 <= k < n
        ensures entries[k] == (before + [last])[k]
      {
        if k < n - 1 {
          assert init[k] == courses[k];
        }
      }
      assert entries == before + [last];
      ConcatAppend(before, last);
    }
  }

  /** Each entry opens with its number, which reads back as that number and is followed by a period. */
  lemma EntryNumberReadsBack(n: nat, course: CourseSelection)
    ensures var e := RoadmapEntry(n, course); var d := |Decimal(n)|;
      d < |e| && e[d] == '.' && DecimalValue(e[..d]) == n
      && forall k :: 0 <= k < d ==> IsDigit(e[k])
  {
    var digits := Decimal(n);
    var body := EntryBody(course);
    assert body[0] == '.';
    var e := digits + body;
    assert e[..|digits|] == digits;
    assert e[|digits|] == body[0];
    DecimalRoundTrip(n);
  }

  /** A course without prerequisites, with an empty list of them, or with only an empty name, is listed with `None`. */
  lemma NoPrerequisitesListedAsNone(course: CourseSelection)
    requires course.prerequisites == None || course.prerequisites == Some([]) || course.prerequisites == Some([""])
    ensures PrerequisiteText(course) == "None"
  {
  }

  /** The prerequisites are listed as given, separated by `", "`. */
  lemma PrerequisitesListed(course: CourseSelection, first: string, more: seq<string>)
    requires course.prerequisites == Some([first] + more) && (first != "" || more != [])
    ensures PrerequisiteText(course) == Join([first] + more, ", ")
  {
    var ps := [first] + more;
    assert ps[0] == first;
    if |ps| > 1 {
      assert Join(ps, ", ") == first + ", " + Join(ps[1..], ", ");
    } else {
      assert Join(ps, ", ") == first;
    }
  }

  /**
   * A reply whose object decodes to the empty-input error returns that same
   * value after a call: the value alone does not tell whether a call was
   * made, only `calls` does.
   */
  lemma RepliedErrorMatchesEmptyInput(prose: string, body: string, tail: string, decode: string -> Result<Json, string>)
    requires forall k :: 0 <= k < |prose| ==> prose[k] != '{'
    requires forall k :: 0 <= k < |tail| ==> tail[k] != '}'
    requires decode("{" + body + "}") == Ok(ErrorObject(NoCoursesMessage))
    ensures RoadmapFromReply(Some(prose + "{" + body + "}" + tail), decode) == ErrorObject(NoCoursesMessage)
  {
    RoadmapReadWhole(prose, body, tail, decode, ErrorObject(NoCoursesMessage));
  }

  /** The roadmap object is read whole from a reply, nested objects included. */
  lemma RoadmapReadWhole(prose: string, body: string, tail: string, decode: string -> Result<Json, string>, v: Json)
    requires forall k :: 0 <= k < |prose| ==> prose[k] != '{'
    requires forall k :: 0 <= k < |tail| ==> tail[k] != '}'
    requires decode("{" + body + "}") == Ok(v)
    ensures RoadmapFromReply(Some(prose + "{" + body + "}" + tail), decode) == v
  {
    WholeObjectIsFound(prose, body, tail);
    assert |prose + "{" + body + "}" + tail| >= 2;
  }
}
