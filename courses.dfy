/**
 * The records that flow through the system: course records read from the
 * corpus, the JSON values a model reply is parsed into, the course
 * selections of the second stage, and the outcome of reading a JSON file.
 */
module Courses {
  import opened Wrappers

  /**
   * A course record of the corpus. A missing key reads as `None`;
   * `departmentNames` is `[]` when `department_name` is missing, null or
   * an empty list (all three are falsy to the source).
   */
  datatype CourseRecord = CourseRecord(
    title: Option<string>,
    shortDescription: Option<string>,
    departmentNames: seq<string>)

  /** The outcome of `json.load` on a file of course records. */
  datatype LoadResult =
    | Loaded(courses: seq<CourseRecord>)
    | FileNotFound
    | MalformedJson

  /** A parsed JSON value. */
  datatype Json =
    | JNull
    | JBool(b: bool)
    | JNumber(literal: string)
    | JString(s: string)
    | JArray(items: seq<Json>)
    | JObject(members: seq<(string, Json)>)
  {
    /** Lists and dicts are unhashable in Python: `x in some_dict` raises for them. */
    predicate IsHashable()
    {
      !JArray? && !JObject?
    }
  }

  /** One course chosen in the second stage; a missing key reads as `None`. */
  datatype CourseSelection = CourseSelection(
    courseTitle: Option<string>,
    courseDescription: Option<string>,
    department: Option<string>,
    prerequisites: Option<seq<string>>)
}
