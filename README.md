# Course recommender: deterministic core

The system recommends university departments and courses to a student, then
orders the chosen courses into a learning roadmap. All the reasoning is done
by a text-completion service. This project models what stays deterministic
once that service and the file system become parameters.

The partitioner (`Split_initial_Json.py`) has three parts:

- `clean_filename` turns a department name into a safe file name. It masks
  the characters `<>:"/\|?*`, strips outer whitespace, turns spaces into
  `_` and collapses runs of `_` (module `Filenames`).
- The grouping loop of `split_courses_by_department` appends each course to
  the group of every cleaned department name it lists. A course with no
  department goes to `Others` (module `Partition`). The files the loop
  writes are modelled as a write plan of department, path and courses.
- `get_all_departments` returns the sorted set of raw department names
  (modules `Partition` and `StringOrder`).

The recommender (`course_recommender.py`) has five parts:

- The completion client `_call_claude_api` retries with exponential backoff
  (module `Client`). The service is a function of the prompt and the
  attempt number, so each call's run of successes and failures can be
  scripted; two calls with the same prompt are scripted alike. The sleeps
  are returned as a list of delays.
- The two reply extractors are the lazy `\[.*?\]` and the greedy `\{.*\}`,
  searched with `re.DOTALL` (module `Extract`). Each is proved equal to the
  leftmost-shortest or leftmost-longest bracketed substring.
- Stage 1, `select_departments`: the department catalogue, the filter of the
  reply to catalogue names, and the cut to three (module `DepartmentStage`).
- Stage 2, `select_courses_with_prerequisites`: the department loader, the
  50-course listing, and the per-department accumulation loop (module
  `CourseStage`).
- Stage 3, `create_learning_roadmap`: the empty-input guard, the numbered
  course listing and the reading of the reply object (module `RoadmapStage`).

Shared modules:

- `Wrappers` holds Option and Result.
- `Text` holds join, split, decimal numerals and prefix take.
- `Courses` holds the course records and a JSON value type.
- `Prompts` holds the student profile, the skills listing and the three
  prompt shapes.

Each JSON decoder is an abstract function that may fail. Each prompt is a
datatype holding the parts the code fills into it (the skills and course
listings, the catalogue listing, the profile texts), not the prose around
them.

Points where the code does less than, or other than, one might expect:

- Stage 1 can return no department at all, although the docstring of
  `select_departments` (course_recommender.py:92) promises one to three.
- The client does not sleep after its last failed attempt.
- The object extractor is one greedy pattern. It simply runs from the first
  `{` to the last `}`, whatever braces lie between.
- `clean_filename` masks, strips, turns spaces into `_`, then collapses, in
  that order.
- Every stage-3 outcome, the errors included, is a plain dictionary. A reply
  that decodes to `{"error": "No courses provided for roadmap creation"}`
  gives the same value as the empty-input guard.

In the Python code, a course whose `department_name` lists the same cleaned
name twice is appended twice to that group. The model keeps this, and the
total number of appended entries is the sum over courses of max(1, k), where
k is the number of listed names.

## Model

| member | source | states |
|---|---|---|
| Filenames.CleanFilename | Split_initial_Json.py:71-93 | the loops over the forbidden characters and over `__` compute `Cleaned(filename)`: masking, strip, spaces to `_`, collapse |
| Filenames.StripLeft | Split_initial_Json.py:87 | `lstrip` keeps a suffix of the input, and that suffix does not start with whitespace |
| Filenames.StripRight | Split_initial_Json.py:87 | `rstrip` keeps a prefix of the input, and that prefix does not end with whitespace |
| Filenames.Strip | Split_initial_Json.py:87 | the stripped string is empty or starts and ends with a non-space |
| Filenames.StripLeftRemovesSpace | Split_initial_Json.py:87 | everything `lstrip` removes, before the kept suffix, is whitespace |
| Filenames.StripRightRemovesSpace | Split_initial_Json.py:87 | everything `rstrip` removes, after the kept prefix, is whitespace |
| Filenames.StripIsSlice | Split_initial_Json.py:87 | `strip()` returns a contiguous slice of its input with only whitespace before and after it |
| Filenames.StripKeepsValid | Split_initial_Json.py:82-87 | stripping a string free of `<>:"/\|?*` keeps it free of them |
| Filenames.SafeIsUnchanged | Split_initial_Json.py:82-87 | masking and the space replacement leave a string of safe characters unchanged |
| Filenames.ReplaceDouble | Split_initial_Json.py:90-91 | one `replace('__', '_')` pass keeps the first character and is strictly shorter when the string holds `__`, so the loop terminates |
| Filenames.CollapseUnderscores | Split_initial_Json.py:90-91 | the collapse loop never lengthens the string and keeps its first and last characters |
| Filenames.CollapseHasNoDouble | Split_initial_Json.py:90-91 | after the collapse loop the string holds no `__` |
| Filenames.CollapseKeepsChars | Split_initial_Json.py:90-91 | the collapse loop introduces no character that was not in its input |
| Filenames.CollapseAfterReplace | Split_initial_Json.py:90-91 | one replacement pass followed by the loop equals the loop alone |
| Filenames.CollapseWithoutDouble | Split_initial_Json.py:90-91 | a string without `__` is left unchanged by the loop |
| Filenames.MaskedHasNoInvalid | Split_initial_Json.py:82-84 | after masking, none of `<>:"/\|?*` remains |
| Filenames.SpacedIsSafe | Split_initial_Json.py:82-87 | after masking, stripping and replacing spaces, no forbidden character and no space remains |
| Filenames.CleanedIsSafe | Split_initial_Json.py:82-93 | the cleaned name holds no forbidden character, no space and no `__`, and has no leading or trailing whitespace |
| Filenames.StripWithoutEdgeSpace | Split_initial_Json.py:87 | strip leaves a string that has no whitespace at either end unchanged |
| Filenames.CleanedIdempotent | Split_initial_Json.py:82-93 | cleaning a cleaned name changes nothing |
| Filenames.CleanedExample | Split_initial_Json.py:82-93 | `C/D:E` is cleaned to `C_D_E` |
| Partition.AppendToGroup | Split_initial_Json.py:46 | `departments[key].append(course)`: group `key` grows by the course, every other group is unchanged, a new key joins the insertion order, total size grows by one |
| Partition.AddToEachName | Split_initial_Json.py:43-46 | the inner loop appends the course to each group once per listed name that cleans to its key, and total size grows by the number of names |
| Partition.AddCourse | Split_initial_Json.py:36-46 | one course is appended to `Others` if it lists no department, otherwise once per matching cleaned name; the insertion order stays duplicate-free and covers the keys |
| Partition.GroupByDepartment | Split_initial_Json.py:31-46 | every group equals the reference `Group` (input order, each course repeated by its multiplicity); exactly the non-empty groups are keys; the order is duplicate-free; total size is the sum of max(1, k) over courses |
| Partition.GroupKeepsInputOrder | Split_initial_Json.py:34-46 | each group is the input restricted to a non-decreasing sequence of positions, so relative input order is kept |
| Partition.GroupOccurrences | Split_initial_Json.py:34-46 | input position i occurs in group `key` exactly as often as course i is appended to it |
| Partition.PositionsCount | Split_initial_Json.py:34-46 | in the list of positions each repeated by its count, position i occurs exactly its count times |
| Partition.UnassignedCourseGoesToOthers | Split_initial_Json.py:36-40 | a course with no department occurs exactly once in `Others` and in no other group |
| Partition.AssignedCourseOccurrences | Split_initial_Json.py:42-46 | a course listing names occurs in group `key` once for each of its names that cleans to `key`, twice if two names clean alike |
| Partition.GroupKeyOrigin | Split_initial_Json.py:39-46 | every non-empty group's key is `Others` or the cleaned form of a name that some input course lists |
| Partition.GroupKeyIsSafe | Split_initial_Json.py:45-46 | every non-empty group's key consists of safe characters only |
| Partition.GroupPathInDirectory | Split_initial_Json.py:50 | `os.path.join(directory, key + ".json")` stays inside the directory: the key holds no `/`, and the path is the directory followed by an optional separator and the file name |
| Partition.WriteGroups | Split_initial_Json.py:49-54 | the write loop emits one file per entry of the key list it walks, in that list's order, with that key's path and courses |
| Partition.PlanFilesShape | Split_initial_Json.py:49-54 | the write plan has one entry per key, and entry k names key k, its path and its group |
| Partition.PlanFilesTotal | Split_initial_Json.py:49-56 | the courses written add up to the total size of the groups |
| Partition.SplitCoursesByDepartment | Split_initial_Json.py:20-54 | a missing or malformed input writes nothing; otherwise one file per non-empty group with no department twice, each holding exactly its group at its path, with the sum of max(1, k) courses in all |
| Partition.NameSet | Split_initial_Json.py:118 | `set.update` with a list adds exactly the listed names |
| Partition.RawNamesListed | Split_initial_Json.py:113-118 | a name is collected iff some course lists it raw, so a course without departments contributes nothing and `Others` is not added |
| Partition.GetAllDepartments | Split_initial_Json.py:106-120 | a missing or malformed input gives `[]`; otherwise a strictly sorted list holding exactly the collected raw names, one each |
| StringOrder.LessIrreflexive | Split_initial_Json.py:120 | Python's string order, modelled on code points, is irreflexive |
| StringOrder.LessTransitive | Split_initial_Json.py:120 | the string order is transitive |
| StringOrder.LessTotal | Split_initial_Json.py:120 | any two different strings are ordered one way or the other |
| StringOrder.StrictlySortedIsDistinct | Split_initial_Json.py:120 | a strictly sorted list has no duplicates |
| StringOrder.Insert | Split_initial_Json.py:120 | inserting a new name into a strictly sorted list keeps it strictly sorted and adds exactly that name |
| StringOrder.SortedList | Split_initial_Json.py:120 | `sorted(list(s))` is strictly sorted, as long as the set, and holds exactly its elements |
| Client.FirstAnswerIsFirstSuccess | course_recommender.py:63-71 | when attempt i is the first success, its text is the answer |
| Client.FirstAnswerNone | course_recommender.py:63-79 | there is no answer iff every attempt fails |
| Client.CallWithRetry | course_recommender.py:61-79 | the reply is the first success; on success, attempts is the successful attempt's number plus one, at most `max_retries`, and every earlier attempt failed; on failure exactly `max_retries` attempts are made (none if it is not positive); the sleeps are `2^0 .. 2^(n-1)` for the n failures before the last attempt |
| Client.BackoffDoubles | course_recommender.py:74-75 | the delays start at 1, each doubles the one before, and they strictly increase |
| Client.Pow2Increasing | course_recommender.py:75 | `2 ** attempt` strictly increases with the attempt |
| Client.RecoversAfterFailures | course_recommender.py:63-78 | a service that fails k times and then succeeds, with k below `max_retries`, yields that success |
| Extract.IndexOf | course_recommender.py:135 | the first occurrence of a character at or after a position, or none |
| Extract.LastIndexOf | course_recommender.py:333 | the last occurrence of a character, or none |
| Extract.ArraySpanIsLazySearch | course_recommender.py:135 | `\[.*?\]` matches iff some substring starts with `[` and ends with `]`; the match starts at the leftmost such position and is the shortest from there |
| Extract.FlatArrayIsFound | course_recommender.py:239 | after prose without `[`, an array without `]` is extracted exactly |
| Extract.NestedArrayIsCut | course_recommender.py:239 | in a reply with nested arrays the extracted text ends at the first inner `]` |
| Extract.ObjectSpanIsGreedySearch | course_recommender.py:333 | `\{.*\}` matches iff some substring starts with `{` and ends with `}`; the match starts at the leftmost such position and is the longest from there |
| Extract.WholeObjectIsFound | course_recommender.py:333 | the text from the first `{` to the last `}` is extracted, whatever braces lie between |
| Extract.LastIndexOfIsLast | course_recommender.py:333 | a `}` followed by no other `}` is the last one |
| Prompts.SkillLines | course_recommender.py:95 | line i is `- ` + name + `: ` + level of skill i, one line per skill |
| Prompts.SkillsTextLines | course_recommender.py:95 | splitting the skills text at newlines gives back the skill lines |
| Text.Decimal | course_recommender.py:269 | a course number is written as a non-empty digit string without a leading zero, unless it is zero |
| Text.DecimalRoundTrip | course_recommender.py:269 | reading a written number back gives the number |
| Text.DecimalInjective | course_recommender.py:269 | different numbers are written differently |
| Text.Take | course_recommender.py:141 | a slice `[:n]` is a prefix of length min(length, n) |
| DepartmentStage.CatalogContents | course_recommender.py:20-59 | the catalogue has 38 departments, including Mathematics, Physics, Electrical_Engineering_and_Computer_Science and Others |
| DepartmentStage.ValidDepartments | course_recommender.py:139 | the filter keeps only catalogue names and never grows the list |
| DepartmentStage.ValidDepartmentsAppend | course_recommender.py:139 | the filter distributes over concatenation, so order is kept |
| DepartmentStage.ValidDepartmentsCount | course_recommender.py:139 | a name occurs in the filtered list as often as in the reply if it is in the catalogue, and never otherwise, so duplicates are kept |
| DepartmentStage.DepartmentsFromReply | course_recommender.py:132-148 | at most three catalogue names; `[]` for no reply, an empty reply, no array or an array that does not decode |
| DepartmentStage.DepartmentsAreFirstValid | course_recommender.py:139-141 | a decoded array of hashable items gives a prefix of the filtered names, of length min(3, their number) |
| DepartmentStage.UnhashableItemGivesNothing | course_recommender.py:137-148 | an item that is a list or an object makes the membership test raise, and the stage returns `[]` |
| DepartmentStage.ReplyWithUnknownName | course_recommender.py:135-141 | a reply listing a known, an unknown and a known name gives the two known names in order |
| DepartmentStage.SelectDepartments | course_recommender.py:130-148 | the result is the reading of the first successful completion, has at most three names, and each is a catalogue key |
| CourseStage.CourseLines | course_recommender.py:191-194 | one line per course, for at most the first 50 courses |
| CourseStage.CourseListingLines | course_recommender.py:191-194 | the listing splits back into its lines, line i being `- title: description` of course i, with the `No Title` and `No Description` defaults |
| CourseStage.CourseListingIgnoresTail | course_recommender.py:193 | courses after the fiftieth do not change the prompt |
| CourseStage.CoursesFromReply | course_recommender.py:234-246 | no reply, an empty reply, no array or an array that does not decode adds nothing |
| CourseStage.SelectCoursesWithPrerequisites | course_recommender.py:179-249 | the loop's result is the departments' contributions concatenated in department order |
| CourseStage.SelectedAppend | course_recommender.py:184-242 | the selection over two runs of departments is the concatenation of the two selections |
| CourseStage.SelectedComesFromDepartment | course_recommender.py:184-242 | every selected course comes from the reply of one of the departments |
| CourseStage.SkipSilentDepartment | course_recommender.py:184-188 | a department that adds nothing leaves the departments before and after it unaffected |
| CourseStage.MissingDepartmentIsSkipped | course_recommender.py:186-188 | a department whose file is missing, unreadable or empty is skipped and the loop goes on |
| CourseStage.FailingDepartmentIsSkipped | course_recommender.py:234-246 | a department whose calls all fail is skipped and the loop goes on |
| CourseStage.UndecodableDepartmentIsSkipped | course_recommender.py:236-246 | a department whose reply holds no array, or an array that does not decode, is skipped and the loop goes on |
| CourseStage.LoaderPath | course_recommender.py:153 | for a key without `/`, the partitioner's output path in `departments` is the loader's `departments/{key}.json` |
| CourseStage.WrittenGroupIsLoaded | course_recommender.py:153 | every non-empty group the partitioner writes is found by the loader under its key |
| CourseStage.PartitionedGroupIsLoaded | course_recommender.py:150-163 | when the files hold the partitioner's plan, loading a department gives back exactly its group from the partitioner's input |
| RoadmapStage.CoursesText | course_recommender.py:266-272 | the `+=` loop builds the numbered listing |
| RoadmapStage.RoadmapListingNumbered | course_recommender.py:267-272 | the listing is the concatenation of the entries numbered 1..n, in input order |
| RoadmapStage.EntryNumberReadsBack | course_recommender.py:269 | each entry starts with its number in digits followed by `.` |
| RoadmapStage.NoPrerequisitesListedAsNone | course_recommender.py:268-272 | a course with missing or empty prerequisites, or a list holding only `""`, is listed with `None` |
| RoadmapStage.PrerequisitesListed | course_recommender.py:268-272 | a non-empty prerequisite list is joined with `, ` (a list holding only `""` joins to the empty string, which is falsy, and reads `None`) |
| RoadmapStage.RoadmapFromReply | course_recommender.py:328-344 | no reply, an empty reply or no object gives `{"error": "Failed to create roadmap"}`; a decode failure with message e gives `{"error": "Roadmap creation failed: " + e}`; a decoded object is returned as it is |
| RoadmapStage.RepliedErrorMatchesEmptyInput | course_recommender.py:262-263 | a reply whose object decodes to the empty-input error dictionary gives exactly the guard's value, so the value alone does not tell whether a call was made |
| RoadmapStage.RoadmapReadWhole | course_recommender.py:333-337 | after prose without `{` and a tail without `}`, the whole object is decoded and returned |
| RoadmapStage.CreateLearningRoadmap | course_recommender.py:262-344 | no call is made iff the input is empty, which gives `{"error": "No courses provided for roadmap creation"}`; otherwise the result is the reading of the first successful completion, after one to three calls |

## Left out

- File I/O (`open`, `json.load`, `json.dump`, `os.makedirs`, `os.path.exists`) is not modelled. The partitioner takes the loaded records as a `LoadResult`, its writes are returned as a plan, and the stage-2 loader is a function from path to `LoadResult`.
- A failure while writing one group file is not modelled, because the writes are a plan and not performed.
- `logging`, every `print` and the statistics printout have no effect on results, so they are left out.
- `time.sleep` is replaced by the list of delays the client would wait.
- The completion service (`anthropic.Anthropic`, `messages.create`, the model name and its sampling settings) is a parameter `(Prompt, nat) -> Reply`. Any exception, including a reply without text content, is a `Failure`.
- JSON parsing is an abstract decoder per stage that may fail. Stage 3's decoder returns the exception text used in `Roadmap creation failed: ...`.
- The prose of the three prompts is left out. Each prompt is a datatype of the parts filled into it.
- `main()` and `Application_Example.py` are demo glue and are not part of this model. The second imports a function the recommender does not define.
- The roadmap's levels and sequencing are decided by the completion service, so there is nothing deterministic to model.
- Course records, skills and stage-2 selections are typed records. So the exceptions Python raises for malformed JSON shapes are not modelled. Examples: a skill pair shorter than two, a stage-2 item that is not an object, a non-string prerequisite. These are raised outside the `try` blocks at lines 95, 182 and 267-272 and would propagate to the caller.
- A key that is present but `null` is not modelled. `course.get` would then give `None` rather than the default; the model treats such a key as absent.
- The stage-3 `student_profile` dictionary is modelled as its rendered text, an `Option<string>`. An empty dictionary is written as no profile, and Python's `str(dict)` rendering is not modelled.
- `DepartmentStage.SelectDepartments` takes the catalogue as a parameter. `Catalog` holds the constructor's 38 entries; that their names are distinct is not proved.
- CourseStage.CoursesFromReply: does not state its result for a decoded array beyond the cases above, because that result is the decoder's output itself.
- The completion service answers by prompt and attempt number only. Two calls with the same prompt, as when stage 1 returns a department twice and stage 2 asks about it twice, get the same replies; a service whose answers depend on earlier calls is not modelled.
- CourseStage.LoadDepartmentCourses: carries no contract of its own; `MissingDepartmentIsSkipped` and `PartitionedGroupIsLoaded` state what it gives.
