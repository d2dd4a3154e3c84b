/**
 * The corpus partitioner: groups course records by the cleaned names of
 * the departments they list, plans one JSON file per group, and lists the
 * distinct raw department names in sorted order.
 */
module Partition {
  import opened Wrappers
  import opened Courses
  import opened Filenames
  import opened StringOrder

  /** The catch-all group of courses that list no department. */
  const OthersGroup: string := "Others"

  type Groups = map<string, seq<CourseRecord>>

  /** `groups[key]` of a `defaultdict(list)`: a key never appended to reads as `[]`. */
  function Lookup(groups: Groups, key: string): seq<CourseRecord>
  {
    if key in groups then groups[key] else []
  }

  function Repeat<T>(x: T, n: nat): (r: seq<T>)
    ensures |r| == n && forall k :: 0 <= k < n ==> r[k] == x
  {
    if n == 0 then [] else Repeat(x, n - 1) + [x]
  }

  predicate Distinct<T(==)>(s: seq<T>)
  {
    forall i, j :: 0 <= i < j < |s| ==> s[i] != s[j]
  }

  /** How many of `names` clean to `key`. */
  function CountCleaned(names: seq<string>, key: string): nat
  {
    if names == [] then 0
    else CountCleaned(names[..|names| - 1], key) + (if Cleaned(names[|names| - 1]) == key then 1 else 0)
  }

  lemma CountCleanedStep(names: seq<string>, j: nat, key: string)
    requires j < |names|
    ensures CountCleaned(names[..j + 1], key) == CountCleaned(names[..j], key) + (if Cleaned(names[j]) == key then 1 else 0)
  {
    assert names[..j + 1][..j] == names[..j];
  }

  /**
   * How many times a course is appended to group `key`: once to `Others`
   * when it lists no department, otherwise once per listed name that cleans
   * to `key`.
   */
  function Multiplicity(c: CourseRecord, key: string): nat
  {
    if c.departmentNames == [] then (if key == OthersGroup then 1 else 0)
    else CountCleaned(c.departmentNames, key)
  }

  /**
   * Reference definition of group `key`: the courses in input order, each
   * repeated as often as it is appended to that group.
   */
  function Group(courses: seq<CourseRecord>, key: string): seq<CourseRecord>
  {
    if courses == [] then []
    else
      var last := courses[|courses| - 1];
      Group(courses[..|courses| - 1], key) + Repeat(last, Multiplicity(last, key))
  }

  /** The positions in the input that group `key` is made of, in group order. */
  function GroupIndices(courses: seq<CourseRecord>, key: string): seq<nat>
  {
    if courses == [] then []
    else
      var n: nat := |courses| - 1;
      GroupIndices(courses[..n], key) + Repeat(n, Multiplicity(courses[n], key))
  }

  /** The sum over courses of max(1, number of listed departments). */
  function Contributions(courses: seq<CourseRecord>): nat
  {
    if courses == [] then 0
    else
      var k := |courses[|courses| - 1].departmentNames|;
      Contributions(courses[..|courses| - 1]) + (if k == 0 then 1 else k)
  }

  /** The total number of courses held by the groups named in `order`. */
  function SumSizes(order: seq<string>, groups: Groups): nat
  {
    if order == [] then 0
    else SumSizes(order[..|order| - 1], groups) + |Lookup(groups, order[|order| - 1])|
  }

  lemma {:induction false} SumSizesOtherKey(order: seq<string>, groups: Groups, key: string, v: seq<CourseRecord>)
    requires key !in order
    ensures SumSizes(order, groups[key := v]) == SumSizes(order, groups)
  {
    if order != [] {
      SumSizesOtherKey(order[..|order| - 1], groups, key, v);
    }
  }

  lemma {:induction false} SumSizesGrow(order: seq<string>, groups: Groups, key: string, c: CourseRecord)
    requires Distinct(order) && key in order
    ensures SumSizes(order, groups[key := Lookup(groups, key) + [c]]) == SumSizes(order, groups) + 1
  {
    var n := |order| - 1;
    var prefix := order[..n];
    assert order == prefix + [order[n]];
    if order[n] == key {
      assert key !in prefix;
      SumSizesOtherKey(prefix, groups, key, Lookup(groups, key) + [c]);
    } else {
      SumSizesGrow(prefix, groups, key, c);
    }
  }

  /** The invariant of the grouping dictionary and its key insertion order. */
  ghost predicate WellFormed(groups: Groups, order: seq<string>)
  {
    && Distinct(order)
    && (forall key :: key in order <==> key in groups)
    && (forall key :: key in groups ==> groups[key] != [])
  }

  /**
   * `departments[key].append(course)` on a `defaultdict(list)`: a new key is
   * created with `[course]` and goes to the end of the insertion order.
   */
  method AppendToGroup(groups: Groups, order: seq<string>, key: string, course: CourseRecord)
    returns (groups': Groups, order': seq<string>)
    requires WellFormed(groups, order)
    ensures WellFormed(groups', order')
    ensures forall k :: Lookup(groups', k) == Lookup(groups, k) + (if k == key then [course] else [])
    ensures order' == if key in groups then order else order + [key]
    ensures SumSizes(order', groups') == SumSizes(order, groups) + 1
  {
    if key in groups {
      SumSizesGrow(order, groups, key, course);
      groups', order' := groups[key := groups[key] + [course]], order;
    } else {
      SumSizesOtherKey(order, groups, key, [course]);
      groups', order' := groups[key := [course]], order + [key];
    }
  }

  lemma AppendStep(base: seq<CourseRecord>, before: seq<CourseRecord>, after: seq<CourseRecord>,
                   course: CourseRecord, n: nat, n': nat, hit: bool)
    requires before == base + Repeat(course, n)
    requires after == before + (if hit then [course] else [])
    requires n' == n + (if hit then 1 else 0)
    ensures after == base + Repeat(course, n')
  {
    if hit {
      assert Repeat(course, n') == Repeat(course, n) + [course];
    }
  }

  /** The inner loop of the grouping: the course is appended once per listed name, under its cleaned form. */
  method AddToEachName(groups: Groups, order: seq<string>, course: CourseRecord, names: seq<string>)
    returns (groups': Groups, order': seq<string>)
    requires WellFormed(groups, order)
    ensures WellFormed(groups', order')
    ensures forall k :: Lookup(groups', k) == Lookup(groups, k) + Repeat(course, CountCleaned(names, k))
    ensures SumSizes(order', groups') == SumSizes(order, groups) + |names|
  {
    groups', order' := groups, order;
    for j := 0 to |names|
      invariant WellFormed(groups', order')
      invariant forall k :: Lookup(groups', k) == Lookup(groups, k) + Repeat(course, CountCleaned(names[..j], k))
      invariant SumSizes(order', groups') == SumSizes(order, groups) + j
    {
      var key := CleanFilename(names[j]);
      ghost var before := groups';
      groups', order' := AppendToGroup(groups', order', key, course);
      forall k
        ensures Lookup(groups', k) == Lookup(groups, k) + Repeat(course, CountCleaned(names[..j + 1], k))
      {
        CountCleanedStep(names, j, k);
        AppendStep(Lookup(groups, k), Lookup(before, k), Lookup(groups', k), course,
                   CountCleaned(names[..j], k), CountCleaned(names[..j + 1], k), k == key);
      }
    }
    assert names[..|names|] == names;
  }

  /**
   * The body of the grouping loop for one course: appended to `Others` when
   * it lists no department, otherwise once to the cleaned form of every name
   * it lists.
   */
  method AddCourse(groups: Groups, order: seq<string>, course: CourseRecord)
    returns (groups': Groups, order': seq<string>)
    requires WellFormed(groups, order)
    ensures WellFormed(groups', order')
    ensures forall k :: Lookup(groups', k) == Lookup(groups, k) + Repeat(course, Multiplicity(course, k))
    ensures SumSizes(order', groups') == SumSizes(order, groups) + Contributions([course])
  {
    var names := course.departmentNames;
    assert Contributions([course]) == if names == [] then 1 else |names| by {
      assert [course][..0] == [];
    }
    if names == [] {
      groups', order' := AppendToGroup(groups, order, OthersGroup, course);
      forall k
        ensures Lookup(groups', k) == Lookup(groups, k) + Repeat(course, Multiplicity(course, k))
      {
        UnassignedStep(course, k);
      }
    } else {
      groups', order' := AddToEachName(groups, order, course, names);
    }
  }

  lemma UnassignedStep(course: CourseRecord, k: string)
    requires course.departmentNames == []
    ensures Repeat(course, Multiplicity(course, k)) == if k == OthersGroup then [course] else []
  {
    if k == OthersGroup {
      assert Repeat(course, 1) == Repeat(course, 0) + [course];
    }
  }

  /**
   * The grouping loop of `split_courses_by_department`. `order` is the
   * insertion order of the dictionary's keys, the order in which the groups
   * are written out.
   */
  method GroupByDepartment(courses: seq<CourseRecord>) returns (groups: Groups, order: seq<string>)
    ensures forall key :: Lookup(groups, key) == Group(courses, key)
    ensures forall key :: key in groups <==> Group(courses, key) != []
    ensures Distinct(order) && forall key :: key in order <==> key in groups
    ensures SumSizes(order, groups) == Contributions(courses)
  {
    groups, order := map[], [];
    for i := 0 to |courses|
      invariant WellFormed(groups, order)
      invariant forall key :: Lookup(groups, key) == Group(courses[..i], key)
      invariant SumSizes(order, groups) == Contributions(courses[..i])
    {
      ContributionsStep(courses, i);
      groups, order := AddCourse(groups, order, courses[i]);
      forall key
        ensures Lookup(groups, key) == Group(courses[..i + 1], key)
      {
        GroupStep(courses, i, key);
      }
    }
    assert courses[..|courses|] == courses;
  }

  lemma GroupStep(courses: seq<CourseRecord>, i: nat, key: string)
    requires i < |courses|
    ensures Group(courses[..i + 1], key) == Group(courses[..i], key) + Repeat(courses[i], Multiplicity(courses[i], key))
  {
    assert courses[..i + 1][..i] == courses[..i];
  }

  lemma ContributionsStep(courses: seq<CourseRecord>, i: nat)
    requires i < |courses|
    ensures Contributions(courses[..i + 1]) == Contributions(courses[..i]) + Contributions([courses[i]])
  {
    assert courses[..i + 1] == courses[..i] + [courses[i]];
    ContributionsAppend(courses[..i], courses[i]);
  }

  lemma ContributionsAppend(courses: seq<CourseRecord>, c: CourseRecord)
    ensures Contributions(courses + [c]) == Contributions(courses) + Contributions([c])
  {
    assert (courses + [c])[..|courses|] == courses;
    assert [c][..0] == [];
  }

  /** Every group keeps the input order: its members are read off increasing input positions. */
  lemma {:induction false} GroupKeepsInputOrder(courses: seq<CourseRecord>, key: string)
    ensures |GroupIndices(courses, key)| == |Group(courses, key)|
    ensures forall m :: 0 <= m < |GroupIndices(courses, key)| ==>
              GroupIndices(courses, key)[m] < |courses| && Group(courses, key)[m] == courses[GroupIndices(courses, key)[m]]
    ensures forall m1, m2 :: 0 <= m1 <= m2 < |GroupIndices(courses, key)| ==>
              GroupIndices(courses, key)[m1] <= GroupIndices(courses, key)[m2]
  {
    if courses != [] {
      var n := |courses| - 1;
      GroupKeepsInputOrder(courses[..n], key);
      var idx := GroupIndices(courses, key);
      var g := Group(courses, key);
      var p := |GroupIndices(courses[..n], key)|;
      forall m | 0 <= m < |idx|
        ensures idx[m] < |courses| && g[m] == courses[idx[m]]
      {
        if m < p {
          assert idx[m] == GroupIndices(courses[..n], key)[m];
          assert g[m] == Group(courses[..n], key)[m];
        }
      }
    }
  }

  /** Course `i` occurs in group `key` exactly as often as its multiplicity says. */
  lemma GroupOccurrences(courses: seq<CourseRecord>, key: string, i: nat)
    requires i < |courses|
    ensures multiset(GroupIndices(courses, key))[i] == Multiplicity(courses[i], key)
  {
    GroupIndicesArePositions(courses, key);
    PositionsCount(courses, MultiplicityIn(key), i);
  }

  function MultiplicityIn(key: string): CourseRecord -> nat
  {
    c => Multiplicity(c, key)
  }

  /** Every position of `xs`, repeated `f` of its element times, in order. */
  function Positions<T>(xs: seq<T>, f: T -> nat): seq<nat>
  {
    if xs == [] then []
    else
      var n: nat := |xs| - 1;
      Positions(xs[..n], f) + Repeat(n, f(xs[n]))
  }

  lemma {:induction false} GroupIndicesArePositions(courses: seq<CourseRecord>, key: string)
    ensures GroupIndices(courses, key) == Positions(courses, MultiplicityIn(key))
  {
    if courses != [] {
      GroupIndicesArePositions(courses[..|courses| - 1], key);
    }
  }

  lemma {:induction false} PositionsBelow<T>(xs: seq<T>, f: T -> nat)
    ensures forall m :: 0 <= m < |Positions(xs, f)| ==> Positions(xs, f)[m] < |xs|
  {
    if xs != [] {
      PositionsBelow(xs[..|xs| - 1], f);
    }
  }

  /** Position `i` occurs in `Positions(xs, f)` exactly `f(xs[i])` times. */
  lemma {:induction false} PositionsCount<T>(xs: seq<T>, f: T -> nat, i: nat)
    requires i < |xs|
    ensures multiset(Positions(xs, f))[i] == f(xs[i])
  {
    var n := |xs| - 1;
    var init := xs[..n];
    PositionsBelow(init, f);
    if i < n {
      PositionsCount(init, f, i);
      assert init[i] == xs[i];
    }
    CountAfterRepeat(Positions(init, f), n, f(xs[n]), i, f(xs[i]));
  }

  /** Appending `m` copies of `n` to positions below `n` adds `m` to the count of `n` and nothing else. */
  lemma CountAfterRepeat(head: seq<nat>, n: nat, m: nat, i: nat, c: nat)
    requires forall k :: 0 <= k < |head| ==> head[k] < n
    requires i <= n
    requires i < n ==> multiset(head)[i] == c
    requires i == n ==> m == c
    ensures multiset(head + Repeat(n, m))[i] == c
  {
    assert multiset(head + Repeat(n, m)) == multiset(head) + multiset(Repeat(n, m));
    if i < n {
      assert i !in Repeat(n, m);
    } else {
      assert i !in head;
      RepeatCount(n, m);
    }
  }

  lemma {:induction false} RepeatCount<T>(x: T, n: nat)
    ensures multiset(Repeat(x, n))[x] == n
  {
    if n > 0 {
      assert Repeat(x, n) == Repeat(x, n - 1) + [x];
      RepeatCount(x, n - 1);
    }
  }

  /**
   * A course that lists no department is in group `Others` exactly once and
   * in no other group.
   */
  lemma UnassignedCourseGoesToOthers(courses: seq<CourseRecord>, i: nat)
    requires i < |courses| && courses[i].departmentNames == []
    ensures multiset(GroupIndices(courses, OthersGroup))[i] == 1
    ensures forall key :: key != OthersGroup ==> i !in GroupIndices(courses, key)
  {
    GroupOccurrences(courses, OthersGroup, i);
    forall key | key != OthersGroup
      ensures i !in GroupIndices(courses, key)
    {
      GroupOccurrences(courses, key, i);
    }
  }

  /**
   * A course that lists departments is in group `key` once for every listed
   * name that cleans to `key`: twice when two of its names clean alike.
   */
  lemma AssignedCourseOccurrences(courses: seq<CourseRecord>, i: nat, key: string)
    requires i < |courses| && courses[i].departmentNames != []
    ensures multiset(GroupIndices(courses, key))[i] == CountCleaned(courses[i].departmentNames, key)
  {
    GroupOccurrences(courses, key, i);
  }

  /** Only `Others` and the cleaned form of a name some course lists ever become group keys. */
  lemma {:induction false} GroupKeyOrigin(courses: seq<CourseRecord>, key: string)
    requires Group(courses, key) != []
    ensures key == OthersGroup
         || exists i, j :: 0 <= i < |courses| && 0 <= j < |courses[i].departmentNames|
                           && Cleaned(courses[i].departmentNames[j]) == key
  {
    var n := |courses| - 1;
    if Group(courses[..n], key) != [] {
      GroupKeyOrigin(courses[..n], key);
      if key != OthersGroup {
        var i, j :| 0 <= i < |courses[..n]| && 0 <= j < |courses[..n][i].departmentNames|
                    && Cleaned(courses[..n][i].departmentNames[j]) == key;
        assert courses[..n][i] == courses[i];
      }
    } else if courses[n].departmentNames != [] {
      var j := CountedNameOrigin(courses[n].departmentNames, key);
    }
  }

  /** A key counted among the cleaned names is the cleaned form of one of them. */
  lemma {:induction false} CountedNameOrigin(names: seq<string>, key: string) returns (j: nat)
    requires CountCleaned(names, key) > 0
    ensures j < |names| && Cleaned(names[j]) == key
  {
    var n := |names| - 1;
    var last := Cleaned(names[n]);
    if last == key {
      j := n;
    } else {
      assert CountCleaned(names[..n], key) > 0;
      j := CountedNameOrigin(names[..n], key);
      assert names[..n][j] == names[j];
    }
  }

  lemma OthersIsSafe()
    ensures forall k :: 0 <= k < |OthersGroup| ==> SafeChar(OthersGroup[k])
  {
    assert SafeChar('O') && SafeChar('t') && SafeChar('h') && SafeChar('e') && SafeChar('r') && SafeChar('s');
  }

  /** A group key never holds a path separator or another forbidden character. */
  lemma GroupKeyIsSafe(courses: seq<CourseRecord>, key: string)
    requires Group(courses, key) != []
    ensures forall k :: 0 <= k < |key| ==> SafeChar(key[k])
  {
    GroupKeyOrigin(courses, key);
    if key != OthersGroup {
      var i, j :| 0 <= i < |courses| && 0 <= j < |courses[i].departmentNames|
                  && Cleaned(courses[i].departmentNames[j]) == key;
      CleanedIsSafe(courses[i].departmentNames[j]);
    } else {
      OthersIsSafe();
    }
  }

  /** `os.path.join(directory, name)` on POSIX. */
  function JoinPath(directory: string, name: string): string
  {
    if name != [] && name[0] == '/' then name
    else if directory == [] || directory[|directory| - 1] == '/' then directory + name
    else directory + "/" + name
  }

  /** The file a group is written to. */
  function GroupPath(directory: string, key: string): string
  {
    JoinPath(directory, key + ".json")
  }

  /** A group's file lands directly inside the output directory, named after its key. */
  lemma GroupPathInDirectory(courses: seq<CourseRecord>, directory: string, key: string)
    requires Group(courses, key) != []
    ensures GroupPath(directory, key) == directory + key + ".json"
         || GroupPath(directory, key) == directory + "/" + key + ".json"
    ensures '/' !in key
  {
    GroupKeyIsSafe(courses, key);
    SafeKeyPath(directory, key);
  }

  lemma SafeKeyPath(directory: string, key: string)
    requires forall k :: 0 <= k < |key| ==> SafeChar(key[k])
    ensures GroupPath(directory, key) == directory + key + ".json"
         || GroupPath(directory, key) == directory + "/" + key + ".json"
    ensures '/' !in key
  {
    assert !SafeChar('/') by {
      assert InvalidChars[4] == '/';
    }
    assert (key + ".json")[0] != '/' by {
      if key != [] {
        assert (key + ".json")[0] == key[0];
      }
    }
  }

  /** One planned output file: the group `department` written to `path`. */
  datatype GroupFile = GroupFile(department: string, path: string, courses: seq<CourseRecord>)

  function Departments(files: seq<GroupFile>): seq<string>
  {
    seq(|files|, k requires 0 <= k < |files| => files[k].department)
  }

  function TotalCourses(files: seq<GroupFile>): nat
  {
    if files == [] then 0 else TotalCourses(files[..|files| - 1]) + |files[|files| - 1].courses|
  }

  /** The files written for the groups named in `keys`, in that order. */
  function PlanFiles(directory: string, groups: Groups, keys: seq<string>): seq<GroupFile>
  {
    if keys == [] then []
    else
      var key := keys[|keys| - 1];
      PlanFiles(directory, groups, keys[..|keys| - 1]) + [GroupFile(key, GroupPath(directory, key), Lookup(groups, key))]
  }

  lemma {:induction false} PlanFilesShape(directory: string, groups: Groups, keys: seq<string>)
    ensures |PlanFiles(directory, groups, keys)| == |keys|
    ensures forall k :: 0 <= k < |keys| ==>
              PlanFiles(directory, groups, keys)[k] == GroupFile(keys[k], GroupPath(directory, keys[k]), Lookup(groups, keys[k]))
  {
    if keys != [] {
      var n := |keys| - 1;
      var init := keys[..n];
      PlanFilesShape(directory, groups, init);
      var files := PlanFiles(directory, groups, keys);
      assert files == PlanFiles(directory, groups, init) + [GroupFile(keys[n], GroupPath(directory, keys[n]), Lookup(groups, keys[n]))];
      forall k | 0 <= k < n
        ensures files[k] == GroupFile(keys[k], GroupPath(directory, keys[k]), Lookup(groups, keys[k]))
      {
        assert files[k] == PlanFiles(directory, groups, init)[k];
        assert init[k] == keys[k];
      }
    }
  }

  lemma {:induction false} PlanFilesTotal(directory: string, groups: Groups, keys: seq<string>)
    ensures TotalCourses(PlanFiles(directory, groups, keys)) == SumSizes(keys, groups)
  {
    if keys != [] {
      var n := |keys| - 1;
      PlanFilesTotal(directory, groups, keys[..n]);
      var files := PlanFiles(directory, groups, keys);
      assert files[..|files| - 1] == PlanFiles(directory, groups, keys[..n]);
    }
  }

  /**
   * `split_courses_by_department` without the file system: `None` when the
   * input file is missing or malformed (nothing is grouped or written),
   * otherwise the files it writes, in the order it writes them. Each write
   * is independent, so a failing one does not change the others.
   */
  method SplitCoursesByDepartment(input: LoadResult, directory: string) returns (plan: Option<seq<GroupFile>>)
    ensures plan.None? <==> !input.Loaded?
    ensures plan.Some? ==> Distinct(Departments(plan.value))
    ensures plan.Some? ==> forall k :: 0 <= k < |plan.value| ==>
              plan.value[k].path == GroupPath(directory, plan.value[k].department)
              && plan.value[k].courses == Group(input.courses, plan.value[k].department)
    ensures plan.Some? ==> forall key :: key in Departments(plan.value) <==> Group(input.courses, key) != []
    ensures plan.Some? ==> TotalCourses(plan.value) == Contributions(input.courses)
  {
    if !input.Loaded? {
      return None;
    }
    var groups, order := GroupByDepartment(input.courses);
    var files := WriteGroups(directory, groups, order);
    PlanMeetsGroups(input.courses, directory, groups, order);
    plan := Some(files);
  }

  /** The write loop: one file per key, in key order. */
  method WriteGroups(directory: string, groups: Groups, order: seq<string>) returns (files: seq<GroupFile>)
    requires forall key :: key in order ==> key in groups
    ensures files == PlanFiles(directory, groups, order)
  {
    files := [];
    for i := 0 to |order|
      invariant files == PlanFiles(directory, groups, order[..i])
    {
      var key := order[i];
      assert order[..i + 1][..i] == order[..i];
      files := files + [GroupFile(key, GroupPath(directory, key), groups[key])];
    }
    assert order[..|order|] == order;
  }

  /** The files planned for the grouping's keys hold the reference groups, once each. */
  lemma PlanMeetsGroups(courses: seq<CourseRecord>, directory: string, groups: Groups, order: seq<string>)
    requires forall key :: Lookup(groups, key) == Group(courses, key)
    requires forall key :: key in groups <==> Group(courses, key) != []
    requires Distinct(order) && forall key :: key in order <==> key in groups
    requires SumSizes(order, groups) == Contributions(courses)
    ensures var files := PlanFiles(directory, groups, order);
      && Distinct(Departments(files))
      && (forall k :: 0 <= k < |files| ==>
            files[k].path == GroupPath(directory, files[k].department)
            && files[k].courses == Group(courses, files[k].department))
      && (forall key :: key in Departments(files) <==> Group(courses, key) != [])
      && TotalCourses(files) == Contributions(courses)
  {
    var files := PlanFiles(directory, groups, order);
    PlanFilesShape(directory, groups, order);
    PlanFilesTotal(directory, groups, order);
    forall k | 0 <= k < |order|
      ensures files[k].department == order[k]
      ensures files[k].path == GroupPath(directory, order[k])
      ensures files[k].courses == Group(courses, order[k])
    {
      assert files[k] == GroupFile(order[k], GroupPath(directory, order[k]), Lookup(groups, order[k]));
    }
    assert Departments(files) == order;
  }

  /** `set(names)`. */
  function NameSet(names: seq<string>): (r: set<string>)
    ensures forall n :: n in r <==> n in names
  {
    set i | 0 <= i < |names| :: names[i]
  }

  /** The raw department names the courses list. */
  function RawNames(courses: seq<CourseRecord>): set<string>
  {
    if courses == [] then {}
    else RawNames(courses[..|courses| - 1]) + NameSet(courses[|courses| - 1].departmentNames)
  }

  /** A raw name is collected exactly when some course lists it. */
  lemma {:induction false} RawNamesListed(courses: seq<CourseRecord>, name: string)
    ensures name in RawNames(courses) <==> exists i :: 0 <= i < |courses| && name in courses[i].departmentNames
  {
    if courses != [] {
      var n := |courses| - 1;
      RawNamesListed(courses[..n], name);
      if name in RawNames(courses) && name !in courses[n].departmentNames {
        var i :| 0 <= i < n && name in courses[..n][i].departmentNames;
        assert name in courses[i].departmentNames;
      }
      if exists i :: 0 <= i < |courses| && name in courses[i].departmentNames {
        var i :| 0 <= i < |courses| && name in courses[i].departmentNames;
        if i < n {
          assert name in courses[..n][i].departmentNames;
        }
      }
    }
  }

  /**
   * `get_all_departments`: the distinct raw department names, strictly
   * sorted; `[]` when the input file is missing or malformed.
   */
  method GetAllDepartments(input: LoadResult) returns (names: seq<string>)
    ensures !input.Loaded? ==> names == []
    ensures input.Loaded? ==> StrictlySorted(names) && |names| == |RawNames(input.courses)|
    ensures input.Loaded? ==> forall n :: n in names <==> n in RawNames(input.courses)
  {
    if !input.Loaded? {
      return [];
    }
    var courses := input.courses;
    var departments: set<string> := {};
    for i := 0 to |courses|
      invariant departments == RawNames(courses[..i])
    {
      assert courses[..i + 1][..i] == courses[..i];
      if courses[i].departmentNames != [] {
        departments := departments + NameSet(courses[i].departmentNames);
      }
    }
    assert courses[..|courses|] == courses;
    names := SortedList(departments);
  }
}
