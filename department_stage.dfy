/**
 * The first stage, `select_departments`: the department catalogue, the
 * prompt that lists it, and the reading of the reply into at most three
 * catalogue names.
 */
module DepartmentStage {
  import opened Wrappers
  import opened Text
  import opened Courses
  import opened Client
  import opened Extract
  import opened Prompts
  import Partition

  /** `available_departments`: each department and its course count, in declared order. */
  const Catalog: seq<(string, nat)> := [
    ("Aeronautics_and_Astronautics", 92),
    ("Anthropology", 67),
    ("Architecture", 116),
    ("Athletics,_Physical_Education_and_Recreation", 10),
    ("Biological_Engineering", 41),
    ("Biology", 85),
    ("Brain_and_Cognitive_Sciences", 99),
    ("Chemical_Engineering", 57),
    ("Chemistry", 43),
    ("Civil_and_Environmental_Engineering", 105),
    ("Comparative_Media_Studies_Writing", 71),
    ("Concourse", 5),
    ("Earth,_Atmospheric,_and_Planetary_Sciences", 111),
    ("Economics", 85),
    ("Edgerton_Center", 28),
    ("Electrical_Engineering_and_Computer_Science", 298),
    ("Engineering_Systems_Division", 66),
    ("Experimental_Study_Group", 30),
    ("Global_Studies_and_Languages", 121),
    ("Health_Sciences_and_Technology", 72),
    ("History", 91),
    ("Institute_for_Data,_Systems,_and_Society", 20),
    ("Linguistics_and_Philosophy", 85),
    ("Literature", 128),
    ("Materials_Science_and_Engineering", 92),
    ("Mathematics", 213),
    ("Mechanical_Engineering", 162),
    ("Media_Arts_and_Sciences", 47),
    ("Music_and_Theater_Arts", 69),
    ("Nuclear_Science_and_Engineering", 53),
    ("Others", 447),
    ("Physics", 117),
    ("Political_Science", 97),
    ("Science,_Technology_and_Society", 70),
    ("Sloan_School_of_Management", 218),
    ("Special_Programs", 2),
    ("Urban_Studies_and_Planning", 211),
    ("Women's_and_Gender_Studies", 61)
  ]

  /** `d in self.available_departments`. */
  predicate InCatalog(catalog: seq<(string, nat)>, d: string)
  {
    exists i :: 0 <= i < |catalog| && catalog[i].0 == d
  }

  /**
   * The catalogue holds 38 departments, among them the three foundational
   * ones the department prompt insists on and the catch-all group of the
   * partitioner.
   */
  lemma CatalogContents()
    ensures |Catalog| == 38
    ensures InCatalog(Catalog, "Mathematics") && InCatalog(Catalog, "Physics")
    ensures InCatalog(Catalog, "Electrical_Engineering_and_Computer_Science")
    ensures InCatalog(Catalog, Partition.OthersGroup)
  {
    assert Catalog[25].0 == "Mathematics";
    assert Catalog[31].0 == "Physics";
    assert Catalog[15].0 == "Electrical_Engineering_and_Computer_Science";
    assert Catalog[30].0 == Partition.OthersGroup;
  }

  function CatalogLine(entry: (string, nat)): string
  {
    "- " + entry.0 + ": " + Decimal(entry.1) + " courses"
  }

  /** `departments_text`: one line `- name: count courses` per catalogue entry, in catalogue order. */
  function DepartmentsText(catalog: seq<(string, nat)>): string
  {
    Join(seq(|catalog|, i requires 0 <= i < |catalog| => CatalogLine(catalog[i])), "\n")
  }

  /** The `[:3]` bound on the departments returned. */
  const MaxDepartments: nat := 3

  function DepartmentPromptFor(catalog: seq<(string, nat)>, profile: Profile): Prompt
  {
    DepartmentPrompt(profile.advisorDescription, profile.conversationTranscript,
                     SkillsText(profile.skillLevels), DepartmentsText(catalog))
  }

  /** `[dept for dept in departments if dept in self.available_departments]` over hashable items. */
  function ValidDepartments(catalog: seq<(string, nat)>, items: seq<Json>): (r: seq<string>)
    ensures |r| <= |items|
    ensures forall k :: 0 <= k < |r| ==> InCatalog(catalog, r[k])
  {
    if items == [] then []
    else
      var rest := ValidDepartments(catalog, items[1..]);
      if items[0].JString? && InCatalog(catalog, items[0].s) then [items[0].s] + rest else rest
  }

  /**
   * What `select_departments` returns for the completion `response`: `[]`
   * when there is no response, when it is empty, when it holds no array,
   * when the array does not decode, and when an item is a list or an object
   * (the membership test raises for those); otherwise the first three
   * catalogue names among the decoded items.
   */
  function DepartmentsFromReply(catalog: seq<(string, nat)>, response: Option<string>, decode: string -> Option<seq<Json>>): (r: seq<string>)
    ensures |r| <= MaxDepartments
    ensures forall k :: 0 <= k < |r| ==> InCatalog(catalog, r[k])
    ensures response.None? || response == Some("") ==> r == []
    ensures response.Some? && ExtractArray(response.value).None? ==> r == []
    ensures response.Some? && ExtractArray(response.value).Some? && decode(ExtractArray(response.value).value).None? ==> r == []
  {
    match response
    case None => []
    case Some(text) =>
      if text == "" then []
      else
        match ExtractArray(text)
        case None => []
        case Some(region) =>
          match decode(region)
          case None => []
          case Some(items) =>
            if forall k :: 0 <= k < |items| ==> items[k].IsHashable()
            then Take(ValidDepartments(catalog, items), MaxDepartments)
            else []
  }

  /**
   * `select_departments`: one completion call with the default retries,
   * then the reply is read as above. `catalog` is the system's
   * `available_departments`, which its constructor sets to `Catalog`.
   */
  method SelectDepartments(catalog: seq<(string, nat)>, profile: Profile, service: (Prompt, nat) -> Reply, decode: string -> Option<seq<Json>>)
    returns (departments: seq<string>)
    ensures departments == DepartmentsFromReply(catalog, FirstAnswer(service, DepartmentPromptFor(catalog, profile), 0, DefaultRetries), decode)
    ensures |departments| <= MaxDepartments
    ensures forall k :: 0 <= k < |departments| ==> InCatalog(catalog, departments[k])
  {
    var response, _, _ := CallWithRetry(service, DepartmentPromptFor(catalog, profile), DefaultRetries);
    departments := DepartmentsFromReply(catalog, response, decode);
  }

  /** The filter works item by item and keeps the reply's order. */
  lemma {:induction false} ValidDepartmentsAppend(catalog: seq<(string, nat)>, a: seq<Json>, b: seq<Json>)
    ensures ValidDepartments(catalog, a + b) == ValidDepartments(catalog, a) + ValidDepartments(catalog, b)
  {
    if a == [] {
      assert a + b == b;
    } else {
      assert (a + b)[0] == a[0];
      assert (a + b)[1..] == a[1..] + b;
      ValidDepartmentsAppend(catalog, a[1..], b);
    }
  }

  /**
   * The filter keeps every occurrence of a catalogue name, duplicates
   * included, and nothing else.
   */
  lemma {:induction false} ValidDepartmentsCount(catalog: seq<(string, nat)>, items: seq<Json>, d: string)
    ensures multiset(ValidDepartments(catalog, items))[d] == if InCatalog(catalog, d) then multiset(items)[JString(d)] else 0
  {
    if items != [] {
      ValidDepartmentsCount(catalog, items[1..], d);
      assert items == [items[0]] + items[1..];
      assert multiset(items) == multiset([items[0]]) + multiset(items[1..]);
    }
  }

  /**
   * When the reply decodes to hashable items, the result is the first three
   * catalogue names among them, all of them when there are at most three.
   */
  lemma DepartmentsAreFirstValid(catalog: seq<(string, nat)>, text: string, decode: string -> Option<seq<Json>>, items: seq<Json>)
    requires text != "" && ExtractArray(text).Some? && decode(ExtractArray(text).value) == Some(items)
    requires forall k :: 0 <= k < |items| ==> items[k].IsHashable()
    ensures DepartmentsFromReply(catalog, Some(text), decode) <= ValidDepartments(catalog, items)
    ensures |DepartmentsFromReply(catalog, Some(text), decode)| == if |ValidDepartments(catalog, items)| <= 3 then |ValidDepartments(catalog, items)| else 3
  {
  }

  /** A list or an object among the decoded items makes the stage return nothing. */
  lemma UnhashableItemGivesNothing(catalog: seq<(string, nat)>, text: string, decode: string -> Option<seq<Json>>, items: seq<Json>, k: nat)
    requires text != "" && ExtractArray(text).Some? && decode(ExtractArray(text).value) == Some(items)
    requires k < |items| && !items[k].IsHashable()
    ensures DepartmentsFromReply(catalog, Some(text), decode) == []
  {
  }

  /**
   * A flat array of names after some prose is read whole: the catalogue
   * names among its items come back in order, and a name outside the
   * catalogue is dropped.
   */
  lemma ReplyWithUnknownName(catalog: seq<(string, nat)>, prose: string, body: string, rest: string,
                             decode: string -> Option<seq<Json>>, first: string, unknown: string, second: string)
    requires forall k :: 0 <= k < |prose| ==> prose[k] != '['
    requires forall k :: 0 <= k < |body| ==> body[k] != ']'
    requires InCatalog(catalog, first) && !InCatalog(catalog, unknown) && InCatalog(catalog, second)
    requires decode("[" + body + "]") == Some([JString(first), JString(unknown), JString(second)])
    ensures DepartmentsFromReply(catalog, Some(prose + "[" + body + "]" + rest), decode) == [first, second]
  {
    FlatArrayIsFound(prose, body, rest);
    var items := [JString(first), JString(unknown), JString(second)];
    assert items[1..] == [JString(unknown), JString(second)];
    assert items[1..][1..] == [JString(second)];
    assert ValidDepartments(catalog, items[1..][1..][1..]) == [];
    assert ValidDepartments(catalog, items[1..][1..]) == [second];
    assert ValidDepartments(catalog, items[1..]) == [second];
    assert ValidDepartments(catalog, items) == [first, second];
    assert |prose + "[" + body + "]" + rest| >= 2;
  }
}
