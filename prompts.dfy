/**
 * What the three stages tell the completion service: the student profile,
 * the skills text, and the prompts, each reduced to the values that are
 * interpolated into its fixed wording.
 */
module Prompts {
  import opened Text

  /** One `[skill_name, skill_level]` pair. */
  datatype Skill = Skill(name: string, level: string)

  /** What the first two stages are told about the student. */
  datatype Profile = Profile(advisorDescription: string, conversationTranscript: string, skillLevels: seq<Skill>)

  /** A prompt of one of the three stages. */
  datatype Prompt =
    | DepartmentPrompt(advisor: string, transcript: string, skills: string, departments: string)
    | CoursePrompt(department: string, advisor: string, transcript: string, skills: string, courses: string)
    | RoadmapPrompt(profile: string, courses: string)

  function SkillLine(skill: Skill): string
  {
    "- " + skill.name + ": " + skill.level
  }

  /** The lines of `skills_text`, one `- name: level` line per skill, in order. */
  function SkillLines(skills: seq<Skill>): (r: seq<string>)
    ensures |r| == |skills|
    ensures forall i :: 0 <= i < |r| ==> r[i] == "- " + skills[i].name + ": " + skills[i].level
  {
    seq(|skills|, i requires 0 <= i < |skills| => SkillLine(skills[i]))
  }

  /** `skills_text`: one line `- name: level` per skill. */
  function SkillsText(skills: seq<Skill>): string
  {
    Join(SkillLines(skills), "\n")
  }

  /** Lines joined by newlines read back as the same lines, when none holds a newline. */
  lemma LinesReadBack(lines: seq<string>)
    requires |lines| >= 1
    requires forall i :: 0 <= i < |lines| ==> '\n' !in lines[i]
    ensures SplitOn(Join(lines, "\n"), '\n') == lines
  {
    assert "\n" == ['\n'];
    SplitJoin(lines, '\n');
  }

  /** The skills text has one line per skill, in the order given. */
  lemma SkillsTextLines(skills: seq<Skill>)
    requires |skills| >= 1
    requires forall i :: 0 <= i < |skills| ==> '\n' !in skills[i].name && '\n' !in skills[i].level
    ensures SplitOn(SkillsText(skills), '\n') == SkillLines(skills)
  {
    var lines := SkillLines(skills);
    forall i | 0 <= i < |lines|
      ensures '\n' !in lines[i]
    {
      assert lines[i] == "- " + skills[i].name + ": " + skills[i].level;
    }
    LinesReadBack(lines);
  }
}
