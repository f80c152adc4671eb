/** The resume scorer `analyze_resume`: the fixed skill list is split into
    found and missing skills by substring search in the normalised text, the
    score is the whole percentage of skills found, and up to three fixed
    suggestions are appended under independent conditions. */
module Scorer {
  import opened Strings
  import opened Tips

  /** `REQUIRED_SKILLS`, in the order the service checks and reports them. */
  const RequiredSkills: seq<string> := [
    "python", "java", "c++", "machine learning", "fastapi", "sql",
    "data structures", "algorithms", "git", "api", "html", "css", "javascript"
  ]

  /** Passing score: below it the skills suggestion is given. */
  const PassingScore: nat := 60

  /** `a` is `b` with some elements left out, the rest in their order. */
  predicate IsSubsequence(a: seq<string>, b: seq<string>)
    decreases |b|
  {
    a == [] || (b != [] && ((a[0] == b[0] && IsSubsequence(a[1..], b[1..])) || IsSubsequence(a, b[1..])))
  }

  lemma {:induction false} SubsequenceOfLonger(c: seq<string>, b: seq<string>, d: seq<string>)
    requires IsSubsequence(c, d)
    ensures IsSubsequence(c, b + d)
    decreases |b|
  {
    if b == [] {
      assert b + d == d;
    } else if c != [] {
      SubsequenceOfLonger(c, b[1..], d);
      assert (b + d)[1..] == b[1..] + d;
    }
  }

  /** Subsequences can be concatenated. */
  lemma {:induction false} SubsequenceAppend(a: seq<string>, b: seq<string>, c: seq<string>, d: seq<string>)
    requires IsSubsequence(a, b) && IsSubsequence(c, d)
    ensures IsSubsequence(a + c, b + d)
    decreases |b|
  {
    if a == [] {
      SubsequenceOfLonger(c, b, d);
      assert a + c == c;
    } else {
      assert (b + d)[1..] == b[1..] + d;
      if a[0] == b[0] && IsSubsequence(a[1..], b[1..]) {
        SubsequenceAppend(a[1..], b[1..], c, d);
        assert (a + c)[1..] == a[1..] + c;
      } else {
        SubsequenceAppend(a, b[1..], c, d);
      }
    }
  }

  predicate Distinct(s: seq<string>) {
    forall i, j :: 0 <= i < j < |s| ==> s[i] != s[j]
  }

  /** The list comprehension `[skill for skill in skills if skill in text]`
      (present = true) or `... if skill not in text` (present = false). */
  function Select(skills: seq<string>, text: string, present: bool): (r: seq<string>)
    ensures |r| <= |skills|
    ensures forall s :: s in r <==> s in skills && (IsSubstring(s, text) <==> present)
  {
    if skills == [] then []
    else
      var rest := Select(skills[1..], text, present);
      if Contains(text, skills[0]) == present then [skills[0]] + rest else rest
  }

  /** A selection keeps the order of the list it selects from. */
  lemma {:induction false} SelectKeepsOrder(skills: seq<string>, text: string, present: bool)
    ensures IsSubsequence(Select(skills, text, present), skills)
  {
    if skills != [] {
      SelectKeepsOrder(skills[1..], text, present);
    }
  }

  /** `found_skills` and `missing_skills` of `analyze_resume`. */
  function FoundSkills(text: string): seq<string> {
    Select(RequiredSkills, text, true)
  }

  function MissingSkills(text: string): seq<string> {
    Select(RequiredSkills, text, false)
  }

  /** The two selections partition the list: every element goes to exactly
      one side, so the sides are disjoint, cover the list and, counted with
      multiplicity, add up to it. */
  lemma {:induction false} SelectPartitions(skills: seq<string>, text: string)
    ensures multiset(Select(skills, text, true)) + multiset(Select(skills, text, false)) == multiset(skills)
    ensures |Select(skills, text, true)| + |Select(skills, text, false)| == |skills|
    ensures forall s :: s in skills <==> (s in Select(skills, text, true) || s in Select(skills, text, false))
    ensures forall s :: !(s in Select(skills, text, true) && s in Select(skills, text, false))
  {
    if skills != [] {
      SelectPartitions(skills[1..], text);
      assert skills == [skills[0]] + skills[1..];
    }
  }

  /** A selection from a list without repetitions has none either. */
  lemma {:induction false} SelectDistinct(skills: seq<string>, text: string, present: bool)
    requires Distinct(skills)
    ensures Distinct(Select(skills, text, present))
  {
    if skills != [] {
      SelectDistinct(skills[1..], text, present);
      assert skills[0] !in skills[1..];
    }
  }

  /** `int((len(found_skills) / len(REQUIRED_SKILLS)) * 100)`: the whole
      percentage of the 13 skills that were found, rounded down. */
  function Score(found: nat): (r: nat)
    requires found <= |RequiredSkills|
    ensures r <= 100
    ensures r * 13 <= 100 * found < (r + 1) * 13
    ensures r == 100 <==> found == 13
  {
    100 * found / |RequiredSkills|
  }

  /** With 13 skills, the score is below the passing score exactly when at
      most 7 of them are found (7 gives 53, 8 gives 61). */
  lemma {:induction false} BelowPassingIffAtMostSeven(k: nat)
    requires k <= 13
    ensures Score(k) < PassingScore <==> k <= 7
  {
    if k <= 7 {
      assert 100 * k <= 700;
      assert Score(k) * 13 <= 700;
    } else {
      assert 100 * k >= 800;
      assert (Score(k) + 1) * 13 > 800;
    }
  }

  /** The suggestions, appended in this order when their conditions hold. */
  function Suggestions(score: int, text: string): (tips: seq<string>)
    ensures SkillsTip in tips <==> score < PassingScore
    ensures ProjectTip in tips <==> !IsSubstring("project", text)
    ensures ExperienceTip in tips <==> !IsSubstring("experience", text)
    ensures IsSubsequence(tips, [SkillsTip, ProjectTip, ExperienceTip]) && |tips| <= 3
    ensures tips == [] <==> score >= PassingScore && IsSubstring("project", text) && IsSubstring("experience", text)
  {
    var a := if score < PassingScore then [SkillsTip] else [];
    var b := if !Contains(text, "project") then [ProjectTip] else [];
    var c := if !Contains(text, "experience") then [ExperienceTip] else [];
    SubsequenceAppend(a, [SkillsTip], b, [ProjectTip]);
    SubsequenceAppend(a + b, [SkillsTip, ProjectTip], c, [ExperienceTip]);
    a + b + c
  }

  /** The result of `analyze_resume`, with `resume_score` as the string
      `f"{score}%"`. */
  datatype Analysis = Analysis(
    skillsFound: seq<string>,
    skillsMissing: seq<string>,
    resumeScore: string,
    suggestions: seq<string>)

  /** `f"{score}%"`. */
  function ScoreLabel(score: nat): (tag: string)
    ensures |tag| >= 2 && tag[|tag| - 1] == '%'
  {
    Decimal(score) + "%"
  }

  /** The percentage behind `resume_score`, as an integer. */
  function ScoreOf(text: string): (r: nat)
    ensures r <= 100
  {
    Score(|FoundSkills(text)|)
  }

  /** What `analyze_resume(text)` returns. */
  function Analyze(text: string): (a: Analysis)
    ensures |a.skillsFound| + |a.skillsMissing| == |RequiredSkills|
    ensures |a.suggestions| <= 3
  {
    SelectPartitions(RequiredSkills, text);
    Analysis(FoundSkills(text), MissingSkills(text), ScoreLabel(ScoreOf(text)),
             Suggestions(ScoreOf(text), text))
  }

  /** `analyze_resume`, step by step: the two comprehensions, the score, and
      the suggestions list grown by conditional appends. */
  method AnalyzeResume(text: string) returns (a: Analysis)
    ensures a == Analyze(text)
  {
    var found := Select(RequiredSkills, text, true);
    var missing := Select(RequiredSkills, text, false);
    var score := Score(|found|);
    var suggestions: seq<string> := [];
    if score < PassingScore {
      suggestions := suggestions + [SkillsTip];
    }
    if !Contains(text, "project") {
      suggestions := suggestions + [ProjectTip];
    }
    if !Contains(text, "experience") {
      suggestions := suggestions + [ExperienceTip];
    }
    assert suggestions == Suggestions(score, text);
    a := Analysis(found, missing, ScoreLabel(score), suggestions);
  }

  /** The skill list has no repetitions and its entries are lower case and
      non-empty. */
  lemma RequiredSkillsWellFormed()
    ensures |RequiredSkills| == 13
    ensures Distinct(RequiredSkills)
    ensures forall s :: s in RequiredSkills ==> s != [] && IsLower(s)
  {
    forall i, j | 0 <= i < j < 13 ensures RequiredSkills[i] != RequiredSkills[j] {
      SkillsDiffer(i, j);
    }
    forall i | 0 <= i < 13 ensures RequiredSkills[i] != [] && IsLower(RequiredSkills[i]) {
    }
  }

  /** Two different entries of the list differ in their length or in one of
      their first two characters. */
  lemma SkillsDiffer(i: nat, j: nat)
    requires i < j < 13
    ensures RequiredSkills[i] != RequiredSkills[j]
  {
    var a, b := RequiredSkills[i], RequiredSkills[j];
    assert |a| != |b| || a[0] != b[0] || a[1] != b[1];
  }

  /** Found and missing skills partition `REQUIRED_SKILLS`: each found skill
      occurs in the text and each missing one does not, the two lists are
      disjoint and repetition-free, together they are the whole list, and
      both keep its order. */
  lemma AnalysisPartitionsSkills(text: string)
    ensures var a := Analyze(text);
      && (forall s :: s in a.skillsFound <==> s in RequiredSkills && IsSubstring(s, text))
      && (forall s :: s in a.skillsMissing <==> s in RequiredSkills && !IsSubstring(s, text))
      && multiset(a.skillsFound) + multiset(a.skillsMissing) == multiset(RequiredSkills)
      && (forall s :: !(s in a.skillsFound && s in a.skillsMissing))
      && Distinct(a.skillsFound) && Distinct(a.skillsMissing)
      && IsSubsequence(a.skillsFound, RequiredSkills)
      && IsSubsequence(a.skillsMissing, RequiredSkills)
  {
    SelectPartitions(RequiredSkills, text);
    RequiredSkillsWellFormed();
    SelectDistinct(RequiredSkills, text, true);
    SelectDistinct(RequiredSkills, text, false);
    SelectKeepsOrder(RequiredSkills, text, true);
    SelectKeepsOrder(RequiredSkills, text, false);
  }

  /** `resume_score` is the whole percentage of the 13 skills that were
      found, between 0 and 100, and 100 exactly when none is missing. */
  lemma AnalysisScore(text: string)
    ensures var a := Analyze(text); var s := ScoreOf(text);
      && a.resumeScore == ScoreLabel(s)
      && s * 13 <= 100 * |a.skillsFound| < (s + 1) * 13
      && 0 <= s <= 100
      && (s == 100 <==> a.skillsMissing == [])
  {
    SelectPartitions(RequiredSkills, text);
  }

  /** The skills suggestion is given exactly when at most 7 of the 13 skills
      are found. */
  lemma SkillsTipIffAtMostSeven(text: string)
    ensures SkillsTip in Analyze(text).suggestions <==> |Analyze(text).skillsFound| <= 7
  {
    BelowPassingIffAtMostSeven(|FoundSkills(text)|);
  }

  /** The score label reads back as the score: decimal digits without a
      leading zero, then '%'. */
  lemma ScoreLabelReadsBack(score: nat)
    ensures var tag := ScoreLabel(score); var digits := tag[..|tag| - 1];
      && (forall i :: 0 <= i < |digits| ==> IsDigit(digits[i]))
      && DecimalValue(digits) == score
      && (digits[0] == '0' ==> score == 0 && digits == "0")
  {
    var tag := ScoreLabel(score);
    assert tag[..|tag| - 1] == Decimal(score);
    DecimalRoundTrip(score);
  }

  /** A skill that contains another skill of the list drags it along: when
      the longer one is found, so is the shorter. */
  lemma {:induction false} ContainedSkillFound(skills: seq<string>, text: string, long: string, short: string, i: nat)
    requires OccursAt(short, long, i) && short in skills
    requires long in Select(skills, text, true)
    ensures short in Select(skills, text, true)
  {
    SubstringTransitive(short, long, text);
  }

  /** Overlapping keywords: a resume that mentions FastAPI also gets credit
      for "api", and one that mentions JavaScript for "java". */
  lemma FastApiImpliesApi(text: string)
    ensures "fastapi" in FoundSkills(text) ==> "api" in FoundSkills(text)
  {
    if "fastapi" in FoundSkills(text) {
      ContainedSkillFound(RequiredSkills, text, "fastapi", "api", 4);
    }
  }

  lemma JavaScriptImpliesJava(text: string)
    ensures "javascript" in FoundSkills(text) ==> "java" in FoundSkills(text)
  {
    if "javascript" in FoundSkills(text) {
      ContainedSkillFound(RequiredSkills, text, "javascript", "java", 0);
    }
  }
}
