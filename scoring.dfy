/**
 * Comparing the skills of a resume with those of a job description: the
 * matched and missing skills, the match score, and the preparation advice.
 */
module Scoring {
  import opened Collections
  import opened SkillMatcher

  /** `set(resume_skills).intersection(set(jd_skills))` */
  function Matched(resumeSkills: seq<string>, jdSkills: seq<string>): (matched: set<string>)
    ensures forall w :: w in matched <==> w in resumeSkills && w in jdSkills
  {
    ToSet(resumeSkills) * ToSet(jdSkills)
  }

  /** `set(jd_skills) - set(resume_skills)` */
  function Missing(resumeSkills: seq<string>, jdSkills: seq<string>): (missing: set<string>)
    ensures forall w :: w in missing <==> w in jdSkills && w !in resumeSkills
  {
    ToSet(jdSkills) - ToSet(resumeSkills)
  }

  /** Matched and missing split the job-description skills in two. */
  lemma MatchedAndMissingPartitionJd(resumeSkills: seq<string>, jdSkills: seq<string>)
    ensures Matched(resumeSkills, jdSkills) <= ToSet(resumeSkills)
    ensures Matched(resumeSkills, jdSkills) <= ToSet(jdSkills)
    ensures Missing(resumeSkills, jdSkills) * ToSet(resumeSkills) == {}
    ensures Matched(resumeSkills, jdSkills) + Missing(resumeSkills, jdSkills) == ToSet(jdSkills)
    ensures Matched(resumeSkills, jdSkills) * Missing(resumeSkills, jdSkills) == {}
  {
  }

  /** The number of matched and missing skills adds up to the number of job-description skills. */
  lemma MatchedPlusMissingCount(resumeSkills: seq<string>, jdSkills: seq<string>)
    ensures |Matched(resumeSkills, jdSkills)| + |Missing(resumeSkills, jdSkills)| == |ToSet(jdSkills)|
  {
    MatchedAndMissingPartitionJd(resumeSkills, jdSkills);
  }

  /**
   * `len(matched_skills)/len(jd_skills)*100 if jd_skills else 0`, as an
   * exact number: `len(jd_skills)` is the length of the list, not of its set.
   */
  function MatchScore(matched: set<string>, jdSkills: seq<string>): (score: real)
    ensures |jdSkills| == 0 ==> score == 0.0
    ensures |jdSkills| > 0 ==> score * (|jdSkills| as real) == 100.0 * (|matched| as real)
  {
    if |jdSkills| == 0 then 0.0 else (|matched| as real) / (|jdSkills| as real) * 100.0
  }

  /** A score of m out of n, n > 0 and m <= n, lies in [0, 100]; it is 100 only for m == n and 0 only for m == 0. */
  lemma PercentOf(m: nat, n: nat, score: real)
    requires 0 < n && m <= n
    requires score * (n as real) == 100.0 * (m as real)
    ensures 0.0 <= score <= 100.0
    ensures score == 100.0 <==> m == n
    ensures score == 0.0 <==> m == 0
  {
  }

  /** No more skills are matched than the job-description list holds. */
  lemma MatchedAtMostJd(resumeSkills: seq<string>, jdSkills: seq<string>)
    ensures |Matched(resumeSkills, jdSkills)| <= |ToSet(jdSkills)| <= |jdSkills|
  {
    MatchedPlusMissingCount(resumeSkills, jdSkills);
    ToSetCardinality(jdSkills);
  }

  /** The score is a percentage; it is 0 exactly when no skill is matched. */
  lemma ScoreIsPercentage(resumeSkills: seq<string>, jdSkills: seq<string>)
    ensures var score := MatchScore(Matched(resumeSkills, jdSkills), jdSkills);
      0.0 <= score <= 100.0 && (score == 0.0 <==> |jdSkills| == 0 || Matched(resumeSkills, jdSkills) == {})
  {
    var matched := Matched(resumeSkills, jdSkills);
    MatchedAtMostJd(resumeSkills, jdSkills);
    if |jdSkills| > 0 {
      PercentOf(|matched|, |jdSkills|, MatchScore(matched, jdSkills));
    }
  }

  /** For a list of distinct job-description skills, the score is 100 exactly when no skill is missing. */
  lemma FullScoreIffNothingMissing(resumeSkills: seq<string>, jdSkills: seq<string>)
    requires NoDuplicates(jdSkills) && |jdSkills| > 0
    ensures MatchScore(Matched(resumeSkills, jdSkills), jdSkills) == 100.0 <==> Missing(resumeSkills, jdSkills) == {}
  {
    var matched := Matched(resumeSkills, jdSkills);
    MatchedPlusMissingCount(resumeSkills, jdSkills);
    MatchedAtMostJd(resumeSkills, jdSkills);
    ToSetCardinality(jdSkills);
    PercentOf(|matched|, |jdSkills|, MatchScore(matched, jdSkills));
  }

  /** Two of three distinct job-description skills on the resume give a score of 200/3. */
  lemma TwoOfThreeScore(a: string, b: string, c: string)
    requires a != b && b != c && a != c
    ensures MatchScore(Matched([a, c], [a, b, c]), [a, b, c]) == 200.0 / 3.0
    ensures Missing([a, c], [a, b, c]) == {b}
  {
    assert Matched([a, c], [a, b, c]) == {a, c};
  }

  /** A resume with Python and Excel against a job description asking for Python, SQL and Excel scores 200/3 and misses SQL. */
  lemma PythonExcelAgainstThreeSkills()
    ensures MatchScore(Matched(["Python", "Excel"], ["Python", "SQL", "Excel"]), ["Python", "SQL", "Excel"]) == 200.0 / 3.0
    ensures Missing(["Python", "Excel"], ["Python", "SQL", "Excel"]) == {"SQL"}
  {
    TwoOfThreeScore("Python", "SQL", "Excel");
  }

  /** The analysis shown on the resume tab. */
  datatype Analysis = Analysis(matched: set<string>, missing: set<string>, score: real)

  /** The resume tab (career_harmony_app.py:53-58): extract both skill lists, then compare them. */
  function Analyze(resumeText: string, jdText: string): (a: Analysis)
    ensures forall w :: w in a.matched <==> w in ExtractSkills(resumeText) && w in ExtractSkills(jdText)
    ensures forall w :: w in a.missing <==> w in ExtractSkills(jdText) && w !in ExtractSkills(resumeText)
    ensures a.score == MatchScore(a.matched, ExtractSkills(jdText))
    ensures var jd := ExtractSkills(jdText);
      a.matched + a.missing == ToSet(jd) && a.matched * a.missing == {}
  {
    var resumeSkills := ExtractSkills(resumeText);
    var jdSkills := ExtractSkills(jdText);
    MatchedAndMissingPartitionJd(resumeSkills, jdSkills);
    Analysis(Matched(resumeSkills, jdSkills), Missing(resumeSkills, jdSkills), MatchScore(Matched(resumeSkills, jdSkills), jdSkills))
  }

  /**
   * The score of an analysis: 0 when the job description names no skill;
   * otherwise a percentage that is 100 exactly when nothing is missing.
   */
  lemma AnalysisScore(resumeText: string, jdText: string)
    ensures var a := Analyze(resumeText, jdText);
      (ExtractSkills(jdText) == [] ==> a.score == 0.0) &&
      0.0 <= a.score <= 100.0 &&
      (ExtractSkills(jdText) != [] ==> (a.score == 100.0 <==> a.missing == {}))
  {
    var resumeSkills := ExtractSkills(resumeText);
    var jdSkills := ExtractSkills(jdText);
    ScoreIsPercentage(resumeSkills, jdSkills);
    if jdSkills != [] {
      FullScoreIffNothingMissing(resumeSkills, jdSkills);
    }
  }

  /** An empty resume matches nothing, misses every job-description skill and scores 0. */
  lemma EmptyResumeScoresZero(jdText: string)
    ensures var a := Analyze("", jdText);
      a.matched == {} && a.missing == ToSet(ExtractSkills(jdText)) && a.score == 0.0
  {
    EmptyTextHasNoSkill();
    ScoreIsPercentage([], ExtractSkills(jdText));
  }

  /** A job description naming no skill gives nothing matched, nothing missing and a score of 0. */
  lemma JdWithoutSkillsScoresZero(resumeText: string, jdText: string)
    requires ExtractSkills(jdText) == []
    ensures var a := Analyze(resumeText, jdText);
      a.matched == {} && a.missing == {} && a.score == 0.0
  {
  }

  /** The missing skills of a job description whose skills are all on the resume: none. */
  lemma JdWithinResumeMeansNothingMissing(resumeText: string, jdText: string)
    ensures Analyze(resumeText, jdText).missing == {} <==>
      forall w :: w in ExtractSkills(jdText) ==> w in ExtractSkills(resumeText)
  {
  }

  /** The elements of xs that are not in ys, in order. */
  function Without(xs: seq<string>, ys: seq<string>): (r: seq<string>)
    ensures forall w :: w in r <==> w in xs && w !in ys
  {
    if xs == [] then []
    else (if xs[0] in ys then [] else [xs[0]]) + Without(xs[1..], ys)
  }

  /** `list(set(prep_jd_skills) - set(prep_resume_skills))`: the missing skills once each, in some order. */
  function PrepMissing(resumeSkills: seq<string>, jdSkills: seq<string>): (missing: seq<string>)
    ensures NoDuplicates(missing)
    ensures ToSet(missing) == Missing(resumeSkills, jdSkills)
  {
    Dedup(Without(jdSkills, resumeSkills))
  }

  /** The `opp_type` choices of the preparation tab. */
  datatype Opportunity = AIInterview | HumanInterview | CodingAssessment

  /**
   * What `get_ai_recommendations` does: report that every skill is covered,
   * or ask the coaching service about the missing skills for the opportunity.
   */
  datatype Recommendation =
    | AllSkillsCovered
    | CoachingRequest(missing: seq<string>, opportunity: Opportunity)

  /** `get_ai_recommendations(missing_skills, opp_type)` up to the request it sends. */
  function Recommend(missing: seq<string>, opportunity: Opportunity): (r: Recommendation)
    ensures r.AllSkillsCovered? <==> |missing| == 0
    ensures r.CoachingRequest? ==> r.missing == missing && r.opportunity == opportunity
  {
    if missing == [] then AllSkillsCovered else CoachingRequest(missing, opportunity)
  }

  /** The preparation tab reports full coverage exactly when every job-description skill is on the resume. */
  lemma CoveredIffJdSkillsOnResume(resumeSkills: seq<string>, jdSkills: seq<string>, opportunity: Opportunity)
    ensures Recommend(PrepMissing(resumeSkills, jdSkills), opportunity).AllSkillsCovered? <==>
      ToSet(jdSkills) <= ToSet(resumeSkills)
  {
    var missing := PrepMissing(resumeSkills, jdSkills);
    NoElementMeansEmpty(missing);
  }
}
