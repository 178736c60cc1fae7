/**
 * The two tabs that run the skill matching: the resume analysis and the
 * interview preparation. An upload slot is empty until a file is uploaded.
 */
module CareerHarmony {
  import opened Wrappers
  import opened Collections
  import opened SkillMatcher
  import opened Extractor
  import opened Scoring

  /** What a tab shows: nothing yet, the error a parser raised, or its result. */
  datatype Outcome<T> = Waiting | Failed(error: string) | Shown(value: T)

  /** The resume tab (career_harmony_app.py:49-58): both files are needed; the resume is read first. */
  method AnalyzeUploads(resume: Option<Upload>, jd: Option<Upload>) returns (o: Outcome<Analysis>)
    ensures o.Waiting? <==> resume.None? || jd.None?
    ensures o.Failed? ==>
      (ExtractedText(resume.value).Failure? && o.error == ExtractedText(resume.value).error) ||
      (ExtractedText(resume.value).Success? && ExtractedText(jd.value).Failure? && o.error == ExtractedText(jd.value).error)
    ensures o.Shown? <==> resume.Some? && jd.Some? && ExtractedText(resume.value).Success? && ExtractedText(jd.value).Success?
    ensures o.Shown? ==> o.value == Analyze(ExtractedText(resume.value).value, ExtractedText(jd.value).value)
  {
    if resume.None? || jd.None? {
      return Waiting;
    }
    var resumeText := ExtractText(resume.value);
    if resumeText.Failure? {
      return Failed(resumeText.error);
    }
    var jdText := ExtractText(jd.value);
    if jdText.Failure? {
      return Failed(jdText.error);
    }
    o := Shown(Analyze(resumeText.value, jdText.value));
  }

  /**
   * The preparation tab (career_harmony_app.py:82-90, 104-106): a resume
   * file and a non-empty pasted job description are needed.
   */
  method PrepareAdvice(resume: Option<Upload>, jdText: string, opportunity: Opportunity) returns (o: Outcome<Recommendation>)
    ensures o.Waiting? <==> resume.None? || jdText == ""
    ensures o.Failed? <==> resume.Some? && jdText != "" && ExtractedText(resume.value).Failure?
    ensures o.Failed? ==> o.error == ExtractedText(resume.value).error
    ensures o.Shown? ==>
      var resumeSkills := ExtractSkills(ExtractedText(resume.value).value);
      o.value == Recommend(PrepMissing(resumeSkills, ExtractSkills(jdText)), opportunity) &&
      (o.value.AllSkillsCovered? <==> forall w :: w in ExtractSkills(jdText) ==> w in resumeSkills)
  {
    if resume.None? || jdText == "" {
      return Waiting;
    }
    var resumeText := ExtractText(resume.value);
    if resumeText.Failure? {
      return Failed(resumeText.error);
    }
    var jdSkills := ExtractSkills(jdText);
    var resumeSkills := ExtractSkills(resumeText.value);
    var missing := PrepMissing(resumeSkills, jdSkills);
    CoveredIffJdSkillsOnResume(resumeSkills, jdSkills, opportunity);
    o := Shown(Recommend(missing, opportunity));
  }
}
