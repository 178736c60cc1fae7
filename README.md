# CareerHarmony skill matching, modelled in Dafny

CareerHarmony is a Streamlit application. It compares a resume with a job
description by the skills each one names. This project models the part of
`career_harmony_app.py` that computes that comparison, and proves properties
of the model.

- **Tokenizer** (`tokenizer.dfy`) is the scan that
  `re.findall(r'\b[A-Za-z\+\#]+\b', text)` performs.
  - At each position it needs a word boundary.
  - It takes the longest run of letters, `+` and `#`, then gives characters
    back until the run ends on a word boundary.
  - After a match the scan resumes past it; otherwise it moves on one
    character.
  - Proved: every token is a whole match. A word of letters between
    separators is always a token. The observable quirks are derived:
    - `C++ ` yields `C`;
    - `Python3` and `my_Python` yield nothing;
    - a token ending in `+` or `#` must be followed by a word character.
- **SkillMatcher** (`skills.dfy`) is `extract_skills`: the tokens found in
  the ten-entry `common_skills` vocabulary, each once.
  - Proved: the result has no duplicates, and a skill is in it exactly when
    some token equals it.
  - Only the seven entries without a space can ever be found; `Machine
    Learning`, `Power BI` and `Data Analysis` never are.
  - Matching is exact and case-sensitive.
- **Scoring** (`scoring.dfy`) covers the matched and missing skill sets, the
  match score, and the missing-skill list of the preparation tab.
  - It also covers the early return of `get_ai_recommendations`.
  - Proved: matched and missing partition the job-description skills. The
    score is a percentage; it is 100 exactly when nothing is missing, and 0
    when the job description names no skill.
- **Extractor** (`extractor.dfy`) is `extract_text`, which dispatches on the
  ending of the file name.
  - The PDF branch is a loop that appends page texts. It is proved to
    produce the texts of the pages that have text, in order.
- **CareerHarmony** (`app.dfy`) covers the two tabs that chain these steps,
  from uploaded files to the analysis or the preparation advice.
- **Collections** (`collections.dfy`) holds `set(...)` and `list(set(...))` on
  sequences. **Wrappers** (`wrappers.dfy`) holds `Option` and `Result`.

Python's `list(set(xs))` has an order that depends on string hashing. The
model keeps each element where it first occurs, and no contract depends on
that order.

The parsers (`pdfplumber`, `docx2txt`, UTF-8 decoding) are not part of this
model. An `Upload` value carries what each of them would return for the
file, or the error it would raise.

Two facts about the code shape the model:

- Matching compares whole regular-expression tokens, not substrings, so
  `Pythonic` does not yield `Python`.
- A parser error propagates out of `extract_text`, because no `try`
  surrounds it. The model returns it as a `Failure`, and the tabs show it
  as `Failed`.

## Model

| member | source | states |
|---|---|---|
| Tokenizer.MatchLength | career_harmony_app.py:43 | the match taken at the start of the text is no longer than the text; that it is a match and the longest one is `Tokenizer.MatchLengthIsLongestMatch` |
| Tokenizer.Scan | career_harmony_app.py:43 | the tokens of a scan that resumes after each match, or one character on; that every token is a whole match is `Tokenizer.ScanTokenPosition` |
| Tokenizer.FindAll | career_harmony_app.py:43 | `re.findall` as a scan from the start of the text; its contract is carried by `Tokenizer.TokenIsMatch`, `Tokenizer.TokensAreClassWords` and `Tokenizer.SeparatedLettersFound` |
| Tokenizer.RunLengthIsLongestRun | career_harmony_app.py:43 | the greedy `+` run is made of class characters and the next character is not one |
| Tokenizer.BacktrackIsLastBoundary | career_harmony_app.py:43 | backtracking stops at the last word boundary at or before the end of the run, or at 0 |
| Tokenizer.MatchLengthIsLongestMatch | career_harmony_app.py:43 | the match taken at a position is a match (boundaries at both ends, class characters inside) and no longer one exists there |
| Tokenizer.ScanTokenPosition | career_harmony_app.py:43 | every token of a scan occurs in the scanned text as a whole match |
| Tokenizer.TokenIsMatch | career_harmony_app.py:43 | every token returned by `findall` occurs in the text with a word boundary on both sides |
| Tokenizer.TokensAreClassWords | career_harmony_app.py:43 | every token is non-empty and made only of ASCII letters, `+` and `#` |
| Tokenizer.LetterTokenStandsAlone | career_harmony_app.py:43 | a token of letters occurs with no letter, digit or `_` touching it on either side |
| Tokenizer.SymbolEndedTokenIsFollowedByWordChar | career_harmony_app.py:43 | a token ending in `+` or `#` is always followed by a word character in the text |
| Tokenizer.SeparatedLettersFound | career_harmony_app.py:43 | a word of letters with a separator or the end of the text on each side is always a token |
| Tokenizer.FindAllWordThenRest | career_harmony_app.py:43 | a word of letters followed by a separator is the first token, and scanning goes on as on the rest alone |
| Tokenizer.FindAllSeparatorThenRest | career_harmony_app.py:43 | a leading separator contributes no token |
| Tokenizer.FindAllWord | career_harmony_app.py:43 | a text that is one word of letters is exactly one token |
| Tokenizer.FindAllJoinWords | career_harmony_app.py:43 | words of letters joined by single spaces tokenize into exactly those words, in order |
| Tokenizer.ScanInsideWord | career_harmony_app.py:43 | a scan starting inside a run of word characters finds no match in it |
| Tokenizer.WordWithDigitOrUnderscoreHasNoToken | career_harmony_app.py:43 | a text of word characters that holds a digit or `_` has no token at all |
| Tokenizer.SymbolsBeforeSpaceAreNoMatch | career_harmony_app.py:43 | after a word character, `++ ` holds no match |
| Tokenizer.TrailingSymbolsGivenBack | career_harmony_app.py:43 | `C++ ` yields the single token `C` |
| SkillMatcher.KeepKnown | career_harmony_app.py:46 | the comprehension keeps each vocabulary token as often as it occurs and drops every other token |
| Collections.ToSet | career_harmony_app.py:56-57 | `set(xs)`: an element is in the set exactly when it is in the list |
| Collections.Dedup | career_harmony_app.py:47 | `list(set(...))` has no duplicates and the same elements as its argument |
| SkillMatcher.ExtractSkills | career_harmony_app.py:42-47 | the skills have no duplicates, and a string is a skill exactly when it is in the vocabulary and is a token of the text |
| SkillMatcher.VocabularySplits | career_harmony_app.py:44-45 | the vocabulary is seven words of letters plus three entries holding a space |
| SkillMatcher.FoundSkillsAreSingleWords | career_harmony_app.py:43-46 | every skill found is one of `Python`, `SQL`, `Tableau`, `Excel`, `Communication`, `R`, `Statistics` |
| SkillMatcher.MultiWordSkillsNeverFound | career_harmony_app.py:43-46 | `Machine Learning`, `Power BI` and `Data Analysis` are never found, whatever the text |
| SkillMatcher.FoundSkillStandsAlone | career_harmony_app.py:43-46 | a skill is found only where it stands in the text with no letter, digit or `_` touching it |
| SkillMatcher.SeparatedSkillIsFound | career_harmony_app.py:43-46 | a single-word skill with a separator or the end of the text on each side is always found |
| SkillMatcher.NoVocabularyTokenNoSkill | career_harmony_app.py:43-47 | a text with no token in the vocabulary has no skill |
| SkillMatcher.EmptyTextHasNoSkill | career_harmony_app.py:43-47 | the empty text has no skill |
| SkillMatcher.UnknownWordIsNotASkill | career_harmony_app.py:43-46 | a single word of letters outside the vocabulary has no skill |
| SkillMatcher.LowerCaseIsNotASkill | career_harmony_app.py:43-46 | `python` has no skill: matching is case-sensitive |
| SkillMatcher.LongerWordIsNotASkill | career_harmony_app.py:43-46 | `Pythonic` has no skill |
| SkillMatcher.GluedDigitHidesSkill | career_harmony_app.py:43-46 | `Python3` has no skill |
| SkillMatcher.GluedUnderscoreHidesSkill | career_harmony_app.py:43-46 | `my_Python` has no skill |
| SkillMatcher.AmpersandSeparatesR | career_harmony_app.py:43-46 | `R&D` has the skill `R` |
| SkillMatcher.SkillsOfPlainLine | career_harmony_app.py:43-47 | in words joined by spaces, the skills are exactly the vocabulary entries among the words |
| SkillMatcher.ResumeLineIsLetterWords | career_harmony_app.py:43 | the words of the line `Experienced in Python and Excel` are words of letters |
| SkillMatcher.ResumeLineTokens | career_harmony_app.py:43 | `Experienced in Python and Excel` tokenizes into its five words |
| SkillMatcher.ResumeLineVocabulary | career_harmony_app.py:44-46 | of those five words, exactly `Python` and `Excel` are vocabulary entries |
| SkillMatcher.SkillsAreTheVocabularyTokens | career_harmony_app.py:46-47 | the skills are the distinct vocabulary entries among the tokens, and there are as many of them |
| Collections.ToSetCardinality | career_harmony_app.py:58 | a list is at least as long as its set, and exactly as long when it has no duplicates |
| Scoring.Matched | career_harmony_app.py:56 | a skill is matched exactly when it is among both the resume and the job-description skills |
| Scoring.Missing | career_harmony_app.py:57 | a skill is missing exactly when it is a job-description skill and not a resume skill |
| Scoring.MatchedAndMissingPartitionJd | career_harmony_app.py:56-57 | matched lies in both skill sets, missing is disjoint from the resume skills, and matched and missing partition the job-description skills |
| Scoring.MatchedPlusMissingCount | career_harmony_app.py:56-57 | the matched and missing counts add up to the number of distinct job-description skills |
| Scoring.MatchScore | career_harmony_app.py:58 | the score is 0 for an empty job-description list, and otherwise is the number with score × len(jd_skills) = 100 × len(matched) |
| Scoring.MatchedAtMostJd | career_harmony_app.py:56-58 | no more skills are matched than the job-description list holds |
| Scoring.ScoreIsPercentage | career_harmony_app.py:58 | the score lies in [0, 100], and is 0 exactly when the list is empty or nothing is matched |
| Scoring.FullScoreIffNothingMissing | career_harmony_app.py:57-58 | for a non-empty list without duplicates, the score is 100 exactly when no skill is missing |
| Scoring.TwoOfThreeScore | career_harmony_app.py:56-58 | two of three distinct job-description skills on the resume score 200/3, and the third is missing |
| Scoring.PythonExcelAgainstThreeSkills | career_harmony_app.py:56-58 | resume skills Python and Excel against Python, SQL and Excel score 200/3 and miss SQL |
| Scoring.Analyze | career_harmony_app.py:53-58 | a skill is matched exactly when it is a skill of both texts, and missing exactly when it is a job-description skill and not a resume skill; the two partition the job-description skills; the score is the match score of the matched set against the job-description list |
| Scoring.AnalysisScore | career_harmony_app.py:53-58 | the score is 0 when the job description names no skill; otherwise it is in [0, 100] and is 100 exactly when nothing is missing |
| Scoring.EmptyResumeScoresZero | career_harmony_app.py:53-58 | an empty resume matches nothing, misses every job-description skill and scores 0 |
| Scoring.JdWithoutSkillsScoresZero | career_harmony_app.py:53-58 | a job description naming no skill gives nothing matched, nothing missing and a score of 0 |
| Scoring.JdWithinResumeMeansNothingMissing | career_harmony_app.py:53-57 | nothing is missing exactly when every job-description skill is a resume skill |
| Scoring.Without | career_harmony_app.py:86 | keeps exactly the elements of the first list that are not in the second |
| Scoring.PrepMissing | career_harmony_app.py:86 | the preparation tab's missing list has no duplicates, and its set is job-description skills minus resume skills |
| Scoring.Recommend | career_harmony_app.py:88-90 | the advice is "all skills covered" exactly when the missing list is empty; otherwise the request carries that list and the opportunity type |
| Scoring.CoveredIffJdSkillsOnResume | career_harmony_app.py:86-90 | the preparation tab reports full coverage exactly when every job-description skill is a resume skill |
| Extractor.SuffixesAreExclusive | career_harmony_app.py:30-40 | no file name ends in two of `.pdf`, `.docx`, `.txt`, so the order of the tests does not matter |
| Extractor.PageText | career_harmony_app.py:34 | `page.extract_text() or ""`; that a page without text leaves no trace is `Extractor.ConcatPagesIsPresentTexts` |
| Extractor.ConcatPages | career_harmony_app.py:32-34 | the page texts one after the other; `Extractor.ConcatPagesAppend` and `Extractor.ConcatPagesIsPresentTexts` state what it computes |
| Extractor.ExtractedText | career_harmony_app.py:29-40 | `extract_text` as a function; its contract is carried by the five upload lemmas below and by `Extractor.ExtractText` |
| Extractor.ConcatPagesAppend | career_harmony_app.py:32-34 | the text of a document split in two is the text of the first part followed by that of the second |
| Extractor.ConcatPagesIsPresentTexts | career_harmony_app.py:33-34 | the concatenated text is the texts of the pages that have text, in order; a page without text leaves no trace |
| Extractor.PdfText | career_harmony_app.py:31-35 | the loop's text is the concatenation of all page texts, in page order |
| Extractor.ExtractText | career_harmony_app.py:29-40 | the result is the suffix dispatch: PDF pages, DOCX text, decoded text, or empty text; a parser error is returned as a failure |
| Extractor.PdfUploadGivesPageTexts | career_harmony_app.py:30-35 | a `.pdf` upload that the reader opens gives the texts of its pages with text, in order |
| Extractor.DocxUploadGivesDocxText | career_harmony_app.py:36-37 | a `.docx` upload gives the DOCX reader's result |
| Extractor.TxtUploadGivesDecodedText | career_harmony_app.py:38-39 | a `.txt` upload gives its UTF-8 decoding |
| Extractor.OtherUploadGivesEmptyText | career_harmony_app.py:40 | any other upload gives the empty text |
| Extractor.FailureComesFromItsParser | career_harmony_app.py:29-40 | an extraction fails only when the parser for the file's own kind fails |
| CareerHarmony.AnalyzeUploads | career_harmony_app.py:49-58 | the tab waits until both files are there. It fails with the resume's error, or else the job description's. Otherwise it shows the analysis of the two extracted texts |
| CareerHarmony.PrepareAdvice | career_harmony_app.py:82-90 | the tab waits for a resume and a non-empty job description, and fails exactly when the resume cannot be read. Otherwise it shows the advice, which is "covered" exactly when every job-description skill is a resume skill |

## Left out

- The Streamlit interface is not modelled. This covers the page set-up, tabs, uploaders, text areas, buttons, `st.write` output, the "Suggested Resume Additions" loop and the chatbot tab. It is presentation only.
- The OpenAI client and its chat calls are not modelled: they are network calls. `CoachingRequest` records what the prompt is built from, the missing skills and the opportunity type. The reply and the caught-and-displayed API error are not modelled.
- The API-key secret is not modelled; it is configuration input.
- `pdfplumber`, `docx2txt` and `bytes.decode("utf-8")` are inputs of the model, not models: an `Upload` carries their results.
- Extractor.PdfText: an error raised by the PDF reader on a later page is modelled as a failure of the whole document. The text gathered before the error is lost in the code as well.
- Scoring.MatchScore: is an exact rational; it does not model `round(..., 2)` or floating-point division.
- Tokenizer.IsWordChar: is ASCII letters, digits and `_`. Python's `\w` on `str` also matches non-ASCII letters and digits (so `é` next to a word changes the boundaries). The character class `[A-Za-z+#]` itself is ASCII in both.
- Collections.Dedup: keeps the first occurrence of each element. Python's `list(set(...))` order depends on string hashing. No contract in the model depends on the order.
- Scoring.PrepMissing: fixes an order for `list(set(...) - set(...))` in the same way.
- The scenario with the literal text `Experienced in Python and Excel` is not proved end to end on `ExtractSkills`. It is proved in three steps: `SkillMatcher.ResumeLineTokens` gives the tokens, `SkillMatcher.ResumeLineVocabulary` gives the vocabulary entries among them, and `SkillMatcher.SkillsAreTheVocabularyTokens` turns those two into the skills.
