/**
 * `extract_skills`: the tokens of a text that are in the fixed skill
 * vocabulary, each once.
 */
module SkillMatcher {
  import opened Collections
  import opened Tokenizer

  /** The `common_skills` vocabulary, in the order the application lists it. */
  const CommonSkills: seq<string> :=
    ["Python", "SQL", "Tableau", "Machine Learning", "Excel",
     "Communication", "Power BI", "R", "Data Analysis", "Statistics"]

  /** The vocabulary entries without a space: the only ones a token can equal. */
  const SingleWordSkills: seq<string> :=
    ["Python", "SQL", "Tableau", "Excel", "Communication", "R", "Statistics"]

  /** The vocabulary entries holding a space: no token can equal them. */
  const MultiWordSkills: seq<string> :=
    ["Machine Learning", "Power BI", "Data Analysis"]

  /** `[w for w in words if w in common_skills]`: each vocabulary token as often as it occurs, nothing else. */
  function KeepKnown(words: seq<string>): (found: seq<string>)
    ensures forall w :: multiset(found)[w] == if w in CommonSkills then multiset(words)[w] else 0
  {
    if words == [] then []
    else
      assert words == [words[0]] + words[1..];
      (if words[0] in CommonSkills then [words[0]] else []) + KeepKnown(words[1..])
  }

  /** `extract_skills(text)` */
  function ExtractSkills(text: string): (skills: seq<string>)
    ensures NoDuplicates(skills)
    ensures forall w :: w in skills <==> w in CommonSkills && w in FindAll(text)
  {
    var found := KeepKnown(FindAll(text));
    assert forall w :: w in found <==> multiset(found)[w] > 0;
    assert forall w :: w in FindAll(text) <==> multiset(FindAll(text))[w] > 0;
    Dedup(found)
  }

  /** The vocabulary is its single-word entries and its multi-word entries. */
  lemma VocabularySplits()
    ensures forall w :: w in CommonSkills <==> w in SingleWordSkills || w in MultiWordSkills
    ensures forall w :: w in SingleWordSkills ==> IsLetterWord(w)
    ensures forall w :: w in MultiWordSkills ==> !IsClassWord(w)
  {
    assert MultiWordSkills[0][7] == ' ';
    assert MultiWordSkills[1][5] == ' ';
    assert MultiWordSkills[2][4] == ' ';
  }

  /** Every skill found is one of the seven vocabulary entries without a space. */
  lemma FoundSkillsAreSingleWords(text: string)
    ensures forall w :: w in ExtractSkills(text) ==> w in SingleWordSkills
  {
    VocabularySplits();
    forall w | w in ExtractSkills(text) ensures w in SingleWordSkills {
      TokensAreClassWords(text, w);
    }
  }

  /** `Machine Learning`, `Power BI` and `Data Analysis` are never found, whatever the text. */
  lemma MultiWordSkillsNeverFound(text: string)
    ensures forall w :: w in MultiWordSkills ==> w !in ExtractSkills(text)
  {
    FoundSkillsAreSingleWords(text);
  }

  /** A skill is found only where it stands as a whole word: no letter, digit or `_` touches it. */
  lemma FoundSkillStandsAlone(text: string, w: string)
    requires w in ExtractSkills(text)
    ensures exists p: nat ::
              OccursAt(text, p, w) &&
              (p == 0 || !IsWordChar(text[p - 1])) && (p + |w| == |text| || !IsWordChar(text[p + |w|]))
  {
    FoundSkillsAreSingleWords(text);
    VocabularySplits();
    LetterTokenStandsAlone(text, w);
  }

  /** A single-word skill written between separators (or the ends of the text) is always found. */
  lemma SeparatedSkillIsFound(text: string, p: nat, w: string)
    requires w in SingleWordSkills && SeparatedAt(text, p, w)
    ensures w in ExtractSkills(text)
  {
    VocabularySplits();
    SeparatedLettersFound(text, p, w);
  }

  /** A text none of whose tokens is in the vocabulary, the empty text among them, has no skill. */
  lemma NoVocabularyTokenNoSkill(text: string)
    requires forall t :: t in FindAll(text) ==> t !in CommonSkills
    ensures ExtractSkills(text) == []
  {
    NoElementMeansEmpty(ExtractSkills(text));
  }

  lemma EmptyTextHasNoSkill()
    ensures ExtractSkills("") == []
  {
    NoVocabularyTokenNoSkill("");
  }

  /** A text that is a single word of letters outside the vocabulary has no skill. */
  lemma UnknownWordIsNotASkill(w: string)
    requires IsLetterWord(w) && w !in CommonSkills
    ensures ExtractSkills(w) == []
  {
    FindAllWord(w);
    NoVocabularyTokenNoSkill(w);
  }

  /** Matching is case-sensitive: `python` is a token, but not the skill `Python`. */
  lemma LowerCaseIsNotASkill()
    ensures ExtractSkills("python") == []
  {
    UnknownWordIsNotASkill("python");
  }

  /** `Pythonic` does not yield `Python`: a token must equal a vocabulary entry, not start with one. */
  lemma LongerWordIsNotASkill()
    ensures ExtractSkills("Pythonic") == []
  {
    UnknownWordIsNotASkill("Pythonic");
  }

  /** A digit glued to `Python` removes every token. */
  lemma GluedDigitHidesSkill()
    ensures ExtractSkills("Python3") == []
  {
    WordWithDigitOrUnderscoreHasNoToken("Python3", 6);
    NoVocabularyTokenNoSkill("Python3");
  }

  /** An underscore glued to `Python` removes every token. */
  lemma GluedUnderscoreHidesSkill()
    ensures ExtractSkills("my_Python") == []
  {
    WordWithDigitOrUnderscoreHasNoToken("my_Python", 2);
    NoVocabularyTokenNoSkill("my_Python");
  }

  /** `R&D` contains the skill `R`: `&` is neither a word character nor in the token class. */
  lemma AmpersandSeparatesR()
    ensures "R" in ExtractSkills("R&D")
  {
    assert SeparatedAt("R&D", 0, "R");
    SeparatedSkillIsFound("R&D", 0, "R");
  }

  /** In a line of plain words, the skills are exactly the vocabulary entries among its words. */
  lemma SkillsOfPlainLine(ws: seq<string>)
    requires forall i :: 0 <= i < |ws| ==> IsLetterWord(ws[i])
    ensures forall w :: w in ExtractSkills(JoinWords(ws)) <==> w in CommonSkills && w in ws
  {
    FindAllJoinWords(ws);
  }

  /** The words of a resume line. */
  const ResumeLine: seq<string> := ["Experienced", "in", "Python", "and", "Excel"]

  /** The resume line is made of words of letters. */
  lemma ResumeLineIsLetterWords()
    ensures forall i :: 0 <= i < |ResumeLine| ==> IsLetterWord(ResumeLine[i])
  {
  }

  /** The tokens of the resume line are its words, in order. */
  lemma ResumeLineTokens()
    ensures FindAll("Experienced in Python and Excel") == ResumeLine
  {
    assert JoinWords(ResumeLine) == "Experienced in Python and Excel";
    ResumeLineIsLetterWords();
    FindAllJoinWords(ResumeLine);
  }

  /** The skills of a text, counted: as many as there are distinct vocabulary entries among its tokens. */
  lemma SkillsAreTheVocabularyTokens(text: string, tokens: seq<string>, expected: set<string>)
    requires FindAll(text) == tokens
    requires forall w :: w in expected <==> w in CommonSkills && w in tokens
    ensures forall w :: w in ExtractSkills(text) <==> w in expected
    ensures |ExtractSkills(text)| == |expected|
  {
    DistinctCount(ExtractSkills(text), expected);
  }

  /** The vocabulary entries among the words of the resume line are Python and Excel. */
  lemma ResumeLineVocabulary()
    ensures forall w :: w in {"Python", "Excel"} <==> w in CommonSkills && w in ResumeLine
  {
  }
}
