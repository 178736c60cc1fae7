/**
 * The scan that `re.findall(r'\b[A-Za-z\+\#]+\b', text)` performs.
 *
 * At each position the regular expression engine asks for a word boundary,
 * takes the longest run of characters of the class `[A-Za-z+#]`, and gives
 * characters back one at a time until the run also ends on a word boundary.
 * A match resumes the scan right after it; a failure moves on by one
 * character. Matches never overlap.
 *
 * The scan is written over the rest of the text still to be scanned; the
 * only thing it needs to remember of what lies behind is whether the last
 * character passed over is a word character (`before`).
 */
module Tokenizer {

  /** Python's `\w` on ASCII text: a letter, a digit or the underscore. */
  predicate IsWordChar(c: char) {
    ('a' <= c <= 'z') || ('A' <= c <= 'Z') || ('0' <= c <= '9') || c == '_'
  }

  predicate IsLetter(c: char) {
    ('a' <= c <= 'z') || ('A' <= c <= 'Z')
  }

  /** The character class `[A-Za-z\+\#]`. */
  predicate InClass(c: char) {
    IsLetter(c) || c == '+' || c == '#'
  }

  /** Neither a word character nor in the class: a space, a comma, a full stop, ... */
  predicate IsSeparator(c: char) {
    !IsWordChar(c) && !InClass(c)
  }

  /** A token: non-empty and made of class characters only. */
  predicate IsClassWord(t: string) {
    |t| > 0 && forall j :: 0 <= j < |t| ==> InClass(t[j])
  }

  /** A non-empty word of ASCII letters, the shape of every vocabulary entry without a space. */
  predicate IsLetterWord(w: string) {
    |w| > 0 && forall j :: 0 <= j < |w| ==> IsLetter(w[j])
  }

  /**
   * `\b` at position i of s: exactly one of the characters on either side is a
   * word character. `before` tells whether the character just before s[0] is
   * one; past the end there is no word character.
   */
  predicate BoundaryAt(before: bool, s: string, i: nat)
    requires i <= |s|
  {
    (if i == 0 then before else IsWordChar(s[i - 1])) != (i < |s| && IsWordChar(s[i]))
  }

  /** `\b` at position i of a whole text. */
  predicate AtBoundary(s: string, i: nat)
    requires i <= |s|
  {
    BoundaryAt(false, s, i)
  }

  /** The pattern matches s[p..p+k]. */
  predicate MatchesAt(before: bool, s: string, p: nat, k: nat) {
    0 < k && p + k <= |s| &&
    BoundaryAt(before, s, p) && BoundaryAt(before, s, p + k) &&
    forall j :: p <= j < p + k ==> InClass(s[j])
  }

  /** The pattern matches s[p..p+k] of a whole text. */
  predicate IsMatch(s: string, p: nat, k: nat) {
    MatchesAt(false, s, p, k)
  }

  /** Length of the longest run of class characters that starts s (the greedy `+`). */
  function RunLength(s: string): (n: nat)
    ensures n <= |s|
  {
    if s != [] && InClass(s[0]) then 1 + RunLength(s[1..]) else 0
  }

  /** The run is made of class characters and cannot be extended. */
  lemma {:induction false} RunLengthIsLongestRun(s: string)
    ensures var n := RunLength(s);
      (forall j :: 0 <= j < n ==> InClass(s[j])) && (n == |s| || !InClass(s[n]))
  {
    if s != [] && InClass(s[0]) {
      RunLengthIsLongestRun(s[1..]);
      var n := RunLength(s);
      forall j | 0 <= j < n ensures InClass(s[j]) {
        if j > 0 {
          assert s[j] == s[1..][j - 1];
        }
      }
      if n < |s| {
        assert s[n] == s[1..][n - 1];
      }
    }
  }

  /** Backtracking: the largest k <= n with a word boundary at k, or 0 (positions past 0 do not depend on `before`). */
  function Backtrack(before: bool, s: string, n: nat): (k: nat)
    requires n <= |s|
    ensures k <= n
  {
    if n == 0 then 0
    else if BoundaryAt(before, s, n) then n
    else Backtrack(before, s, n - 1)
  }

  /** Backtracking stops at the last boundary at or before n. */
  lemma {:induction false} BacktrackIsLastBoundary(before: bool, s: string, n: nat)
    requires n <= |s|
    ensures var k := Backtrack(before, s, n);
      (k > 0 ==> BoundaryAt(before, s, k)) && forall e :: k < e <= n ==> !BoundaryAt(before, s, e)
  {
    if n > 0 && !BoundaryAt(before, s, n) {
      BacktrackIsLastBoundary(before, s, n - 1);
    }
  }

  /** Length of the match found at the start of s, 0 when there is none. */
  function MatchLength(before: bool, s: string): (k: nat)
    ensures k <= |s|
  {
    if BoundaryAt(before, s, 0) then Backtrack(before, s, RunLength(s)) else 0
  }

  /** The match found at the start of s is a match, and the longest one there. */
  lemma MatchLengthIsLongestMatch(before: bool, s: string)
    ensures var k := MatchLength(before, s);
      (k == 0 || MatchesAt(before, s, 0, k)) && forall j :: k < j ==> !MatchesAt(before, s, 0, j)
  {
    RunLengthIsLongestRun(s);
    BacktrackIsLastBoundary(before, s, RunLength(s));
    var k := MatchLength(before, s);
    var n := RunLength(s);
    forall j | k < j
      ensures !MatchesAt(before, s, 0, j)
    {
      if j > n && n < |s| {
        assert !InClass(s[n]);
      }
    }
  }

  /** The matches found by a scan of s. */
  function Scan(before: bool, s: string): (ts: seq<string>)
    decreases |s|
  {
    if s == [] then []
    else
      var k := MatchLength(before, s);
      if k > 0 then [s[..k]] + Scan(IsWordChar(s[k - 1]), s[k..])
      else Scan(IsWordChar(s[0]), s[1..])
  }

  /** `re.findall(r'\b[A-Za-z\+\#]+\b', s)` */
  function FindAll(s: string): seq<string> {
    Scan(false, s)
  }

  /** A boundary inside the rest s[d..] is the boundary at the same place in s. */
  lemma ShiftBoundary(before: bool, s: string, d: nat, i: nat)
    requires 0 < d <= |s| && i <= |s| - d
    ensures BoundaryAt(IsWordChar(s[d - 1]), s[d..], i) == BoundaryAt(before, s, d + i)
  {
    if i > 0 {
      assert s[d..][i - 1] == s[d + i - 1];
    }
    if i < |s| - d {
      assert s[d..][i] == s[d + i];
    }
  }

  /** A match inside the rest s[d..] is a match at the same place in s. */
  lemma ShiftMatch(before: bool, s: string, d: nat, q: nat, t: string)
    requires 0 < d <= |s|
    requires MatchesAt(IsWordChar(s[d - 1]), s[d..], q, |t|) && s[d..][q..q + |t|] == t
    ensures MatchesAt(before, s, d + q, |t|) && s[d + q..d + q + |t|] == t
  {
    var n := |t|;
    ShiftBoundary(before, s, d, q);
    ShiftBoundary(before, s, d, q + n);
    forall j | d + q <= j < d + q + n ensures InClass(s[j]) {
      assert s[j] == s[d..][j - d];
    }
    assert s[d..][q..q + n] == s[d + q..d + q + n];
  }

  /** Where the scan of s resumes after its first step: past the match, or one character on. */
  function Resume(before: bool, s: string): (d: nat)
    requires s != []
    ensures 0 < d <= |s|
  {
    var k := MatchLength(before, s);
    if k > 0 then k else 1
  }

  /** The tokens of the scan that resumes after the first step are tokens of the whole scan. */
  lemma TokenOfRest(before: bool, s: string, t: string)
    requires s != []
    requires t in Scan(IsWordChar(s[Resume(before, s) - 1]), s[Resume(before, s)..])
    ensures t in Scan(before, s)
  {
  }

  /** A token of the scan is the match at the start or a token of the scan that resumes after it. */
  lemma TokenOfFirstOrRest(before: bool, s: string, t: string) returns (first: bool)
    requires t in Scan(before, s)
    ensures s != []
    ensures first ==> MatchLength(before, s) > 0 && t == s[..MatchLength(before, s)]
    ensures !first ==> t in Scan(IsWordChar(s[Resume(before, s) - 1]), s[Resume(before, s)..])
  {
    var k := MatchLength(before, s);
    first := k > 0 && t == s[..k];
  }

  /** The match found at the start of s sits at position 0. */
  lemma FirstTokenPosition(before: bool, s: string, t: string)
    requires MatchLength(before, s) > 0 && t == s[..MatchLength(before, s)]
    ensures MatchesAt(before, s, 0, |t|) && s[0..|t|] == t
  {
    var k := MatchLength(before, s);
    MatchLengthIsLongestMatch(before, s);
    assert s[0..k] == s[..k];
  }

  /** Where a token of the scan of s occurs in s, as a whole match. */
  lemma {:induction false} ScanTokenPosition(before: bool, s: string, t: string) returns (p: nat)
    requires t in Scan(before, s)
    ensures MatchesAt(before, s, p, |t|) && s[p..p + |t|] == t
    decreases |s|, 1
  {
    var first := TokenOfFirstOrRest(before, s, t);
    if first {
      FirstTokenPosition(before, s, t);
      p := 0;
    } else {
      p := RestTokenPosition(before, s, t);
    }
  }

  /** Where a token of the scan that resumes after the first step occurs in s. */
  lemma {:induction false} RestTokenPosition(before: bool, s: string, t: string) returns (p: nat)
    requires s != []
    requires t in Scan(IsWordChar(s[Resume(before, s) - 1]), s[Resume(before, s)..])
    ensures MatchesAt(before, s, p, |t|) && s[p..p + |t|] == t
    decreases |s|, 0
  {
    var d := Resume(before, s);
    var q := ScanTokenPosition(IsWordChar(s[d - 1]), s[d..], t);
    ShiftMatch(before, s, d, q, t);
    p := d + q;
  }

  /** `FindAll` only returns whole matches: a token of a text occurs in it with a word boundary on both sides. */
  lemma TokenIsMatch(s: string, t: string)
    requires t in FindAll(s)
    ensures exists p: nat :: IsMatch(s, p, |t|) && s[p..p + |t|] == t
  {
    var p := ScanTokenPosition(false, s, t);
    assert IsMatch(s, p, |t|);
  }

  /** w occurs at p with a separator (or the edge of the text) on each side. */
  predicate SeparatedAt(s: string, p: nat, w: string) {
    p + |w| <= |s| && s[p..p + |w|] == w &&
    (p == 0 || IsSeparator(s[p - 1])) &&
    (p + |w| == |s| || IsSeparator(s[p + |w|]))
  }

  /** A word of letters that starts s and is followed by a separator or the end is the match found there. */
  lemma LettersMatchLength(before: bool, s: string, w: string)
    requires IsLetterWord(w) && SeparatedAt(s, 0, w) && !before
    ensures MatchLength(before, s) == |w| && s[..|w|] == w
  {
    assert s[0] == w[0];
    forall j | 0 <= j < |w| ensures InClass(s[j]) {
      assert s[j] == w[j];
    }
    assert MatchesAt(before, s, 0, |w|) by {
      assert s[|w| - 1] == w[|w| - 1];
    }
    MatchLengthIsLongestMatch(before, s);
    var k := MatchLength(before, s);
    assert |w| < |s| ==> !InClass(s[|w|]);
  }

  /** A separated occurrence at p is still one in the rest s[d..], for d <= p. */
  lemma SeparatedInRest(s: string, p: nat, w: string, d: nat)
    requires SeparatedAt(s, p, w) && 0 < d <= p
    ensures SeparatedAt(s[d..], p - d, w)
  {
    var rest := s[d..];
    forall x | p <= x < p + |w| ensures rest[x - d] == s[x] {
    }
    assert rest[p - d..p - d + |w|] == s[p..p + |w|];
    if p - d > 0 {
      assert rest[p - d - 1] == s[p - 1];
    }
    if p + |w| < |s| {
      assert rest[p - d + |w|] == s[p + |w|];
    }
  }

  /** A match consists of class characters, so one that starts s ends before any separator. */
  lemma ResumeBeforeSeparator(before: bool, s: string, p: nat)
    requires 0 < p <= |s| && IsSeparator(s[p - 1])
    ensures Resume(before, s) <= p
  {
    RunLengthIsLongestRun(s);
    assert RunLength(s) < p;
  }

  /** A word of letters that stands between separators is always found. */
  lemma {:induction false} SeparatedLettersScanned(before: bool, s: string, p: nat, w: string)
    requires IsLetterWord(w) && SeparatedAt(s, p, w) && (p == 0 ==> !before)
    ensures w in Scan(before, s)
    decreases |s|
  {
    if p == 0 {
      LettersMatchLength(before, s, w);
    } else {
      ResumeBeforeSeparator(before, s, p);
      var d := Resume(before, s);
      SeparatedInRest(s, p, w, d);
      SeparatedLettersScanned(IsWordChar(s[d - 1]), s[d..], p - d, w);
      TokenOfRest(before, s, w);
    }
  }

  /** A vocabulary-shaped word that stands between separators in a text is one of its tokens. */
  lemma SeparatedLettersFound(s: string, p: nat, w: string)
    requires IsLetterWord(w) && SeparatedAt(s, p, w)
    ensures w in FindAll(s)
  {
    SeparatedLettersScanned(false, s, p, w);
  }

  /** A word of letters followed by a separator is a token; the scan then goes on as on the rest alone. */
  lemma FindAllWordThenRest(w: string, c: char, rest: string)
    requires IsLetterWord(w) && IsSeparator(c)
    ensures FindAll(w + [c] + rest) == [w] + FindAll(rest)
  {
    var s := w + [c] + rest;
    LettersMatchLength(false, s, w);
    assert s[|w|..] == [c] + rest;
    assert Scan(false, s) == [w] + Scan(true, [c] + rest);
    assert ([c] + rest)[1..] == rest;
    assert MatchLength(true, [c] + rest) == 0;
  }

  /** A leading separator contributes nothing. */
  lemma FindAllSeparatorThenRest(c: char, rest: string)
    requires IsSeparator(c)
    ensures FindAll([c] + rest) == FindAll(rest)
  {
  }

  /** A text that is one word of letters is one token. */
  lemma FindAllWord(w: string)
    requires IsLetterWord(w)
    ensures FindAll(w) == [w]
  {
    LettersMatchLength(false, w, w);
    assert w[|w|..] == [];
    assert Scan(false, w) == [w[..|w|]] + Scan(IsWordChar(w[|w| - 1]), w[|w|..]);
  }

  /** Every token is a non-empty run of class characters: no token holds a space, a digit or an underscore. */
  lemma TokensAreClassWords(s: string, t: string)
    requires t in FindAll(s)
    ensures IsClassWord(t)
  {
    var p := ScanTokenPosition(false, s, t);
    forall j | 0 <= j < |t| ensures InClass(t[j]) {
      assert t[j] == s[p + j];
    }
  }

  /** t occurs in s at position p. */
  predicate OccursAt(s: string, p: nat, t: string) {
    p + |t| <= |s| && s[p..p + |t|] == t
  }

  /** A token that starts and ends with a letter stands in the text with no word character touching it. */
  lemma LetterTokenStandsAlone(s: string, t: string)
    requires t in FindAll(s) && IsLetterWord(t)
    ensures exists p: nat ::
              OccursAt(s, p, t) &&
              (p == 0 || !IsWordChar(s[p - 1])) && (p + |t| == |s| || !IsWordChar(s[p + |t|]))
  {
    var p := ScanTokenPosition(false, s, t);
    assert s[p] == t[0] && s[p + |t| - 1] == t[|t| - 1];
    assert OccursAt(s, p, t) &&
      (p == 0 || !IsWordChar(s[p - 1])) && (p + |t| == |s| || !IsWordChar(s[p + |t|]));
  }

  /**
   * A token that ends in `+` or `#` is always followed by a word character:
   * at the end of a text or before a space the trailing symbols are given back.
   */
  lemma SymbolEndedTokenIsFollowedByWordChar(s: string, t: string)
    requires t in FindAll(s) && |t| > 0 && !IsWordChar(t[|t| - 1])
    ensures exists p: nat :: OccursAt(s, p, t) && p + |t| < |s| && IsWordChar(s[p + |t|])
  {
    var p := ScanTokenPosition(false, s, t);
    assert s[p + |t| - 1] == t[|t| - 1];
    assert BoundaryAt(false, s, p + |t|);
    assert OccursAt(s, p, t) && p + |t| < |s| && IsWordChar(s[p + |t|]);
  }

  /** Inside a run of word characters there is no word boundary, so a scan that starts inside it finds nothing. */
  lemma {:induction false} ScanInsideWord(s: string)
    requires forall j :: 0 <= j < |s| ==> IsWordChar(s[j])
    ensures Scan(true, s) == []
    decreases |s|
  {
    if s != [] {
      assert !BoundaryAt(true, s, 0);
      ScanInsideWord(s[1..]);
    }
  }

  /**
   * A text made only of word characters, one of which is a digit or an
   * underscore, has no token at all: `Python3` and `my_Python` yield nothing.
   */
  lemma WordWithDigitOrUnderscoreHasNoToken(s: string, i: nat)
    requires forall j :: 0 <= j < |s| ==> IsWordChar(s[j])
    requires i < |s| && !InClass(s[i])
    ensures FindAll(s) == []
  {
    RunLengthIsLongestRun(s);
    var n := RunLength(s);
    assert n <= i;
    BacktrackIsLastBoundary(false, s, n);
    var k := Backtrack(false, s, n);
    forall e | 0 < e < |s| ensures !BoundaryAt(false, s, e) {
      assert IsWordChar(s[e - 1]) && IsWordChar(s[e]);
    }
    assert MatchLength(false, s) == 0;
    ScanInsideWord(s[1..]);
  }

  /** Words joined by single spaces, as in a line of prose. */
  function JoinWords(ws: seq<string>): string {
    if |ws| <= 1 then (if ws == [] then "" else ws[0])
    else ws[0] + [' '] + JoinWords(ws[1..])
  }

  /** Words of letters joined by single spaces are found back, each in its place. */
  lemma {:induction false} FindAllJoinWords(ws: seq<string>)
    requires forall i :: 0 <= i < |ws| ==> IsLetterWord(ws[i])
    ensures FindAll(JoinWords(ws)) == ws
  {
    if |ws| == 1 {
      FindAllWord(ws[0]);
    } else if |ws| > 1 {
      FindAllJoinWords(ws[1..]);
      FindAllWordThenRest(ws[0], ' ', JoinWords(ws[1..]));
    }
  }

  /** After a word character, `++ ` holds no match: the run `++` ends between two non-word characters. */
  lemma SymbolsBeforeSpaceAreNoMatch()
    ensures Scan(true, "++ ") == []
  {
  }

  /** `C++ ` yields `C`: the trailing `++` is given back because no word boundary follows it. */
  lemma TrailingSymbolsGivenBack()
    ensures FindAll("C++ ") == ["C"]
  {
    var s := "C++ ";
    assert RunLength(s) == 3 by {
      assert s[1..] == "++ " && s[1..][1..] == "+ " && s[1..][1..][1..] == " ";
    }
    assert Backtrack(false, s, 3) == 1;
    assert MatchLength(false, s) == 1;
    assert s[1..] == "++ " && s[..1] == "C" && IsWordChar(s[0]);
    assert Scan(false, s) == [s[..1]] + Scan(true, s[1..]);
    SymbolsBeforeSpaceAreNoMatch();
  }
}
