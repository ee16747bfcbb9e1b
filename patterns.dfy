/** The three fixed patterns of the highlighter, each encoded directly as a
    matcher that says whether the pattern matches at one position of the
    buffer and, if so, where that match ends. Python's `\w` is left abstract:
    every matcher that needs it takes it as the predicate `isWord`. */
module Patterns {

  datatype Option<T> = None | Some(value: T)

  /** The reserved words of the keyword pattern, in the order of its alternation. */
  const Keywords: seq<string> :=
    ["def", "class", "if", "else", "elif", "for", "while", "return", "import", "from",
     "as", "with", "try", "except", "finally", "print", "in", "is", "and", "or", "not"]

  predicate IsQuote(c: char)
  {
    c == '"' || c == '\''
  }

  /** Every word of ws is a non-empty run of lower-case ASCII letters. */
  ghost predicate LowerWords(ws: seq<string>)
  {
    forall j :: 0 <= j < |ws| ==> |ws[j]| >= 1 && forall k :: 0 <= k < |ws[j]| ==> 'a' <= ws[j][k] <= 'z'
  }

  /** The reserved words are such words. */
  lemma KeywordsAreLowerWords()
    ensures LowerWords(Keywords)
  {
  }

  // ---------------------------------------------------------------------
  // Word boundaries

  /** Position i holds a word character (positions outside the buffer do not). */
  predicate IsWordAt(isWord: char -> bool, s: string, i: int)
  {
    0 <= i < |s| && isWord(s[i])
  }

  /** `\b`: a word character on exactly one side of position i. */
  predicate AtBoundary(isWord: char -> bool, s: string, i: int)
  {
    IsWordAt(isWord, s, i - 1) != IsWordAt(isWord, s, i)
  }

  /** `[A-Za-z0-9_]`: what `\w` matches among ASCII characters. */
  predicate IsAsciiWordChar(c: char)
  {
    ('a' <= c <= 'z') || ('A' <= c <= 'Z') || ('0' <= c <= '9') || c == '_'
  }

  /** The abstract `\w` agrees with Python's on ASCII; beyond ASCII it is free. */
  ghost predicate AgreesOnAscii(isWord: char -> bool)
  {
    forall c: char :: (c as int) < 128 ==> (isWord(c) <==> IsAsciiWordChar(c))
  }

  /** [i, j) is a maximal non-empty run of word characters. */
  ghost predicate IsMaximalWordRun(isWord: char -> bool, s: string, i: int, j: int)
  {
    && 0 <= i < j <= |s|
    && !IsWordAt(isWord, s, i - 1)
    && !IsWordAt(isWord, s, j)
    && forall k :: i <= k < j ==> isWord(s[k])
  }

  // ---------------------------------------------------------------------
  // Keywords: \b(def|class|...|not)\b, for any alternation \b(w0|w1|...)\b

  /** Alternative w, followed by the closing `\b`, matches at p. */
  predicate AlternativeMatches(isWord: char -> bool, s: string, p: nat, w: string)
  {
    p + |w| <= |s| && s[p..p + |w|] == w && AtBoundary(isWord, s, p + |w|)
  }

  /** Tries the alternatives ws[k..] in order, as the regex engine does,
      and gives the index of the first one that matches. */
  function FirstAlternative(ws: seq<string>, isWord: char -> bool, s: string, p: nat, k: nat): (r: Option<nat>)
    requires k <= |ws|
    decreases |ws| - k
    ensures r.Some? ==>
      && k <= r.value < |ws|
      && AlternativeMatches(isWord, s, p, ws[r.value])
      && forall i :: k <= i < r.value ==> !AlternativeMatches(isWord, s, p, ws[i])
    ensures r.None? ==> forall j :: k <= j < |ws| ==> !AlternativeMatches(isWord, s, p, ws[j])
  {
    if k == |ws| then None
    else if AlternativeMatches(isWord, s, p, ws[k]) then Some(k)
    else FirstAlternative(ws, isWord, s, p, k + 1)
  }

  /** `\b(w0|w1|...)\b` at position p: the opening `\b`, then the first
      alternative that is followed by a closing `\b`. */
  function AlternationAt(ws: seq<string>, isWord: char -> bool, s: string, p: nat): (r: Option<nat>)
    ensures r.Some? ==>
      && p <= r.value <= |s|
      && s[p..r.value] in ws
      && AtBoundary(isWord, s, p)
      && AtBoundary(isWord, s, r.value)
    ensures r.Some? && LowerWords(ws) ==> p < r.value
    ensures r.None? ==>
      !AtBoundary(isWord, s, p) || forall j :: 0 <= j < |ws| ==> !AlternativeMatches(isWord, s, p, ws[j])
  {
    if AtBoundary(isWord, s, p) then
      match FirstAlternative(ws, isWord, s, p, 0)
      case Some(j) =>
        assert s[p..p + |ws[j]|] == ws[j];
        Some(p + |ws[j]|)
      case None => None
    else None
  }

  /** The characters of an occurrence of a lower-case word are word characters. */
  lemma OccurrenceIsWord(ws: seq<string>, isWord: char -> bool, s: string, i: nat, j: nat)
    requires AgreesOnAscii(isWord) && LowerWords(ws)
    requires i <= j <= |s| && s[i..j] in ws
    ensures forall k :: i <= k < j ==> isWord(s[k])
  {
    var idx :| 0 <= idx < |ws| && ws[idx] == s[i..j];
    forall k | i <= k < j ensures isWord(s[k]) {
      assert s[k] == ws[idx][k - i];
      assert IsAsciiWordChar(s[k]);
    }
  }

  /** At the start of a whole word that is one of ws, the alternation
      matches exactly that word: a shorter alternative that is a prefix of
      it fails its closing `\b`, and no alternative can be longer. */
  lemma AlternationAtWholeWord(ws: seq<string>, isWord: char -> bool, s: string, i: nat, j: nat)
    requires AgreesOnAscii(isWord) && LowerWords(ws)
    requires IsMaximalWordRun(isWord, s, i, j) && s[i..j] in ws
    ensures AlternationAt(ws, isWord, s, i) == Some(j)
  {
    var idx :| 0 <= idx < |ws| && ws[idx] == s[i..j];
    assert AlternativeMatches(isWord, s, i, ws[idx]);
    var e := AlternationAt(ws, isWord, s, i).value;
    assert e <= j by {
      OccurrenceIsWord(ws, isWord, s, i, e);
    }
    assert e >= j by {
      assert e < j ==> IsWordAt(isWord, s, e - 1) && IsWordAt(isWord, s, e);
    }
  }

  /** The alternation of lower-case words never matches at a character that
      is not a word character, nor at the end of the buffer. */
  lemma NoAlternationAtNonWord(ws: seq<string>, isWord: char -> bool, s: string, p: nat)
    requires AgreesOnAscii(isWord) && LowerWords(ws)
    requires p < |s| ==> !isWord(s[p])
    ensures AlternationAt(ws, isWord, s, p).None?
  {
    var r := AlternationAt(ws, isWord, s, p);
    if r.Some? {
      OccurrenceIsWord(ws, isWord, s, p, r.value);
    }
  }

  /** The keyword pattern at position p. */
  function KeywordAt(isWord: char -> bool, s: string, p: nat): (r: Option<nat>)
    ensures r.Some? ==>
      && p < r.value <= |s|
      && AtBoundary(isWord, s, p)
      && AtBoundary(isWord, s, r.value)
  {
    KeywordsAreLowerWords();
    AlternationAt(Keywords, isWord, s, p)
  }

  // ---------------------------------------------------------------------
  // Strings: ("..*?"|'.*?') and comments: (#.*?$) under MULTILINE

  /** The first position at or after i that holds c or a newline, or |s| if none does;
      this is where a lazy `.*?` followed by c (or by `$`) stops. */
  function LineStop(s: string, i: nat, c: char): (j: nat)
    requires i <= |s|
    decreases |s| - i
    ensures i <= j <= |s|
    ensures forall k :: i <= k < j ==> s[k] != c && s[k] != '\n'
    ensures j < |s| ==> s[j] == c || s[j] == '\n'
  {
    if i == |s| || s[i] == c || s[i] == '\n' then i else LineStop(s, i + 1, c)
  }

  /** p opens a string that is closed by the same quote later on its line. */
  ghost predicate ClosedOnLine(s: string, p: nat)
  {
    p < |s| && IsQuote(s[p]) &&
    exists q :: p < q < |s| && s[q] == s[p] && forall k :: p < k < q ==> s[k] != '\n'
  }

  /** The string pattern at position p: a quote, the shortest run of
      non-newline characters, and the same quote again. */
  function StringAt(s: string, p: nat): (r: Option<nat>)
    requires p < |s|
    ensures r.Some? <==> ClosedOnLine(s, p)
    ensures r.Some? ==>
      && p + 2 <= r.value <= |s|
      && IsQuote(s[p]) && s[r.value - 1] == s[p]
      && forall k :: p < k < r.value - 1 ==> s[k] != s[p] && s[k] != '\n'
  {
    if IsQuote(s[p]) then
      var q := LineStop(s, p + 1, s[p]);
      if q < |s| && s[q] == s[p] then Some(q + 1)
      else None
    else None
  }

  /** The comment pattern at position p: a `#` and everything up to the end
      of its line (`$` under MULTILINE), the newline excluded. */
  function CommentAt(s: string, p: nat): (r: Option<nat>)
    requires p < |s|
    ensures r.Some? <==> s[p] == '#'
    ensures r.Some? ==>
      && p < r.value <= |s|
      && (forall k :: p <= k < r.value ==> s[k] != '\n')
      && (r.value == |s| || s[r.value] == '\n')
  {
    if s[p] == '#' then Some(LineStop(s, p + 1, '\n')) else None
  }
}
