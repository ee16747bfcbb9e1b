/** The three passes of `apply_highlighting`: `re.finditer` over the whole
    buffer with the keyword, string and comment patterns. Each pass is a
    scan of its own; none of them looks at what another one found. */
module Highlight {
  import opened Patterns
  import opened FindIter

  function KeywordMatcher(isWord: char -> bool): Matcher
  {
    (s: string, p: nat) => KeywordAt(isWord, s, p)
  }

  function StringMatcher(): Matcher
  {
    (s: string, p: nat) => if p < |s| then StringAt(s, p) else None
  }

  function CommentMatcher(): Matcher
  {
    (s: string, p: nat) => if p < |s| then CommentAt(s, p) else None
  }

  lemma KeywordMatcherAdvances(isWord: char -> bool)
    ensures Advances(KeywordMatcher(isWord))
  {
  }

  lemma StringMatcherAdvances()
    ensures Advances(StringMatcher())
  {
  }

  lemma CommentMatcherAdvances()
    ensures Advances(CommentMatcher())
  {
  }

  /** Every span lies inside the buffer, starts before it ends, and ends at or
      before the next one starts. */
  ghost predicate WellPlaced(s: string, spans: seq<Span>)
  {
    && (forall sp :: sp in spans ==> sp.start < sp.end <= |s|)
    && Ordered(spans)
  }

  /** `re.finditer(keywords, content, re.MULTILINE)`, as spans. */
  function KeywordSpans(isWord: char -> bool, s: string): (spans: seq<Span>)
    ensures WellPlaced(s, spans)
  {
    KeywordMatcherAdvances(isWord);
    ScanOrdered(KeywordMatcher(isWord), s, 0);
    Scan(KeywordMatcher(isWord), s, 0)
  }

  /** `re.finditer(strings, content)`, as spans. */
  function StringSpans(s: string): (spans: seq<Span>)
    ensures WellPlaced(s, spans)
  {
    StringMatcherAdvances();
    ScanOrdered(StringMatcher(), s, 0);
    Scan(StringMatcher(), s, 0)
  }

  /** `re.finditer(comments, content, re.MULTILINE)`, as spans. */
  function CommentSpans(s: string): (spans: seq<Span>)
    ensures WellPlaced(s, spans)
  {
    CommentMatcherAdvances();
    ScanOrdered(CommentMatcher(), s, 0);
    Scan(CommentMatcher(), s, 0)
  }

  /** The keyword spans are what `re.finditer` reports for the keyword pattern. */
  lemma KeywordSpansAreFindIter(isWord: char -> bool, s: string)
    ensures IsFindIter(KeywordMatcher(isWord), s, 0, KeywordSpans(isWord, s))
  {
    KeywordMatcherAdvances(isWord);
    ScanIsFindIter(KeywordMatcher(isWord), s, 0);
  }

  /** The string spans are what `re.finditer` reports for the string pattern. */
  lemma StringSpansAreFindIter(s: string)
    ensures IsFindIter(StringMatcher(), s, 0, StringSpans(s))
  {
    StringMatcherAdvances();
    ScanIsFindIter(StringMatcher(), s, 0);
  }

  /** The comment spans are what `re.finditer` reports for the comment pattern. */
  lemma CommentSpansAreFindIter(s: string)
    ensures IsFindIter(CommentMatcher(), s, 0, CommentSpans(s))
  {
    CommentMatcherAdvances();
    ScanIsFindIter(CommentMatcher(), s, 0);
  }

  // ---------------------------------------------------------------------
  // Keywords

  /** A keyword span covers exactly one of the reserved words, with a `\b` on each side. */
  lemma KeywordSpansSound(isWord: char -> bool, s: string)
    ensures forall sp :: sp in KeywordSpans(isWord, s) ==>
      && s[sp.start..sp.end] in Keywords
      && AtBoundary(isWord, s, sp.start)
      && AtBoundary(isWord, s, sp.end)
  {
    var spans := KeywordSpans(isWord, s);
    forall sp | sp in spans
      ensures s[sp.start..sp.end] in Keywords && AtBoundary(isWord, s, sp.start) && AtBoundary(isWord, s, sp.end)
    {
      KeywordSpansAreFindIter(isWord, s);
      SpanIsMatch(KeywordMatcher(isWord), s, 0, spans, sp);
      assert KeywordAt(isWord, s, sp.start) == Some(sp.end);
    }
  }

  /** With `\w` as Python has it on ASCII, a keyword span is a whole word:
      a maximal run of word characters. */
  lemma KeywordSpansAreWords(isWord: char -> bool, s: string)
    requires AgreesOnAscii(isWord)
    ensures forall sp :: sp in KeywordSpans(isWord, s) ==> IsMaximalWordRun(isWord, s, sp.start, sp.end)
  {
    KeywordSpansSound(isWord, s);
    KeywordsAreLowerWords();
    forall sp | sp in KeywordSpans(isWord, s) ensures IsMaximalWordRun(isWord, s, sp.start, sp.end) {
      OccurrenceIsWord(Keywords, isWord, s, sp.start, sp.end);
    }
  }

  /** At the start of a whole word that is a keyword, the keyword pattern
      matches exactly that word. */
  lemma KeywordAtWholeWord(isWord: char -> bool, s: string, i: nat, j: nat)
    requires AgreesOnAscii(isWord)
    requires IsMaximalWordRun(isWord, s, i, j) && s[i..j] in Keywords
    ensures KeywordAt(isWord, s, i) == Some(j)
  {
    KeywordsAreLowerWords();
    AlternationAtWholeWord(Keywords, isWord, s, i, j);
  }

  /** Every whole word that is a keyword is highlighted. */
  lemma KeywordSpansComplete(isWord: char -> bool, s: string, i: nat, j: nat)
    requires AgreesOnAscii(isWord)
    requires IsMaximalWordRun(isWord, s, i, j) && s[i..j] in Keywords
    ensures Span(i, j) in KeywordSpans(isWord, s)
  {
    KeywordAtWholeWord(isWord, s, i, j);
    var spans := KeywordSpans(isWord, s);
    KeywordSpansAreWords(isWord, s);
    forall sp | sp in spans ensures !(sp.start < i < sp.end) {
      assert sp.start < i < sp.end ==> IsWordAt(isWord, s, i - 1);
    }
    KeywordMatcherAdvances(isWord);
    ScanFindsUncovered(KeywordMatcher(isWord), s, 0, i);
  }

  /** The keyword spans are exactly the whole words that are keywords. */
  lemma KeywordSpansExact(isWord: char -> bool, s: string)
    requires AgreesOnAscii(isWord)
    ensures forall i: nat, j: nat :: Span(i, j) in KeywordSpans(isWord, s) <==>
      IsMaximalWordRun(isWord, s, i, j) && s[i..j] in Keywords
  {
    KeywordSpansSound(isWord, s);
    KeywordSpansAreWords(isWord, s);
    forall i: nat, j: nat | IsMaximalWordRun(isWord, s, i, j) && s[i..j] in Keywords
      ensures Span(i, j) in KeywordSpans(isWord, s)
    {
      KeywordSpansComplete(isWord, s, i, j);
    }
  }

  /** A single word that is not itself a keyword gets no keyword span, even
      when it begins or ends with one. */
  lemma KeywordNotInsideWord(isWord: char -> bool, s: string)
    requires AgreesOnAscii(isWord)
    requires forall k :: 0 <= k < |s| ==> isWord(s[k])
    requires s !in Keywords
    ensures KeywordSpans(isWord, s) == []
  {
    var spans := KeywordSpans(isWord, s);
    KeywordSpansAreWords(isWord, s);
    KeywordSpansSound(isWord, s);
    forall sp | sp in spans ensures sp.start == 0 && sp.end == |s| {
      assert sp.start > 0 ==> IsWordAt(isWord, s, sp.start - 1);
      assert sp.end < |s| ==> IsWordAt(isWord, s, sp.end);
    }
    assert forall sp :: sp in spans ==> s[sp.start..sp.end] == s;
    assert forall sp :: sp !in spans;
    EmptyOrFirst(spans);
  }

  lemma EmptyOrFirst(spans: seq<Span>)
    ensures spans == [] || spans[0] in spans
  {
  }

  /** A buffer of lower-case ASCII letters is a single word. */
  lemma LettersAreWord(isWord: char -> bool, s: string)
    requires AgreesOnAscii(isWord)
    requires forall k :: 0 <= k < |s| ==> 'a' <= s[k] <= 'z'
    ensures forall k :: 0 <= k < |s| ==> isWord(s[k])
  {
    forall k | 0 <= k < |s| ensures isWord(s[k]) {
      assert IsAsciiWordChar(s[k]);
    }
  }

  /** `input`, `define` and `elifx` contain keywords but are not keywords. */
  lemma KeywordExamples(isWord: char -> bool)
    requires AgreesOnAscii(isWord)
    ensures KeywordSpans(isWord, "input") == []
    ensures KeywordSpans(isWord, "define") == []
    ensures KeywordSpans(isWord, "elifx") == []
  {
    NotAKeyword(isWord, "input");
    NotAKeyword(isWord, "define");
    NotAKeyword(isWord, "elifx");
  }

  lemma NotAKeyword(isWord: char -> bool, s: string)
    requires AgreesOnAscii(isWord)
    requires s == "input" || s == "define" || s == "elifx"
    ensures KeywordSpans(isWord, s) == []
  {
    LettersAreWord(isWord, s);
    KeywordNotInsideWord(isWord, s);
  }

  // ---------------------------------------------------------------------
  // Strings

  /** A string span opens and closes with the same quote on one line, and
      that quote does not occur in between: the shortest match, blind to
      backslash escapes. */
  lemma StringSpansShape(s: string)
    ensures forall sp :: sp in StringSpans(s) ==>
      && sp.start + 2 <= sp.end
      && IsQuote(s[sp.start])
      && s[sp.end - 1] == s[sp.start]
      && forall k :: sp.start < k < sp.end - 1 ==> s[k] != s[sp.start] && s[k] != '\n'
  {
    var spans := StringSpans(s);
    forall sp | sp in spans
      ensures && sp.start + 2 <= sp.end
              && IsQuote(s[sp.start])
              && s[sp.end - 1] == s[sp.start]
              && forall k :: sp.start < k < sp.end - 1 ==> s[k] != s[sp.start] && s[k] != '\n'
    {
      StringSpansAreFindIter(s);
      SpanIsMatch(StringMatcher(), s, 0, spans, sp);
      assert StringAt(s, sp.start) == Some(sp.end);
    }
  }

  /** A quote that is closed later on its line, and is not inside an earlier
      string span, opens a string span. */
  lemma StringSpansComplete(s: string, p: nat)
    requires ClosedOnLine(s, p)
    requires forall sp :: sp in StringSpans(s) ==> !(sp.start < p < sp.end)
    ensures StringAt(s, p).Some? && Span(p, StringAt(s, p).value) in StringSpans(s)
  {
    StringMatcherAdvances();
    assert StringMatcher()(s, p) == StringAt(s, p);
    ScanFindsUncovered(StringMatcher(), s, 0, p);
  }

  /** `"a\"b"` yields the span `"a\"`: the backslash does not escape the quote. */
  lemma EscapedQuoteEndsString()
    ensures StringSpans("\"a\\\"b\"") == [Span(0, 4)]
  {
    var s := "\"a\\\"b\"";
    var m := StringMatcher();
    assert m(s, 0) == Some(4);
    assert m(s, 4).None?;
    assert m(s, 5).None?;
    assert Scan(m, s, 6) == [];
    assert Scan(m, s, 5) == [];
    assert Scan(m, s, 4) == [];
    assert Scan(m, s, 0) == [Span(0, 4)];
  }

  // ---------------------------------------------------------------------
  // Comments

  /** A comment span starts at a `#` and runs to the end of its line, the
      newline excluded. */
  lemma CommentSpansShape(s: string)
    ensures forall sp :: sp in CommentSpans(s) ==>
      && s[sp.start] == '#'
      && (forall k :: sp.start <= k < sp.end ==> s[k] != '\n')
      && (sp.end == |s| || s[sp.end] == '\n')
  {
    var spans := CommentSpans(s);
    forall sp | sp in spans
      ensures && s[sp.start] == '#'
              && (forall k :: sp.start <= k < sp.end ==> s[k] != '\n')
              && (sp.end == |s| || s[sp.end] == '\n')
    {
      CommentSpansAreFindIter(s);
      SpanIsMatch(CommentMatcher(), s, 0, spans, sp);
      assert CommentAt(s, sp.start) == Some(sp.end);
    }
  }

  /** Every `#` lies in a comment span, whatever surrounds it (a string
      literal included). */
  lemma CommentCoversEveryHash(s: string, p: nat)
    requires p < |s| && s[p] == '#'
    ensures exists sp :: sp in CommentSpans(s) && sp.start <= p < sp.end
  {
    var spans := CommentSpans(s);
    if forall sp :: sp in spans ==> !(sp.start < p < sp.end) {
      CommentMatcherAdvances();
      assert CommentMatcher()(s, p) == CommentAt(s, p);
      ScanFindsUncovered(CommentMatcher(), s, 0, p);
      var e := CommentAt(s, p).value;
      assert Span(p, e) in spans;
    }
  }

  /** Comment spans fall on different lines: a `#` after the first one on a
      line does not start a span of its own. */
  lemma CommentSpansOnePerLine(s: string)
    ensures var spans := CommentSpans(s);
      forall i, j :: 0 <= i < j < |spans| ==> spans[i].end < spans[j].start && s[spans[i].end] == '\n'
  {
    var spans := CommentSpans(s);
    CommentSpansShape(s);
    forall i, j | 0 <= i < j < |spans| ensures spans[i].end < spans[j].start && s[spans[i].end] == '\n' {
      assert spans[i] in spans && spans[j] in spans;
      assert spans[i].end <= spans[j].start;
    }
  }

  /** The worked example `# hi\nx = 1\n`: one comment over `# hi`. */
  lemma CommentExample()
    ensures CommentSpans("# hi\nx = 1\n") == [Span(0, 4)]
  {
    var s := "# hi\nx = 1\n";
    var m := CommentMatcher();
    assert m(s, 0) == Some(4);
    forall p | 4 <= p < |s| ensures m(s, p).None? {
      assert s[p] != '#';
    }
    CommentMatcherAdvances();
    SingleMatch(m, s, 0, 0, 4);
  }

  /** The passes are independent: in `'#'` the string pattern takes the whole
      literal and the comment pattern still takes the `#` and what follows. */
  lemma HashInsideString()
    ensures StringSpans("'#'") == [Span(0, 3)]
    ensures CommentSpans("'#'") == [Span(1, 3)]
  {
    var s := "'#'";
    assert StringMatcher()(s, 0) == Some(3);
    assert Scan(StringMatcher(), s, 3) == [];
    assert CommentMatcher()(s, 0).None?;
    assert CommentMatcher()(s, 1) == Some(3);
    assert Scan(CommentMatcher(), s, 3) == [];
  }

  /** Keywords inside a comment are still tagged: in `#if` the keyword
      pattern takes `if` ... */
  lemma KeywordInsideComment(isWord: char -> bool)
    requires AgreesOnAscii(isWord)
    ensures KeywordSpans(isWord, "#if") == [Span(1, 3)]
  {
    var s := "#if";
    var m := KeywordMatcher(isWord);
    KeywordsAreLowerWords();
    assert m(s, 0).None? by {
      assert !isWord(s[0]);
      NoAlternationAtNonWord(Keywords, isWord, s, 0);
    }
    assert m(s, 1) == Some(3) by {
      assert !isWord(s[0]) && isWord(s[1]) && isWord(s[2]);
      assert s[1..3] == Keywords[2];
      KeywordAtWholeWord(isWord, s, 1, 3);
    }
    KeywordMatcherAdvances(isWord);
    SingleMatch(m, s, 0, 1, 3);
  }

  /** ... while the comment pattern takes the whole line. */
  lemma CommentOverKeyword()
    ensures CommentSpans("#if") == [Span(0, 3)]
  {
    assert CommentMatcher()("#if", 0) == Some(3);
    assert Scan(CommentMatcher(), "#if", 3) == [];
  }


  /** Keywords inside a string literal are still tagged too: in `'if'` the
      keyword pattern takes `if` ... */
  lemma KeywordInsideString(isWord: char -> bool)
    requires AgreesOnAscii(isWord)
    ensures KeywordSpans(isWord, "'if'") == [Span(1, 3)]
  {
    var s := "'if'";
    var m := KeywordMatcher(isWord);
    KeywordsAreLowerWords();
    assert m(s, 0).None? by {
      assert !isWord(s[0]);
      NoAlternationAtNonWord(Keywords, isWord, s, 0);
    }
    assert m(s, 1) == Some(3) by {
      assert !isWord(s[0]) && isWord(s[1]) && isWord(s[2]) && !isWord(s[3]);
      assert s[1..3] == Keywords[2];
      KeywordAtWholeWord(isWord, s, 1, 3);
    }
    assert m(s, 3).None? by {
      assert !isWord(s[3]);
      NoAlternationAtNonWord(Keywords, isWord, s, 3);
    }
    KeywordMatcherAdvances(isWord);
    SingleMatch(m, s, 0, 1, 3);
  }

  /** ... while the string pattern takes the whole literal. */
  lemma StringOverKeyword()
    ensures StringSpans("'if'") == [Span(0, 4)]
  {
    assert StringMatcher()("'if'", 0) == Some(4);
    assert Scan(StringMatcher(), "'if'", 4) == [];
  }

}
