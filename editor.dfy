/** The part of the editor window that `highlight_syntax` works on: the
    buffer text and the text widget's tag table, which maps every tag name
    the widget knows to the set of character offsets the tag covers. */
module Editor {
  import opened Patterns
  import opened FindIter
  import opened Highlight

  const SelTag := "sel"
  const KeywordTag := "keyword"
  const StringTag := "string"
  const CommentTag := "comment"

  function Min(a: nat, b: nat): nat
  {
    if a <= b then a else b
  }

  /** The offsets lo, lo + 1, ..., hi - 1. */
  function Range(lo: nat, hi: nat): set<nat>
    decreases hi - lo
  {
    if lo >= hi then {} else {lo} + Range(lo + 1, hi)
  }

  lemma {:induction false} RangeMembers(lo: nat, hi: nat)
    decreases hi - lo
    ensures forall k: nat :: k in Range(lo, hi) <==> lo <= k < hi
  {
    if lo < hi {
      RangeMembers(lo + 1, hi);
    }
  }

  /** The offsets covered by some span of `spans`. */
  function Covered(spans: seq<Span>): set<nat>
  {
    if spans == [] then {}
    else Covered(spans[..|spans| - 1]) + Range(spans[|spans| - 1].start, spans[|spans| - 1].end)
  }

  /** An offset is covered exactly when some span contains it. */
  lemma {:induction false} CoveredMembers(spans: seq<Span>)
    ensures forall k: nat :: k in Covered(spans) <==> exists sp :: sp in spans && sp.start <= k < sp.end
  {
    if spans != [] {
      var init, last := spans[..|spans| - 1], spans[|spans| - 1];
      CoveredMembers(init);
      RangeMembers(last.start, last.end);
      assert forall sp :: sp in spans <==> sp in init || sp == last;
    }
  }

  /** The coverage of a tag, or nothing for a tag the table does not know. */
  function Coverage(tags: map<string, set<nat>>, name: string): set<nat>
  {
    if name in tags then tags[name] else {}
  }

  /** The tag table after a `tag_add(name, ...)` for every span in `spans`,
      in a buffer of n characters: the tag covers the spans' offsets as well,
      cut off at the end of the buffer; with no span the table is unchanged. */
  function AddSpans(tags: map<string, set<nat>>, name: string, spans: seq<Span>, n: nat): map<string, set<nat>>
  {
    if spans == [] then tags else tags[name := Coverage(tags, name) + Covered(spans) * Range(0, n)]
  }

  /** The tag table after `apply_highlighting(content)` in a buffer of n characters. */
  function Highlighted(tags: map<string, set<nat>>, isWord: char -> bool, content: string, n: nat): map<string, set<nat>>
  {
    var t1 := AddSpans(tags, KeywordTag, KeywordSpans(isWord, content), n);
    var t2 := AddSpans(t1, StringTag, StringSpans(content), n);
    AddSpans(t2, CommentTag, CommentSpans(content), n)
  }

  /** Highlighting a table whose tags cover nothing leaves each highlighter
      tag covering exactly its own spans and every other tag covering nothing. */
  lemma HighlightCleared(tags: map<string, set<nat>>, keywords: seq<Span>, strings: seq<Span>, comments: seq<Span>, n: nat)
    requires KeywordTag in tags && StringTag in tags && CommentTag in tags
    requires forall name :: name in tags ==> tags[name] == {}
    requires Covered(keywords) <= Range(0, n) && Covered(strings) <= Range(0, n) && Covered(comments) <= Range(0, n)
    ensures var r := AddSpans(AddSpans(AddSpans(tags, KeywordTag, keywords, n), StringTag, strings, n), CommentTag, comments, n);
      && r.Keys == tags.Keys
      && r[KeywordTag] == Covered(keywords)
      && r[StringTag] == Covered(strings)
      && r[CommentTag] == Covered(comments)
      && forall name :: name in r && name != KeywordTag && name != StringTag && name != CommentTag ==> r[name] == {}
  {
    var t1 := AddSpans(tags, KeywordTag, keywords, n);
    AddSpansToCleared(tags, KeywordTag, keywords, n);
    var t2 := AddSpans(t1, StringTag, strings, n);
    AddSpansToCleared(t1, StringTag, strings, n);
    AddSpansToCleared(t2, CommentTag, comments, n);
    assert KeywordTag[0] != StringTag[0] && KeywordTag[0] != CommentTag[0] && StringTag[0] != CommentTag[0];
    var r := AddSpans(t2, CommentTag, comments, n);
    assert t1.Keys == tags.Keys && t2.Keys == tags.Keys;
    assert t2[KeywordTag] == Covered(keywords);
  }

  /** Adding spans that lie inside the buffer to a tag that covers nothing
      makes the tag cover exactly those spans. */
  lemma AddSpansToCleared(tags: map<string, set<nat>>, name: string, spans: seq<Span>, n: nat)
    requires name in tags && tags[name] == {}
    requires Covered(spans) <= Range(0, n)
    ensures AddSpans(tags, name, spans, n) == tags[name := Covered(spans)]
  {
    if spans != [] {
      var c := Covered(spans);
      assert c * Range(0, n) == c;
      assert Coverage(tags, name) == {};
      assert Coverage(tags, name) + c * Range(0, n) == c;
      assert AddSpans(tags, name, spans, n) == tags[name := Coverage(tags, name) + c * Range(0, n)];
    } else {
      assert tags[name := {}] == tags;
    }
  }

  /** The spans of a scan cover only offsets inside the buffer. */
  lemma CoveredInBuffer(s: string, spans: seq<Span>)
    requires WellPlaced(s, spans)
    ensures Covered(spans) <= Range(0, |s|)
  {
    CoveredMembers(spans);
    RangeMembers(0, |s|);
    forall k: nat | k in Covered(spans) ensures k < |s| {
      var sp :| sp in spans && sp.start <= k < sp.end;
    }
  }

  /** The editor window: `text` is the buffer as `get("1.0", END)` returns it. */
  class CodeEditor {
    var text: string
    var tags: map<string, set<nat>>
    /** Python's `\w`, as the regex engine has it. */
    const isWord: char -> bool

    /** The three highlighter tags are known (`init_tags` configured them and
        nothing deletes a tag), and no tag covers an offset past the end of the buffer. */
    ghost predicate Valid()
      reads this
    {
      && KeywordTag in tags && StringTag in tags && CommentTag in tags
      && forall name :: name in tags ==> tags[name] <= Range(0, |text|)
    }

    /** The window as it stands after `init_tags`: the widget's own selection
        tag and the three highlighter tags, none covering anything. */
    constructor (text: string, isWord: char -> bool)
      ensures Valid()
      ensures this.text == text && this.isWord == isWord
      ensures tags == map[SelTag := {}, KeywordTag := {}, StringTag := {}, CommentTag := {}]
    {
      this.text := text;
      this.isWord := isWord;
      tags := map[SelTag := {}, KeywordTag := {}, StringTag := {}, CommentTag := {}];
    }

    /** `tag_add(name, "1.0 + first chars", "1.0 + last chars")`: the tag
        (created if new) also covers [first, last), cut off at the end of the buffer. */
    method TagAdd(name: string, first: nat, last: nat)
      requires Valid()
      modifies this`tags
      ensures Valid()
      ensures tags == old(tags)[name := Coverage(old(tags), name) + Range(Min(first, |text|), Min(last, |text|))]
    {
      RangeMembers(Min(first, |text|), Min(last, |text|));
      RangeMembers(0, |text|);
      tags := tags[name := Coverage(tags, name) + Range(Min(first, |text|), Min(last, |text|))];
    }

    /** `tag_remove(name, "1.0", END)`: the tag stays known and covers nothing. */
    method TagRemove(name: string)
      requires Valid()
      modifies this`tags
      ensures Valid()
      ensures tags == if name in old(tags) then old(tags)[name := {}] else old(tags)
    {
      if name in tags {
        tags := tags[name := {}];
      }
    }

    /** One `for match in re.finditer(...)` loop of `apply_highlighting`:
        a `tag_add(name, ...)` for every span, in order. */
    method TagSpans(name: string, spans: seq<Span>)
      requires Valid()
      modifies this`tags
      ensures Valid()
      ensures tags == AddSpans(old(tags), name, spans, |text|)
    {
      var buffer := Range(0, |text|);
      for i := 0 to |spans|
        invariant Valid()
        invariant tags == AddSpans(old(tags), name, spans[..i], |text|)
      {
        TagAdd(name, spans[i].start, spans[i].end);
        AddSpansStep(old(tags), name, spans, i, |text|);
      }
      assert spans[..|spans|] == spans;
    }

    /** `apply_highlighting(content)`: the keyword, string and comment passes,
        one after another, each adding the spans its pattern finds in `content`
        to its own tag. */
    method ApplyHighlighting(content: string)
      requires Valid()
      modifies this`tags
      ensures Valid()
      ensures tags == Highlighted(old(tags), isWord, content, |text|)
    {
      TagSpans(KeywordTag, KeywordSpans(isWord, content));
      TagSpans(StringTag, StringSpans(content));
      TagSpans(CommentTag, CommentSpans(content));
    }

    /** The first loop of `highlight_syntax`: `tag_remove(tag, "1.0", END)`
        for every tag in `tag_names()`. Every tag stays known and covers nothing. */
    method RemoveAllTags()
      requires Valid()
      modifies this`tags
      ensures Valid()
      ensures tags.Keys == old(tags).Keys
      ensures forall name :: name in tags ==> tags[name] == {}
    {
      var names := tags.Keys;
      while names != {}
        invariant Valid()
        invariant names <= tags.Keys == old(tags).Keys
        invariant forall name :: name in tags ==> tags[name] == if name in names then old(tags)[name] else {}
        decreases |names|
      {
        var name :| name in names;
        TagRemove(name);
        names := names - {name};
      }
    }

    /** `highlight_syntax`: remove every tag the widget knows from the whole
        buffer, then highlight the buffer afresh. Afterwards each highlighter
        tag covers exactly the spans of its pattern in the current text and
        every other tag covers nothing: no earlier coverage survives, whoever
        added it. */
    method HighlightSyntax()
      requires Valid()
      modifies this`tags
      ensures Valid()
      ensures tags.Keys == old(tags).Keys
      ensures tags[KeywordTag] == Covered(KeywordSpans(isWord, text))
      ensures tags[StringTag] == Covered(StringSpans(text))
      ensures tags[CommentTag] == Covered(CommentSpans(text))
      ensures forall name :: name in tags && name != KeywordTag && name != StringTag && name != CommentTag ==> tags[name] == {}
    {
      RemoveAllTags();
      var cleared := tags;
      var content := text;
      ApplyHighlighting(content);
      var keywords, strings, comments := KeywordSpans(isWord, text), StringSpans(text), CommentSpans(text);
      CoveredInBuffer(text, keywords);
      CoveredInBuffer(text, strings);
      CoveredInBuffer(text, comments);
      HighlightCleared(cleared, keywords, strings, comments, |text|);
    }
  }

  /** Adding the i-th span's offsets, cut off at the buffer's end, extends the
      coverage of the first i spans to the first i + 1. */
  lemma AddSpan(spans: seq<Span>, i: nat, n: nat)
    requires i < |spans|
    ensures Covered(spans[..i + 1]) * Range(0, n) ==
      Covered(spans[..i]) * Range(0, n) + Range(Min(spans[i].start, n), Min(spans[i].end, n))
  {
    assert spans[..i + 1][..i] == spans[..i];
    RangeMembers(spans[i].start, spans[i].end);
    RangeMembers(0, n);
    RangeMembers(Min(spans[i].start, n), Min(spans[i].end, n));
  }

  /** The tag table after the first i + 1 spans is the table after the first i
      with one more `tag_add` for the i-th span. */
  lemma AddSpansStep(tags: map<string, set<nat>>, name: string, spans: seq<Span>, i: nat, n: nat)
    requires i < |spans|
    ensures var before := AddSpans(tags, name, spans[..i], n);
      AddSpans(tags, name, spans[..i + 1], n) ==
        before[name := Coverage(before, name) + Range(Min(spans[i].start, n), Min(spans[i].end, n))]
  {
    AddSpan(spans, i, n);
    assert spans[..i + 1] != [];
    var before := AddSpans(tags, name, spans[..i], n);
    var added := Range(Min(spans[i].start, n), Min(spans[i].end, n));
    if i == 0 {
      assert spans[..i] == [];
      assert Covered(spans[..i]) == {};
      assert Covered(spans[..i + 1]) * Range(0, n) == added;
    } else {
      assert spans[..i] != [];
      var earlier := Covered(spans[..i]) * Range(0, n);
      assert Coverage(before, name) == Coverage(tags, name) + earlier;
      assert before == tags[name := Coverage(tags, name) + earlier];
      assert Coverage(before, name) + added == Coverage(tags, name) + (earlier + added);
      assert Covered(spans[..i + 1]) * Range(0, n) == earlier + added;
    }
  }
}
