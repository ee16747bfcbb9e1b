/** `re.finditer` for the three fixed patterns: the leftmost match, then the
    next leftmost match at or after its end, and so on. The scanner `Scan`
    computes it; `IsFindIter` describes it independently, position by
    position, and the two are proved to agree. */
module FindIter {
  import opened Patterns

  /** One highlighted region of the buffer, as character offsets [start, end). */
  datatype Span = Span(start: nat, end: nat)

  /** A pattern, seen from `re.finditer`: where it matches at a position, if it does. */
  type Matcher = (string, nat) -> Option<nat>

  /** Every match of m ends after it starts and within the buffer
      (none of the three patterns can match the empty string). */
  ghost predicate Advances(m: Matcher)
  {
    forall s: string, p: nat :: m(s, p).Some? ==> p < m(s, p).value <= |s|
  }

  /** m matches at no position of [lo, hi). */
  ghost predicate NoMatchIn(m: Matcher, s: string, lo: int, hi: int)
  {
    forall p: nat :: lo <= p < hi && p < |s| ==> m(s, p).None?
  }

  /** Where the search for the i-th match begins: `from`, or the end of the previous match. */
  function Resume(from: nat, spans: seq<Span>, i: nat): nat
    requires i <= |spans|
  {
    if i == 0 then from else spans[i - 1].end
  }

  /** `spans` is what the matches of m are when the search starts at
      `from`: each match is a real match beginning at the first position at
      or after the previous match's end where the pattern matches, and no
      match remains after the last one. */
  ghost predicate IsFindIter(m: Matcher, s: string, from: nat, spans: seq<Span>)
  {
    && (forall i :: 0 <= i < |spans| ==> FoundAt(m, s, from, spans, i))
    && NoMatchIn(m, s, Resume(from, spans, |spans|), |s|)
  }

  /** The scan itself: try the pattern at `from`; on a match, record it and
      resume at its end, otherwise try the next position. */
  function Scan(m: Matcher, s: string, from: nat): (spans: seq<Span>)
    requires Advances(m)
    requires from <= |s|
    decreases |s| - from
    ensures forall i :: 0 <= i < |spans| ==> from <= spans[i].start < spans[i].end <= |s|
  {
    if from == |s| then []
    else
      match m(s, from)
      case Some(e) => [Span(from, e)] + Scan(m, s, e)
      case None => Scan(m, s, from + 1)
  }

  /** The i-th span is a match of m found by a search resuming at `Resume(from, spans, i)`. */
  ghost predicate FoundAt(m: Matcher, s: string, from: nat, spans: seq<Span>, i: int)
  {
    && 0 <= i < |spans|
    && Resume(from, spans, i) <= spans[i].start < |s|
    && m(s, spans[i].start) == Some(spans[i].end)
    && NoMatchIn(m, s, Resume(from, spans, i), spans[i].start)
  }

  /** A match at `from` followed by the matches found from its end. */
  lemma FindIterCons(m: Matcher, s: string, from: nat, e: nat, rest: seq<Span>)
    requires from < |s| && m(s, from) == Some(e)
    requires IsFindIter(m, s, e, rest)
    ensures IsFindIter(m, s, from, [Span(from, e)] + rest)
  {
    var spans := [Span(from, e)] + rest;
    forall i | 0 <= i < |spans| ensures FoundAt(m, s, from, spans, i) {
      if i > 0 {
        assert spans[i] == rest[i - 1];
        assert Resume(from, spans, i) == Resume(e, rest, i - 1);
        assert FoundAt(m, s, e, rest, i - 1);
      }
    }
    assert Resume(from, spans, |spans|) == Resume(e, rest, |rest|);
  }

  /** Skipping a position where m does not match changes nothing. */
  lemma FindIterSkip(m: Matcher, s: string, from: nat, next: nat, spans: seq<Span>)
    requires from < |s| && m(s, from).None? && next == from + 1
    requires IsFindIter(m, s, next, spans)
    ensures IsFindIter(m, s, from, spans)
  {
    forall i | 0 <= i < |spans| ensures FoundAt(m, s, from, spans, i) {
      assert FoundAt(m, s, next, spans, i);
      if i > 0 {
        assert Resume(from, spans, i) == Resume(next, spans, i);
      }
    }
    if spans != [] {
      assert Resume(from, spans, |spans|) == Resume(next, spans, |spans|);
    }
  }

  /** The scan produces exactly the matches `re.finditer` reports. */
  lemma {:induction false} ScanIsFindIter(m: Matcher, s: string, from: nat)
    requires Advances(m)
    requires from <= |s|
    decreases |s| - from
    ensures IsFindIter(m, s, from, Scan(m, s, from))
  {
    if from < |s| {
      var r := m(s, from);
      if r.Some? {
        var e := r.value;
        ScanIsFindIter(m, s, e);
        FindIterCons(m, s, from, e, Scan(m, s, e));
      } else {
        ScanIsFindIter(m, s, from + 1);
        FindIterSkip(m, s, from, from + 1, Scan(m, s, from + 1));
      }
    }
  }

  /** When m matches at `from`, the first reported match is that one. */
  lemma FindIterHead(m: Matcher, s: string, from: nat, e: nat, spans: seq<Span>)
    requires from < |s| && m(s, from) == Some(e)
    requires IsFindIter(m, s, from, spans)
    ensures spans != [] && spans[0] == Span(from, e)
    ensures IsFindIter(m, s, e, spans[1..])
  {
    assert FoundAt(m, s, from, spans, 0);
    var rest := spans[1..];
    forall i | 0 <= i < |rest| ensures FoundAt(m, s, e, rest, i) {
      assert FoundAt(m, s, from, spans, i + 1);
      assert rest[i] == spans[i + 1];
      assert Resume(e, rest, i) == Resume(from, spans, i + 1);
    }
    assert Resume(e, rest, |rest|) == Resume(from, spans, |spans|);
  }

  /** When m does not match at `from`, the search may as well begin one further. */
  lemma FindIterTail(m: Matcher, s: string, from: nat, next: nat, spans: seq<Span>)
    requires from < |s| && m(s, from).None? && next == from + 1
    requires IsFindIter(m, s, from, spans)
    ensures IsFindIter(m, s, next, spans)
  {
    forall i | 0 <= i < |spans| ensures FoundAt(m, s, next, spans, i) {
      assert FoundAt(m, s, from, spans, i);
      if i > 0 {
        assert Resume(from, spans, i) == Resume(next, spans, i);
      }
    }
    if spans != [] {
      assert Resume(from, spans, |spans|) == Resume(next, spans, |spans|);
    }
  }

  /** `IsFindIter` determines the matches: only the scan's result satisfies it. */
  lemma {:induction false} FindIterUnique(m: Matcher, s: string, from: nat, spans: seq<Span>)
    requires Advances(m)
    requires from <= |s|
    requires IsFindIter(m, s, from, spans)
    decreases |s| - from
    ensures spans == Scan(m, s, from)
  {
    if from < |s| {
      var r := m(s, from);
      if r.Some? {
        var e := r.value;
        FindIterHead(m, s, from, e, spans);
        FindIterUnique(m, s, e, spans[1..]);
        assert Scan(m, s, from) == [Span(from, e)] + Scan(m, s, e);
        assert spans == [spans[0]] + spans[1..];
      } else {
        FindIterTail(m, s, from, from + 1, spans);
        FindIterUnique(m, s, from + 1, spans);
        assert Scan(m, s, from) == Scan(m, s, from + 1);
      }
    } else {
      assert |spans| == 0 || FoundAt(m, s, from, spans, 0);
    }
  }

  /** A buffer where m matches once, at `at`, and nowhere else that the search
      visits, yields exactly that one match. */
  lemma SingleMatch(m: Matcher, s: string, from: nat, at: nat, e: nat)
    requires Advances(m)
    requires from <= at < |s| && m(s, at) == Some(e)
    requires NoMatchIn(m, s, from, at) && NoMatchIn(m, s, e, |s|)
    ensures Scan(m, s, from) == [Span(at, e)]
  {
    var spans := [Span(at, e)];
    assert FoundAt(m, s, from, spans, 0);
    assert IsFindIter(m, s, from, spans);
    FindIterUnique(m, s, from, spans);
  }

  /** Each span ends at or before the next one starts. */
  ghost predicate Ordered(spans: seq<Span>)
  {
    forall i, j :: 0 <= i < j < |spans| ==> spans[i].end <= spans[j].start
  }

  /** Matches come out in strictly increasing order and do not overlap. */
  lemma {:induction false} ScanOrdered(m: Matcher, s: string, from: nat)
    requires Advances(m)
    requires from <= |s|
    decreases |s| - from
    ensures Ordered(Scan(m, s, from))
  {
    if from < |s| {
      var r := m(s, from);
      var spans := Scan(m, s, from);
      if r.Some? {
        var e := r.value;
        var rest := Scan(m, s, e);
        assert spans == [Span(from, e)] + rest;
        ScanOrdered(m, s, e);
        forall i, j | 0 <= i < j < |spans| ensures spans[i].end <= spans[j].start {
          assert spans[j] == rest[j - 1];
          assert e <= rest[j - 1].start;
          if i > 0 {
            assert spans[i] == rest[i - 1];
            assert rest[i - 1].end <= rest[j - 1].start;
          } else {
            assert spans[i].end == e;
          }
        }
      } else {
        assert spans == Scan(m, s, from + 1);
        ScanOrdered(m, s, from + 1);
      }
    }
  }

  /** A position where the pattern matches, at or after `from` and not strictly
      inside an earlier match, starts a match of its own. */
  lemma {:induction false} ScanFindsUncovered(m: Matcher, s: string, from: nat, p: nat)
    requires Advances(m)
    requires from <= p < |s|
    requires m(s, p).Some?
    requires forall sp :: sp in Scan(m, s, from) ==> !(sp.start < p < sp.end)
    decreases |s| - from
    ensures Span(p, m(s, p).value) in Scan(m, s, from)
  {
    var spans := Scan(m, s, from);
    match m(s, from)
    case Some(e) =>
      assert spans[0] == Span(from, e);
      if from < p {
        assert e <= p;
        var rest := Scan(m, s, e);
        assert forall sp :: sp in rest ==> sp in spans;
        ScanFindsUncovered(m, s, e, p);
      }
    case None =>
      ScanFindsUncovered(m, s, from + 1, p);
  }

  /** Every reported span is a match of m at its start. */
  lemma SpanIsMatch(m: Matcher, s: string, from: nat, spans: seq<Span>, sp: Span)
    requires IsFindIter(m, s, from, spans)
    requires sp in spans
    ensures sp.start < |s| && m(s, sp.start) == Some(sp.end)
  {
    var i :| 0 <= i < |spans| && spans[i] == sp;
    assert FoundAt(m, s, from, spans, i);
  }
}
