/** Sentence segmentation with character offsets (app/ingestion/segment.py). Whether a terminator
    ends its sentence (abbreviations, decimals, initials) is a parameter, `closes`: everything below
    holds for any choice of it. */
module Segment {

  datatype Span = Span(start: nat, end: nat)

  const NEWLINE: char := '\n'

  predicate IsSpace(c: char) {
    var code := c as int;
    || 9 <= code <= 13
    || 28 <= code <= 32
    || code in {0x85, 0xA0, 0x1680, 0x2028, 0x2029, 0x202F, 0x205F, 0x3000}
    || 0x2000 <= code <= 0x200A
  }

  predicate IsTerminator(c: char) {
    c in ".!?" || c as int in {0x3002, 0xFF01, 0xFF1F, 0xFF1B, 0x2026}
  }

  predicate IsCloser(c: char) {
    c in "\"')]}" || c as int in {0xBB, 0x203A, 0x201D, 0x2019}
  }

  lemma ClosersEndNothing(c: char)
    ensures IsCloser(c) ==> !IsSpace(c) && !IsTerminator(c)
    ensures IsTerminator(c) ==> !IsSpace(c)
    ensures IsSpace(NEWLINE) && !IsTerminator(NEWLINE)
  {
  }

  // ---------------------------------------------------------------- what a sentence is

  /** A sentence ends just before `e`: a closing terminator with all the closers after it. */
  ghost predicate SentenceEnd(text: string, closes: nat -> bool, e: int) {
    && 0 <= e <= |text|
    && (e < |text| ==> !IsCloser(text[e]))
    && exists t :: 0 <= t < e && EndsAt(text, closes, t, e)
  }

  ghost predicate EndsAt(text: string, closes: nat -> bool, t: nat, e: int)
    requires t < e <= |text|
  {
    IsTerminator(text[t]) && closes(t) && forall m :: t < m < e ==> IsCloser(text[m])
  }

  ghost predicate BlankLineAt(text: string, m: int) {
    0 <= m && m + 1 < |text| && text[m] == NEWLINE && text[m + 1] == NEWLINE
  }

  /** Something between positions `i` and `j` makes them belong to different sentences. */
  ghost predicate Separated(text: string, closes: nat -> bool, i: int, j: int) {
    || (exists e :: i < e <= j && SentenceEnd(text, closes, e))
    || (exists m :: i <= m && m + 1 <= j && BlankLineAt(text, m))
  }

  ghost predicate Trimmed(text: string, s: Span) {
    s.start < s.end <= |text| && !IsSpace(text[s.start]) && !IsSpace(text[s.end - 1])
  }

  ghost predicate InOrder(spans: seq<Span>) {
    forall a, b :: 0 <= a < b < |spans| ==> spans[a].end <= spans[b].start
  }

  ghost predicate Within(spans: seq<Span>, k: int, i: int) {
    0 <= k < |spans| && spans[k].start <= i < spans[k].end
  }

  ghost predicate Covered(spans: seq<Span>, i: int) {
    exists k :: Within(spans, k, i)
  }

  /** The spans are non-empty, trimmed, disjoint and in order; every non-space character from
      `from` on is in one; and two positions share a span exactly when nothing separates them. */
  ghost predicate Segments(text: string, closes: nat -> bool, from: nat, spans: seq<Span>) {
    && InOrder(spans)
    && (forall k :: 0 <= k < |spans| ==> from <= spans[k].start && Trimmed(text, spans[k]))
    && (forall i {:trigger Covered(spans, i)} :: from <= i < |text| && !IsSpace(text[i]) ==> Covered(spans, i))
    && (forall a, b, i, j :: i < j && Within(spans, a, i) && Within(spans, b, j)
         ==> (a == b <==> !Separated(text, closes, i, j)))
  }

  // ---------------------------------------------------------------- the raw pass

  /** The gap between a raw span and the start of the next one. */
  ghost predicate Boundary(text: string, closes: nat -> bool, left: Span, next: nat) {
    || (left.end + 2 <= next && BlankLineAt(text, left.end)
      && (forall m :: left.end <= m < next ==> m < |text| && text[m] == NEWLINE))
    || (left.end == next && left.start < left.end && SentenceEnd(text, closes, left.end))
  }

  /** Nothing inside a raw span from `start` up to `end` separates it. */
  ghost predicate Whole(text: string, closes: nat -> bool, start: nat, end: nat)
    requires end <= |text|
  {
    && (forall m :: start <= m && m + 1 < end ==> !BlankLineAt(text, m))
    && (forall t, e :: start <= t < e < end && EndsAt(text, closes, t, e) ==> IsCloser(text[e]))
  }

  ghost predicate FreshStart(text: string, closes: nat -> bool, start: nat) {
    || start == 0
    || (start <= |text| && text[start - 1] == NEWLINE)
    || SentenceEnd(text, closes, start)
  }

  ghost predicate RawSpan(text: string, closes: nat -> bool, span: Span) {
    && span.start <= span.end <= |text|
    && FreshStart(text, closes, span.start)
    && Whole(text, closes, span.start, span.end)
  }

  ghost predicate RawSpans(text: string, closes: nat -> bool, spans: seq<Span>) {
    && (forall k :: 0 <= k < |spans| ==> RawSpan(text, closes, spans[k]))
    && (|spans| > 0 ==> spans[0].start == 0)
    && (forall j, k :: 0 <= j && k == j + 1 < |spans| ==> Boundary(text, closes, spans[j], spans[k].start))
  }

  /** The raw spans so far, and where the next one starts. */
  ghost predicate Scanned(text: string, closes: nat -> bool, spans: seq<Span>, start: nat) {
    && RawSpans(text, closes, spans)
    && start <= |text|
    && FreshStart(text, closes, start)
    && if spans == [] then start == 0 else Boundary(text, closes, spans[|spans| - 1], start)
  }

  /** Position `i` was reached from `start` without anything to stop at. */
  ghost predicate Unbroken(text: string, closes: nat -> bool, start: nat, i: nat) {
    && start <= i <= |text|
    && Whole(text, closes, start, i)
    && (forall t :: start <= t < i && IsTerminator(text[t]) ==> !closes(t))
    && (start < i < |text| && text[i - 1] == NEWLINE ==> text[i] != NEWLINE)
  }

  method ScanRaw(text: string, closes: nat -> bool) returns (spans: seq<Span>)
    ensures RawSpans(text, closes, spans)
    ensures |spans| > 0 && spans[|spans| - 1].end == |text|
  {
    hide IsSpace, IsTerminator, IsCloser, RawSpans, Whole, FreshStart, Boundary, Scanned, Unbroken;
    spans := [];
    var start, i := 0, 0;
    NothingYet(text, closes);
    while i < |text|
      invariant Scanned(text, closes, spans, start)
      invariant Unbroken(text, closes, start, i)
      invariant start <= i <= |text|
    {
      var ch := text[i];
      if ch == NEWLINE {
        var j := i;
        while j < |text| && text[j] == NEWLINE
          invariant i <= j <= |text|
          invariant forall m :: i <= m < j ==> text[m] == NEWLINE
        {
          j := j + 1;
        }
        if j - i >= 2 {
          StopAtBlankLine(text, closes, spans, start, i, j);
          spans := spans + [Span(start, i)];
          start := j;
          i := j;
        } else {
          ClosersEndNothing(NEWLINE);
          StepOver(text, closes, start, i);
          i := i + 1;
        }
      } else if IsTerminator(ch) && closes(i) {
        var end := i + 1;
        while end < |text| && IsCloser(text[end])
          invariant i < end <= |text|
          invariant forall m :: i < m < end ==> IsCloser(text[m])
        {
          end := end + 1;
        }
        StopAtTerminator(text, closes, spans, start, i, end);
        spans := spans + [Span(start, end)];
        start := end;
        i := end;
      } else {
        StepOver(text, closes, start, i);
        i := i + 1;
      }
    }
    PushLast(text, closes, spans, start);
    spans := spans + [Span(start, |text|)];
  }

  lemma NothingYet(text: string, closes: nat -> bool)
    ensures Scanned(text, closes, [], 0) && Unbroken(text, closes, 0, 0)
  {
  }

  lemma Push(text: string, closes: nat -> bool, spans: seq<Span>, start: nat, end: nat)
    requires Scanned(text, closes, spans, start) && start <= end <= |text| && Whole(text, closes, start, end)
    ensures RawSpans(text, closes, spans + [Span(start, end)])
  {
    hide Whole, FreshStart, Boundary;
    assert RawSpan(text, closes, Span(start, end));
  }

  lemma PushLast(text: string, closes: nat -> bool, spans: seq<Span>, start: nat)
    requires Scanned(text, closes, spans, start) && Unbroken(text, closes, start, |text|)
    ensures RawSpans(text, closes, spans + [Span(start, |text|)])
  {
    hide IsSpace, IsTerminator, IsCloser, Scanned, RawSpans, Whole;
    Push(text, closes, spans, start, |text|);
  }

  lemma StepOver(text: string, closes: nat -> bool, start: nat, i: nat)
    requires Unbroken(text, closes, start, i) && i < |text|
    requires IsTerminator(text[i]) ==> !closes(i)
    requires text[i] == NEWLINE && i + 1 < |text| ==> text[i + 1] != NEWLINE
    ensures Unbroken(text, closes, start, i + 1)
  {
    hide IsSpace, IsTerminator, IsCloser;
  }

  lemma StopAtBlankLine(text: string, closes: nat -> bool, spans: seq<Span>, start: nat, i: nat, j: nat)
    requires Scanned(text, closes, spans, start) && Unbroken(text, closes, start, i)
    requires i + 2 <= j <= |text| && (forall m :: i <= m < j ==> text[m] == NEWLINE)
      && (j < |text| ==> text[j] != NEWLINE)
    ensures Scanned(text, closes, spans + [Span(start, i)], j) && Unbroken(text, closes, j, j)
  {
    hide IsSpace, IsTerminator, IsCloser, RawSpans;
    Push(text, closes, spans, start, i);
    assert BlankLineAt(text, i) && text[j - 1] == NEWLINE;
    assert Boundary(text, closes, Span(start, i), j);
  }

  lemma StopAtTerminator(text: string, closes: nat -> bool, spans: seq<Span>, start: nat, i: nat, end: nat)
    requires Scanned(text, closes, spans, start) && Unbroken(text, closes, start, i)
    requires i < end <= |text| && text[i] != NEWLINE && EndsAt(text, closes, i, end)
    requires end < |text| ==> !IsCloser(text[end])
    ensures Scanned(text, closes, spans + [Span(start, end)], end) && Unbroken(text, closes, end, end)
  {
    hide IsSpace, IsTerminator, IsCloser, RawSpans;
    WholeToTheEnd(text, closes, start, i, end);
    Push(text, closes, spans, start, end);
    assert SentenceEnd(text, closes, end);
  }

  lemma WholeToTheEnd(text: string, closes: nat -> bool, start: nat, i: nat, end: nat)
    requires start <= i < end <= |text| && Whole(text, closes, start, i)
    requires forall t :: start <= t < i && IsTerminator(text[t]) ==> !closes(t)
    requires text[i] != NEWLINE && EndsAt(text, closes, i, end)
    ensures Whole(text, closes, start, end)
  {
    hide IsSpace, IsTerminator, IsCloser;
    ClosersEndNothing(NEWLINE);
    forall t, e | start <= t < e < end && EndsAt(text, closes, t, e) ensures IsCloser(text[e]) {
      assert t >= i;
      ClosersEndNothing(text[t]);
    }
  }

  // ---------------------------------------------------------------- trimming

  method TrimSpan(text: string, span: Span) returns (s: nat, e: nat)
    requires span.start <= span.end <= |text|
    ensures span.start <= s <= e <= span.end
    ensures s < e ==> Trimmed(text, Span(s, e))
    ensures forall i :: span.start <= i < span.end && !(s <= i < e) ==> IsSpace(text[i])
  {
    hide IsSpace, IsTerminator, IsCloser;
    s, e := span.start, span.end;
    while s < e && IsSpace(text[s])
      invariant span.start <= s <= e
      invariant forall i :: span.start <= i < s ==> IsSpace(text[i])
    {
      s := s + 1;
    }
    while e > s && IsSpace(text[e - 1])
      invariant s <= e <= span.end
      invariant s < e ==> !IsSpace(text[s])
      invariant forall i :: e <= i < span.end ==> IsSpace(text[i])
    {
      e := e - 1;
    }
  }

  /** Trimmed span `k` was cut out of raw span `from[k]`. */
  ghost predicate CutFrom(raw: seq<Span>, out: seq<Span>, from: seq<nat>) {
    && |from| == |out|
    && (forall k :: 0 <= k < |out| ==>
      from[k] < |raw| && raw[from[k]].start <= out[k].start && out[k].end <= raw[from[k]].end)
    && (forall a, b :: 0 <= a < b < |out| ==> from[a] < from[b])
  }

  method OnlySpace(text: string) returns (r: bool)
    ensures r <==> forall i :: 0 <= i < |text| ==> IsSpace(text[i])
  {
    for i := 0 to |text|
      invariant forall m :: 0 <= m < i ==> IsSpace(text[m])
    {
      if !IsSpace(text[i]) {
        return false;
      }
    }
    return true;
  }

  /** Every non-space character of the first `k` raw spans is covered. */
  ghost predicate Kept(text: string, raw: seq<Span>, out: seq<Span>, k: nat) {
    forall r, i {:trigger Within(raw, r, i), Covered(out, i)} ::
      0 <= r < k && i < |text| && Within(raw, r, i) && !IsSpace(text[i]) ==> Covered(out, i)
  }

  method TrimAll(text: string, raw: seq<Span>) returns (out: seq<Span>, ghost from: seq<nat>)
    requires forall k :: 0 <= k < |raw| ==> raw[k].start <= raw[k].end <= |text|
    ensures CutFrom(raw, out, from) && Kept(text, raw, out, |raw|)
    ensures forall a :: 0 <= a < |out| ==> Trimmed(text, out[a])
  {
    hide IsSpace, Trimmed;
    out, from := [], [];
    for k := 0 to |raw|
      invariant CutFrom(raw, out, from) && Kept(text, raw, out, k)
      invariant forall a :: 0 <= a < |out| ==> Trimmed(text, out[a]) && from[a] < k
    {
      var s, e := TrimSpan(text, raw[k]);
      ghost var before := out;
      if s < e {
        out := out + [Span(s, e)];
        from := from + [k];
      }
      forall r, i | 0 <= r < k + 1 && i < |text| && Within(raw, r, i) && !IsSpace(text[i]) ensures Covered(out, i) {
        if r < k {
          assert Covered(before, i);
          var a :| Within(before, a, i);
          assert Within(out, a, i);
        } else {
          assert Within(out, |out| - 1, i);
        }
      }
    }
  }

  /** `split_sentences`. */
  method SplitSentences(text: string, closes: nat -> bool) returns (out: seq<Span>)
    ensures Segments(text, closes, 0, out)
  {
    hide IsSpace, IsTerminator, IsCloser, Separated, Whole, FreshStart, Boundary, CutFrom;
    out := [];
    var blank := OnlySpace(text);
    if !blank {
      var raw := ScanRaw(text, closes);
      ghost var from;
      out, from := TrimAll(text, raw);
      RawCoversAll(text, closes, raw);
      CutsAreSegments(text, closes, raw, out, from);
    }
  }

  lemma {:induction false} RawInOrder(text: string, closes: nat -> bool, raw: seq<Span>, a: nat, b: nat)
    requires RawSpans(text, closes, raw) && a < b < |raw|
    ensures raw[a].end <= raw[b].start
    decreases b
  {
    hide IsSpace, IsTerminator, IsCloser;
    assert Boundary(text, closes, raw[b - 1], raw[b].start);
    if a < b - 1 {
      RawInOrder(text, closes, raw, a, b - 1);
    }
  }

  /** Only newlines fall outside the raw spans. */
  lemma {:induction false} RawCoversUpTo(text: string, closes: nat -> bool, raw: seq<Span>, k: nat, i: nat)
    requires RawSpans(text, closes, raw) && k < |raw| && i < raw[k].end && text[i] != NEWLINE
    ensures Covered(raw, i)
  {
    hide IsSpace, IsTerminator, IsCloser;
    if raw[k].start <= i {
      assert Within(raw, k, i);
    } else {
      assert Boundary(text, closes, raw[k - 1], raw[k].start);
      RawCoversUpTo(text, closes, raw, k - 1, i);
    }
  }

  lemma RawCoversAll(text: string, closes: nat -> bool, raw: seq<Span>)
    requires RawSpans(text, closes, raw) && raw != [] && raw[|raw| - 1].end == |text|
    ensures forall i {:trigger Covered(raw, i)} :: 0 <= i < |text| && !IsSpace(text[i]) ==> Covered(raw, i)
  {
    ClosersEndNothing(NEWLINE);
    forall i | 0 <= i < |text| && !IsSpace(text[i]) ensures Covered(raw, i) {
      RawCoversUpTo(text, closes, raw, |raw| - 1, i);
    }
  }

  lemma RawSeparates(text: string, closes: nat -> bool, raw: seq<Span>, a: nat, b: nat, i: nat, j: nat)
    requires RawSpans(text, closes, raw) && a < b
    requires Within(raw, a, i) && Within(raw, b, j)
    ensures Separated(text, closes, i, j)
  {
    hide IsSpace, IsTerminator, IsCloser;
    assert Boundary(text, closes, raw[a], raw[a + 1].start);
    if a + 1 < b {
      RawInOrder(text, closes, raw, a + 1, b);
    }
    var e := raw[a].end;
    assert i < e <= raw[a + 1].start <= j;
    if !SentenceEnd(text, closes, e) {
      assert BlankLineAt(text, e);
    }
  }

  lemma RawHolds(text: string, closes: nat -> bool, s: Span, i: nat, j: nat)
    requires s.end <= |text| && FreshStart(text, closes, s.start) && Whole(text, closes, s.start, s.end)
    requires s.start <= i < j < s.end
    ensures !Separated(text, closes, i, j)
  {
    hide IsSpace, IsTerminator, IsCloser;
    if e :| i < e <= j && SentenceEnd(text, closes, e) {
      var t :| 0 <= t < e && EndsAt(text, closes, t, e);
      if t < s.start {
        ClosersEndNothing(text[s.start - 1]);
        assert s.start < e && IsCloser(text[s.start]);
      }
    }
  }

  lemma CutsAreSegments(text: string, closes: nat -> bool, raw: seq<Span>, out: seq<Span>, from: seq<nat>)
    requires RawSpans(text, closes, raw) && CutFrom(raw, out, from)
    requires forall a :: 0 <= a < |out| ==> Trimmed(text, out[a])
    requires Kept(text, raw, out, |raw|)
    requires forall i {:trigger Covered(raw, i)} :: 0 <= i < |text| && !IsSpace(text[i]) ==> Covered(raw, i)
    ensures Segments(text, closes, 0, out)
  {
    hide IsSpace, IsTerminator, IsCloser;
    forall a, b | 0 <= a < b < |out| ensures out[a].end <= out[b].start {
      RawInOrder(text, closes, raw, from[a], from[b]);
    }
    forall i | 0 <= i < |text| && !IsSpace(text[i]) ensures Covered(out, i) {
      assert Covered(raw, i);
      var r :| Within(raw, r, i);
    }
    forall a, b, i, j | i < j && Within(out, a, i) && Within(out, b, j)
      ensures a == b <==> !Separated(text, closes, i, j)
    {
      assert Within(raw, from[a], i) && Within(raw, from[b], j);
      if a == b {
        RawHolds(text, closes, raw[from[a]], i, j);
      } else {
        assert a < b;
        RawSeparates(text, closes, raw, from[a], from[b], i, j);
      }
    }
  }

  // ---------------------------------------------------------------- the spans are the only ones

  lemma Separates(text: string, closes: nat -> bool, from: nat, spans: seq<Span>, a: int, b: int, i: int, j: int)
    requires Segments(text, closes, from, spans) && i < j && Within(spans, a, i) && Within(spans, b, j)
    ensures a == b <==> !Separated(text, closes, i, j)
  {
    hide IsSpace, InOrder, Trimmed, Covered, Separated;
  }

  lemma Covers(text: string, closes: nat -> bool, from: nat, spans: seq<Span>, i: int)
    requires Segments(text, closes, from, spans) && from <= i < |text| && !IsSpace(text[i])
    ensures Covered(spans, i)
  {
    hide IsSpace, InOrder, Trimmed, Covered, Separated;
  }

  lemma Spans(text: string, closes: nat -> bool, from: nat, spans: seq<Span>)
    requires Segments(text, closes, from, spans)
    ensures InOrder(spans)
    ensures forall k :: 0 <= k < |spans| ==> from <= spans[k].start && Trimmed(text, spans[k])
  {
    hide IsSpace, InOrder, Trimmed, Covered, Separated;
  }

  /** What lies between two neighbouring spans is in no span. */
  lemma NotCovered(spans: seq<Span>, k: nat, m: nat)
    requires InOrder(spans) && k + 1 < |spans| && spans[k].end <= m < spans[k + 1].start
    requires forall a :: 0 <= a < |spans| ==> spans[a].start < spans[a].end
    ensures !Covered(spans, m)
  {
    forall a ensures !Within(spans, a, m) {
      if 0 <= a < k {
        assert spans[a].end <= spans[k].start;
      } else if k + 1 < a < |spans| {
        assert spans[k + 1].end <= spans[a].start;
      }
    }
  }

  lemma IsSegmentation(text: string, closes: nat -> bool, from: nat, spans: seq<Span>)
    requires InOrder(spans)
    requires forall k :: 0 <= k < |spans| ==> from <= spans[k].start && Trimmed(text, spans[k])
    requires forall i {:trigger Covered(spans, i)} :: from <= i < |text| && !IsSpace(text[i]) ==> Covered(spans, i)
    requires forall a, b, i, j ::
      i < j && Within(spans, a, i) && Within(spans, b, j) ==> (a == b <==> !Separated(text, closes, i, j))
    ensures Segments(text, closes, from, spans)
  {
    hide IsSpace, InOrder, Trimmed, Covered, Separated, Within;
  }

  lemma SameFirst(text: string, closes: nat -> bool, from: nat, a: seq<Span>, b: seq<Span>)
    requires Segments(text, closes, from, a) && Segments(text, closes, from, b) && a != []
    ensures b != [] && a[0].start >= b[0].start
    ensures a[0].start == b[0].start ==> a[0].end >= b[0].end
  {
    hide Segments, Separated, IsSpace;
    Spans(text, closes, from, a);
    Spans(text, closes, from, b);
    assert Trimmed(text, a[0]);
    Covers(text, closes, from, b, a[0].start);
    var k :| Within(b, k, a[0].start);
    assert Trimmed(text, b[0]) && b[0].start <= b[k].start;
    if a[0].start == b[0].start && a[0].end < b[0].end {
      var last := b[0].end - 1;
      Covers(text, closes, from, a, last);
      var m :| Within(a, m, last);
      Separates(text, closes, from, b, 0, 0, a[0].start, last);
      Separates(text, closes, from, a, 0, m, a[0].start, last);
    }
  }

  /** The segmentation of a text is unique: these requirements leave no freedom. */
  lemma {:induction false} SegmentationIsUnique(
      text: string, closes: nat -> bool, from: nat, a: seq<Span>, b: seq<Span>)
    requires Segments(text, closes, from, a) && Segments(text, closes, from, b)
    ensures a == b
    decreases |a|
  {
    hide Segments;
    if a != [] {
      SameFirst(text, closes, from, a, b);
      SameFirst(text, closes, from, b, a);
      assert a[0] == b[0];
      DropFirst(text, closes, from, a);
      DropFirst(text, closes, from, b);
      SegmentationIsUnique(text, closes, a[0].end, a[1..], b[1..]);
      assert a == [a[0]] + a[1..] && b == [b[0]] + b[1..];
    } else if b != [] {
      SameFirst(text, closes, from, b, a);
    }
  }

  lemma DropFirst(text: string, closes: nat -> bool, from: nat, a: seq<Span>)
    requires Segments(text, closes, from, a) && a != []
    ensures Segments(text, closes, a[0].end, a[1..])
  {
    hide Separated, IsSpace, Segments, Trimmed;
    var rest := a[1..];
    Spans(text, closes, from, a);
    assert Trimmed(text, a[0]);
    forall i | a[0].end <= i < |text| && !IsSpace(text[i]) ensures Covered(rest, i) {
      StillCovers(text, closes, from, a, i);
    }
    forall p, q, i, j | i < j && Within(rest, p, i) && Within(rest, q, j)
      ensures p == q <==> !Separated(text, closes, i, j)
    {
      assert Within(a, p + 1, i) && Within(a, q + 1, j);
      Separates(text, closes, from, a, p + 1, q + 1, i, j);
    }
    IsSegmentation(text, closes, a[0].end, rest);
  }

  lemma StillCovers(text: string, closes: nat -> bool, from: nat, a: seq<Span>, i: int)
    requires Segments(text, closes, from, a) && a != [] && a[0].end <= i < |text| && !IsSpace(text[i])
    ensures Covered(a[1..], i)
  {
    hide Separated, IsSpace, Segments;
    Spans(text, closes, from, a);
    assert Trimmed(text, a[0]);
    Covers(text, closes, from, a, i);
    var k :| Within(a, k, i);
    assert Within(a[1..], k - 1, i);
  }

  /** No character is in two spans: the spans partition the non-space text. */
  lemma CoveredOnce(spans: seq<Span>, a: int, b: int, i: int)
    requires InOrder(spans) && Within(spans, a, i) && Within(spans, b, i)
    ensures a == b
  {
  }
}
