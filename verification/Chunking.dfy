/** Sentence-packed chunking (app/ingestion/chunking.py): sentences become units, an oversized
    sentence being cut into pieces, and units are packed greedily into overlapping groups. */
module Chunking {
  import opened Segment

  datatype Limits = Limits(target: int, max: int, overlap: int)
  datatype Chunk = Chunk(start: nat, end: nat, index: nat, tokens: nat)

  // ---------------------------------------------------------------- token estimates

  predicate IsCJK(c: char) {
    var code := c as int;
    0x3400 <= code <= 0x9FFF || 0x8C48 <= code <= 0xFAFF || 0x3040 <= code <= 0x30FF
  }

  function CountCJK(s: string): (n: nat)
    ensures n <= |s|
  {
    if s == [] then 0 else CountCJK(s[..|s| - 1]) + if IsCJK(s[|s| - 1]) then 1 else 0
  }

  /** `estimate_tokens`. */
  function Estimate(s: string): (n: nat)
    ensures n <= |s|
  {
    CountCJK(s) + (|s| - CountCJK(s)) / 4
  }

  /** `_char_budget`. */
  function CharBudget(inner: string, maxTokens: int): (n: nat)
    ensures n >= 1
  {
    var tokens := Estimate(inner);
    var wanted := if tokens <= 0 then maxTokens * 4 else maxTokens * |inner| / tokens;
    if wanted < 1 then 1 else wanted
  }

  predicate AllCJK(s: string) {
    forall i :: 0 <= i < |s| ==> IsCJK(s[i])
  }

  predicate NoCJK(s: string) {
    forall i :: 0 <= i < |s| ==> !IsCJK(s[i])
  }

  lemma {:induction false} PureCounts(s: string)
    ensures AllCJK(s) ==> CountCJK(s) == |s|
    ensures NoCJK(s) ==> CountCJK(s) == 0
  {
    if s != [] {
      PureCounts(s[..|s| - 1]);
    }
  }

  /** A budget for an oversized sentence is never more than about four characters a token, so a
      piece never estimates to more than `4 * maxTokens + 2`. */
  lemma BudgetIsBounded(inner: string, maxTokens: int)
    requires Estimate(inner) > maxTokens >= 1
    ensures CharBudget(inner, maxTokens) <= 4 * maxTokens + 2
    ensures AllCJK(inner) ==> CharBudget(inner, maxTokens) == maxTokens
  {
    PureCounts(inner);
    var n, t := |inner|, Estimate(inner);
    assert n <= 4 * t + 3;
    Quotient(maxTokens, n, t);
    if AllCJK(inner) {
      assert maxTokens * n < (maxTokens + 1) * n;
      DividesTo(maxTokens * n, maxTokens, n);
      DividesTo(maxTokens * n, maxTokens + 1, n);
    }
  }

  lemma Quotient(m: int, n: int, t: int)
    requires 1 <= m < t && 0 <= n <= 4 * t + 3
    ensures m * n / t <= 4 * m + 2
  {
    Monotone(m, n, 4 * t + 3);
    DividesTo(m * n, 4 * m + 3, t);
  }

  lemma Monotone(m: int, a: int, b: int)
    requires m >= 0 && a <= b
    ensures m * a <= m * b
  {
  }

  lemma DividesTo(x: int, k: int, t: int)
    requires t > 0 && 0 <= x
    ensures x < k * t ==> x / t < k
    ensures x >= k * t ==> x / t >= k
  {
    var q, r := x / t, x % t;
    assert x == q * t + r && 0 <= r < t;
    if q < k {
      Monotone(t, q + 1, k);
    } else {
      Monotone(t, k, q);
    }
  }

  // ---------------------------------------------------------------- cutting an oversized sentence

  ghost predicate Inked(text: string, s: Span) {
    s.start < s.end <= |text| && exists i :: s.start <= i < s.end && !IsSpace(text[i])
  }

  ghost predicate SpacesOnly(text: string, from: nat, upto: nat) {
    upto <= |text| && forall i :: from <= i < upto ==> IsSpace(text[i])
  }

  /** `inner.rfind(" ", from, upto)`: the last space in the range, or -1. */
  method FindLastSpace(text: string, from: nat, upto: nat) returns (r: int)
    requires from <= upto <= |text|
    ensures r == -1 || (from <= r < upto && text[r] == ' ')
    ensures forall i :: from <= i < upto && i > r ==> text[i] != ' '
  {
    r := upto - 1;
    while r >= from && text[r] != ' '
      invariant from - 1 <= r < upto
      invariant forall i :: from <= i < upto && i > r ==> text[i] != ' '
    {
      r := r - 1;
    }
    if r < from {
      r := -1;
    }
  }

  /** Where the piece starting at `cursor` ends: at the end of the sentence if that is within the
      budget, else at the last space inside the budget, else after exactly the budget. */
  ghost predicate CutAt(text: string, cursor: nat, window: nat, end: nat, budget: nat) {
    && cursor < window <= end <= |text|
    && window <= cursor + budget
    && (|| window == end
        || (text[window] == ' ' && forall i :: window < i < cursor + budget ==> i < end && text[i] != ' ')
        || (window == cursor + budget && forall i :: cursor < i < window ==> text[i] != ' '))
  }

  ghost predicate Piece(text: string, start: nat, end: nat, budget: nat, s: Span) {
    start <= s.start && CutAt(text, s.start, s.end, end, budget) && Inked(text, s)
  }

  /** Where to cut next. */
  method NextCut(text: string, cursor: nat, end: nat, budget: nat) returns (window: nat)
    requires cursor < end <= |text| && budget >= 1
    ensures CutAt(text, cursor, window, end, budget)
  {
    window := if end < cursor + budget then end else cursor + budget;
    if window < end {
      var cut := FindLastSpace(text, cursor + 1, window);
      if cut > cursor {
        window := cut;
      }
    }
  }

  /** `_hard_split`. */
  method HardSplit(text: string, start: nat, end: nat, maxTokens: int) returns (out: seq<Span>)
    requires start <= end <= |text|
    ensures InOrder(out)
    ensures forall k :: 0 <= k < |out| ==> Piece(text, start, end, CharBudget(text[start..end], maxTokens), out[k])
    ensures forall i {:trigger Covered(out, i)} :: start <= i < end && !IsSpace(text[i]) ==> Covered(out, i)
  {
    hide IsSpace, CutAt, Covered, Inked, CharBudget;
    var budget := CharBudget(text[start..end], maxTokens);
    out := [];
    var cursor := start;
    while cursor < end
      invariant start <= cursor <= end
      invariant InOrder(out)
      invariant forall k :: 0 <= k < |out| ==> out[k].end <= cursor && Piece(text, start, end, budget, out[k])
      invariant forall i {:trigger Covered(out, i)} :: start <= i < cursor && !IsSpace(text[i]) ==> Covered(out, i)
      decreases end - cursor
    {
      var window := NextCut(text, cursor, end, budget);
      CutMovesOn(text, cursor, window, end, budget);
      var blank := OnlySpace(text[cursor..window]);
      ghost var before := out;
      if !blank {
        InkBetween(text, cursor, window);
        out := out + [Span(cursor, window)];
      }
      forall i | start <= i < window && !IsSpace(text[i]) ensures Covered(out, i) {
        if i < cursor {
          assert Covered(before, i);
          StillCovered(before, out, i);
        } else {
          assert text[cursor..window][i - cursor] == text[i];
          LastCovers(out, i);
        }
      }
      cursor := window;
    }
  }

  lemma CutMovesOn(text: string, cursor: nat, window: nat, end: nat, budget: nat)
    requires CutAt(text, cursor, window, end, budget)
    ensures cursor < window <= end <= |text|
  {
  }

  lemma LastCovers(spans: seq<Span>, i: int)
    requires spans != [] && spans[|spans| - 1].start <= i < spans[|spans| - 1].end
    ensures Covered(spans, i)
  {
    assert Within(spans, |spans| - 1, i);
  }

  lemma InkBetween(text: string, from: nat, upto: nat)
    requires from < upto <= |text| && exists i :: 0 <= i < upto - from && !IsSpace(text[from..upto][i])
    ensures Inked(text, Span(from, upto))
  {
    hide IsSpace;
    var i :| 0 <= i < upto - from && !IsSpace(text[from..upto][i]);
    assert !IsSpace(text[from + i]);
  }

  lemma StillCovered(before: seq<Span>, after: seq<Span>, i: int)
    requires before <= after && Covered(before, i)
    ensures Covered(after, i)
  {
    var k :| Within(before, k, i);
    assert Within(after, k, i);
  }

  /** Every piece of an oversized sentence estimates to at most the limit when the sentence is all
      CJK or has no CJK, and never to more than `4 * maxTokens + 2`. */
  lemma PiecesFit(text: string, start: nat, end: nat, maxTokens: int, s: Span)
    requires start <= end <= |text| && maxTokens >= 1 && Estimate(text[start..end]) > maxTokens
    requires Piece(text, start, end, CharBudget(text[start..end], maxTokens), s)
    ensures Estimate(text[s.start..s.end]) <= 4 * maxTokens + 2
    ensures AllCJK(text[start..end]) || NoCJK(text[start..end]) ==> Estimate(text[s.start..s.end]) <= maxTokens
  {
    hide CharBudget, IsCJK, IsSpace;
    var inner, piece := text[start..end], text[s.start..s.end];
    BudgetIsBounded(inner, maxTokens);
    assert forall i :: 0 <= i < |piece| ==> piece[i] == inner[s.start - start + i];
    PureCounts(piece);
  }

  lemma {:induction false} CountJoin(a: string, b: string)
    ensures CountCJK(a + b) == CountCJK(a) + CountCJK(b)
  {
    if b == [] {
      assert a + b == a;
    } else {
      assert (a + b)[..|a + b| - 1] == a + b[..|b| - 1];
      CountJoin(a, b[..|b| - 1]);
    }
  }

  const HAN: char := 0x4E2D as char

  /** In mixed text the limit can be exceeded: four ideographs and eight letters estimate to six
      tokens, so a limit of four buys eight characters, and the first eight estimate to five. */
  lemma MixedPieceOverflows(text: string, s: Span)
    requires text == [HAN, HAN, HAN, HAN] + "aaaaaaaa" && s == Span(0, 8)
    ensures Estimate(text) > 4 && Piece(text, 0, |text|, CharBudget(text, 4), s)
    ensures Estimate(text[s.start..s.end]) == 5
  {
    var han, letters := [HAN, HAN, HAN, HAN], "aaaaaaaa";
    assert text[0..8] == han + letters[..4];
    CountJoin(han, letters);
    CountJoin(han, letters[..4]);
    PureCounts(han);
    PureCounts(letters);
    PureCounts(letters[..4]);
    assert text[s.start] == HAN && !IsSpace(HAN);
    assert Inked(text, s);
    assert CutAt(text, 0, 8, 12, 8);
  }

  // ---------------------------------------------------------------- units

  function TextOf(text: string, s: Span): string {
    if s.start <= s.end <= |text| then text[s.start..s.end] else []
  }

  function Weight(text: string, s: Span): nat {
    Estimate(TextOf(text, s))
  }

  ghost predicate Oversized(text: string, s: Span, maxTokens: int) {
    Weight(text, s) > maxTokens
  }

  /** A unit is a sentence within the limit, or a piece of one that is not. */
  ghost predicate UnitOf(text: string, sentences: seq<Span>, maxTokens: int, unit: Span) {
    exists k :: 0 <= k < |sentences| && CameFrom(text, sentences[k], maxTokens, unit)
  }

  ghost predicate CameFrom(text: string, sentence: Span, maxTokens: int, unit: Span) {
    if Oversized(text, sentence, maxTokens)
    then Piece(text, sentence.start, sentence.end, CharBudget(TextOf(text, sentence), maxTokens), unit)
    else unit == sentence
  }

  ghost predicate Units(text: string, sentences: seq<Span>, maxTokens: int, units: seq<Span>) {
    && InOrder(units)
    && (forall u :: 0 <= u < |units| ==> Inked(text, units[u]) && UnitOf(text, sentences, maxTokens, units[u]))
    && (forall k :: 0 <= k < |sentences| ==> Represented(text, sentences[k], maxTokens, units))
  }

  /** Nothing of the sentence is lost, and a sentence within the limit stays whole. */
  ghost predicate Represented(text: string, sentence: Span, maxTokens: int, units: seq<Span>) {
    && (forall i {:trigger Covered(units, i)} ::
      sentence.start <= i < sentence.end <= |text| && !IsSpace(text[i]) ==> Covered(units, i))
    && (Oversized(text, sentence, maxTokens) || sentence in units)
  }

  ghost predicate UnitsUpTo(text: string, sentences: seq<Span>, maxTokens: int, units: seq<Span>, k: nat) {
    && k <= |sentences|
    && Units(text, sentences[..k], maxTokens, units)
    && (forall u :: 0 <= u < |units| && k > 0 ==> units[u].end <= sentences[k - 1].end)
    && (k == 0 ==> units == [])
  }

  method MakeUnits(text: string, sentences: seq<Span>, maxTokens: int) returns (units: seq<Span>)
    requires InOrder(sentences) && forall k :: 0 <= k < |sentences| ==> Trimmed(text, sentences[k])
    ensures Units(text, sentences, maxTokens, units)
  {
    hide IsSpace, Estimate, CharBudget, InOrder, UnitsUpTo, Units, Piece;
    units := [];
    NoUnits(text, sentences, maxTokens);
    for k := 0 to |sentences|
      invariant UnitsUpTo(text, sentences, maxTokens, units, k)
    {
      var span := sentences[k];
      assert Trimmed(text, span);
      var more: seq<Span> := [span];
      if Estimate(text[span.start..span.end]) > maxTokens {
        more := HardSplit(text, span.start, span.end, maxTokens);
      }
      assert TextOf(text, span) == text[span.start..span.end];
      OneSentence(text, span, maxTokens, more);
      Extend(text, sentences, maxTokens, units, k, more);
      units := units + more;
    }
    AllUnits(text, sentences, maxTokens, units);
  }

  lemma NoUnits(text: string, sentences: seq<Span>, maxTokens: int)
    ensures UnitsUpTo(text, sentences, maxTokens, [], 0)
  {
  }

  lemma AllUnits(text: string, sentences: seq<Span>, maxTokens: int, units: seq<Span>)
    requires UnitsUpTo(text, sentences, maxTokens, units, |sentences|)
    ensures Units(text, sentences, maxTokens, units)
  {
    assert sentences[..|sentences|] == sentences;
  }

  /** The units made of one sentence. */
  ghost predicate UnitsOfOne(text: string, span: Span, maxTokens: int, more: seq<Span>) {
    && InOrder(more)
    && (forall u :: 0 <= u < |more| ==>
      Inked(text, more[u]) && CameFrom(text, span, maxTokens, more[u]) && span.start <= more[u].start
      && more[u].end <= span.end)
    && Represented(text, span, maxTokens, more)
  }

  lemma OneSentence(text: string, span: Span, maxTokens: int, more: seq<Span>)
    requires Trimmed(text, span)
    requires if Oversized(text, span, maxTokens)
             then && InOrder(more)
                  && (forall u :: 0 <= u < |more| ==>
                    Piece(text, span.start, span.end, CharBudget(TextOf(text, span), maxTokens), more[u]))
                  && (forall i {:trigger Covered(more, i)} ::
                    span.start <= i < span.end && !IsSpace(text[i]) ==> Covered(more, i))
             else more == [span]
    ensures UnitsOfOne(text, span, maxTokens, more)
  {
    hide IsSpace, Estimate, CharBudget, Oversized;
    if !Oversized(text, span, maxTokens) {
      assert !IsSpace(text[span.start]);
      assert more[0] == span && more[0] in more;
      forall i | span.start <= i < span.end && !IsSpace(text[i]) ensures Covered(more, i) {
        assert Within(more, 0, i);
      }
    }
  }

  lemma Extend(text: string, sentences: seq<Span>, maxTokens: int, units: seq<Span>, k: nat, more: seq<Span>)
    requires InOrder(sentences) && k < |sentences| && Trimmed(text, sentences[k])
    requires UnitsUpTo(text, sentences, maxTokens, units, k) && UnitsOfOne(text, sentences[k], maxTokens, more)
    ensures UnitsUpTo(text, sentences, maxTokens, units + more, k + 1)
  {
    hide IsSpace, CharBudget, Oversized, Represented, CameFrom, Inked;
    var all, upto := units + more, sentences[..k + 1];
    assert upto[k] == sentences[k];
    assert k > 0 ==> sentences[k - 1].end <= sentences[k].start;
    forall u | 0 <= u < |all|
      ensures Inked(text, all[u]) && UnitOf(text, upto, maxTokens, all[u]) && all[u].end <= sentences[k].end {
      if u < |units| {
        var m :| 0 <= m < k && CameFrom(text, sentences[..k][m], maxTokens, units[u]);
        assert upto[m] == sentences[m];
      } else {
        assert all[u] == more[u - |units|];
        assert CameFrom(text, upto[k], maxTokens, all[u]);
      }
    }
    forall a, b | 0 <= a < b < |all| ensures all[a].end <= all[b].start {
      if a < |units| <= b {
        assert all[b] == more[b - |units|];
      }
    }
    forall m | 0 <= m < k + 1 ensures Represented(text, upto[m], maxTokens, all) {
      if m < k {
        assert upto[m] == sentences[..k][m];
        StillRepresented(text, sentences[m], maxTokens, units, more);
      } else {
        StillRepresented(text, sentences[k], maxTokens, more, units);
      }
    }
  }

  lemma StillRepresented(text: string, sentence: Span, maxTokens: int, part: seq<Span>, other: seq<Span>)
    requires Represented(text, sentence, maxTokens, part)
    ensures Represented(text, sentence, maxTokens, part + other) && Represented(text, sentence, maxTokens, other + part)
  {
    hide IsSpace, Oversized;
    forall i | sentence.start <= i < sentence.end <= |text| && !IsSpace(text[i])
      ensures Covered(part + other, i) && Covered(other + part, i)
    {
      assert Covered(part, i);
      var k :| Within(part, k, i);
      assert (part + other)[k] == part[k] && (other + part)[|other| + k] == part[k];
      assert Within(part + other, k, i) && Within(other + part, |other| + k, i);
    }
  }

  // ---------------------------------------------------------------- what the counts are

  /** The positions of the ideographs and kana. */
  function CJKPositions(s: string): set<nat> {
    set i: nat | i < |s| && (
      0x3400 <= s[i] as int <= 0x9FFF || 0x8C48 <= s[i] as int <= 0xFAFF || 0x3040 <= s[i] as int <= 0x30FF)
  }

  lemma {:induction false} CountMeans(s: string)
    ensures CountCJK(s) == |CJKPositions(s)|
  {
    if s != [] {
      var init, n := s[..|s| - 1], |s| - 1;
      CountMeans(init);
      assert CJKPositions(s) == CJKPositions(init) + (if IsCJK(s[n]) then {n} else {});
    }
  }

  /** A token for each ideograph or kana, and one for every four other characters, rounded down. */
  lemma EstimateMeans(s: string)
    ensures var others := |s| - |CJKPositions(s)|;
      4 * (Estimate(s) - |CJKPositions(s)|) <= others < 4 * (Estimate(s) - |CJKPositions(s)|) + 4
  {
    CountMeans(s);
  }

  /** The budget is the most characters that are worth the limit at the sentence's own density, but at least one; a
      sentence too short to be worth a token counts four characters a token. */
  lemma BudgetMeans(inner: string, maxTokens: int)
    requires maxTokens >= 1
    ensures var budget, tokens := CharBudget(inner, maxTokens), Estimate(inner);
      if tokens == 0 then budget == 4 * maxTokens
      else
        || budget * tokens <= maxTokens * |inner| < (budget + 1) * tokens
        || (budget == 1 && maxTokens * |inner| < tokens)
  {
    hide Estimate;
    var tokens := Estimate(inner);
    if tokens > 0 {
      var x := maxTokens * |inner|;
      assert x >= 0;
      Divides(x, tokens);
      if x / tokens < 1 {
        DividesTo(x, 1, tokens);
      }
    }
  }

  lemma Divides(x: int, t: int)
    requires t > 0 && x >= 0
    ensures (x / t) * t <= x < (x / t + 1) * t
  {
  }
}
