/** A chunk's own token count (app/ingestion/chunking.py:48-49, 169) against the sum of its units' counts, which
    the packing keeps within the limit: rounding and the gaps between units make the difference. */
module Tokens {
  import opened Segment
  import opened Chunking
  import opened Packing
  import opened Closing
  import opened Starts

  /** Four times the estimate, not rounded. */
  function Quarters(s: string): nat {
    3 * CountCJK(s) + |s|
  }

  lemma EstimateRounds(s: string)
    ensures Estimate(s) == Quarters(s) / 4
  {
    hide CountCJK;
  }

  /** The CJK characters of a list of units. */
  function SumCJK(text: string, units: seq<Span>): nat {
    if units == [] then 0 else SumCJK(text, units[..|units| - 1]) + CountCJK(TextOf(text, units[|units| - 1]))
  }

  /** The characters of a list of units. */
  function SumLength(text: string, units: seq<Span>): nat {
    if units == [] then 0 else SumLength(text, units[..|units| - 1]) + |TextOf(text, units[|units| - 1])|
  }

  lemma SpacesHaveNoCJK(text: string, a: nat, b: nat)
    requires a <= b && SpacesOnly(text, a, b)
    ensures CountCJK(text[a..b]) == 0
  {
    var gap := text[a..b];
    forall i | 0 <= i < |gap| ensures !IsCJK(gap[i]) {
      assert IsSpace(text[a + i]);
    }
    PureCounts(gap);
  }

  lemma RangeJoin(text: string, a: nat, b: nat, c: nat)
    requires a <= b <= c <= |text|
    ensures CountCJK(text[a..c]) == CountCJK(text[a..b]) + CountCJK(text[b..c])
  {
    assert text[a..c] == text[a..b] + text[b..c];
    CountJoin(text[a..b], text[b..c]);
  }

  ghost predicate Gapped(text: string, units: seq<Span>) {
    && (forall u :: 0 <= u < |units| ==> units[u].start < units[u].end <= |text|)
    && (forall t, u :: 0 <= t && u == t + 1 < |units| ==>
      units[t].end <= units[u].start && SpacesOnly(text, units[t].end, units[u].start))
  }

  lemma UnitsAreGapped(text: string, closes: nat -> bool, maxTokens: int, sentences: seq<Span>, units: seq<Span>)
    requires Segments(text, closes, 0, sentences) && Units(text, sentences, maxTokens, units)
    ensures Gapped(text, units)
  {
    hide Segments, IsSpace, Covered;
    UnitsAreInked(text, sentences, maxTokens, units);
    forall u | 0 <= u < |units| ensures units[u].start < units[u].end <= |text| {
      assert Inked(text, units[u]);
    }
    forall t, u | 0 <= t && u == t + 1 < |units|
      ensures units[t].end <= units[u].start && SpacesOnly(text, units[t].end, units[u].start) {
      forall m | units[t].end <= m < units[u].start ensures IsSpace(text[m]) {
        NotCovered(units, t, m);
        OutsideUnitsIsSpace(text, closes, maxTokens, sentences, units, m);
      }
    }
  }

  lemma OutsideUnitsIsSpace(
      text: string, closes: nat -> bool, maxTokens: int, sentences: seq<Span>, units: seq<Span>, m: nat)
    requires Segments(text, closes, 0, sentences) && Units(text, sentences, maxTokens, units)
    requires m < |text| && !Covered(units, m)
    ensures IsSpace(text[m])
  {
    hide Segments, Units, IsSpace, Covered;
    if !IsSpace(text[m]) {
      EveryCharacterInAUnit(text, closes, maxTokens, sentences, units, m);
    }
  }

  /** From the first unit's start to the last one's end there are no CJK characters but the units' own. */
  lemma {:induction false} CJKOfRun(text: string, units: seq<Span>, lo: nat, hi: nat)
    requires Gapped(text, units) && lo < hi <= |units|
    ensures units[lo].start <= units[hi - 1].start < units[hi - 1].end <= |text|
    ensures CountCJK(text[units[lo].start..units[hi - 1].end]) == SumCJK(text, units[lo..hi])
    decreases hi
  {
    hide CountCJK, SpacesOnly, SumCJK;
    var last := units[hi - 1];
    SumOfRun(text, units, lo, hi);
    if lo < hi - 1 {
      CJKOfRun(text, units, lo, hi - 1);
      var before := units[hi - 2];
      assert before.end <= last.start && SpacesOnly(text, before.end, last.start);
      RangeJoin(text, units[lo].start, before.end, last.end);
      RangeJoin(text, before.end, last.start, last.end);
      SpacesHaveNoCJK(text, before.end, last.start);
    } else {
      assert units[lo..hi - 1] == [];
      NoUnitsNoCJK(text);
    }
  }

  lemma NoUnitsNoCJK(text: string)
    ensures SumCJK(text, []) == 0
  {
  }

  lemma SumOfRun(text: string, units: seq<Span>, lo: nat, hi: nat)
    requires lo < hi <= |units| && units[hi - 1].start <= units[hi - 1].end <= |text|
    ensures var last := units[hi - 1];
      SumCJK(text, units[lo..hi]) == SumCJK(text, units[lo..hi - 1]) + CountCJK(text[last.start..last.end])
  {
    hide CountCJK, SumCJK;
    var last := units[hi - 1];
    assert units[lo..hi] == units[lo..hi - 1] + [last];
    SumOfOneMore(text, units[lo..hi - 1], last);
  }

  lemma SumOfOneMore(text: string, units: seq<Span>, last: Span)
    requires last.start <= last.end <= |text|
    ensures SumCJK(text, units + [last]) == SumCJK(text, units) + CountCJK(text[last.start..last.end])
  {
    hide CountCJK;
    assert (units + [last])[..|units|] == units;
  }

  /** Cutting spaces off both ends loses no CJK character. */
  lemma CJKOfTrimmed(text: string, units: seq<Span>, g: Group, s: Span)
    requires Gapped(text, units) && CutFromGroup(text, units, g, s)
    ensures CountCJK(text[s.start..s.end]) == SumCJK(text, units[g.lo..g.hi])
  {
    hide CountCJK, IsSpace, SumCJK;
    CJKOfRun(text, units, g.lo, g.hi);
    var from, upto := units[g.lo].start, units[g.hi - 1].end;
    RangeJoin(text, from, s.start, upto);
    RangeJoin(text, s.start, s.end, upto);
    SpacesHaveNoCJK(text, from, s.start);
    SpacesHaveNoCJK(text, s.end, upto);
  }

  /** Each unit's count is rounded down, by less than one token. */
  lemma {:induction false} SumRounds(text: string, units: seq<Span>)
    ensures 4 * SumTokens(text, units) <= 3 * SumCJK(text, units)
      + SumLength(text, units) <= 4 * SumTokens(text, units) + 3 * |units|
  {
    hide CountCJK, Estimate;
    if units != [] {
      SumRounds(text, units[..|units| - 1]);
      EstimateRounds(TextOf(text, units[|units| - 1]));
    }
  }

  /** A chunk's count, from its own length and the CJK characters of its units; so exactly when it is within a
      limit. */
  lemma ChunkTokens(text: string, closes: nat -> bool, limits: Limits, chunks: seq<Chunk>,
                    sentences: seq<Span>, units: seq<Span>, groups: seq<Group>, k: nat)
    requires ChunkedBy(text, closes, limits, chunks, sentences, units, groups) && k < |chunks|
    ensures k < |groups| && groups[k].lo < groups[k].hi <= |units| && chunks[k].start < chunks[k].end
    ensures var weight := 3 * SumCJK(text, units[groups[k].lo..groups[k].hi]) + (chunks[k].end - chunks[k].start);
      chunks[k].tokens == weight / 4 && (chunks[k].tokens <= limits.max <==> weight <= 4 * limits.max + 3)
  {
    hide Segments, Units, Packed, GoodGroups, GoodChunks, Chunks, Estimate, CountCJK, SumCJK, Gapped, IsSpace;
    ChunkFacts(text, units, groups, chunks, k);
    UnitsAreGapped(text, closes, limits.max, sentences, units);
    CJKOfTrimmed(text, units, groups[k], Extent(chunks[k]));
    EstimateRounds(text[chunks[k].start..chunks[k].end]);
  }

  /** How far it can be from the sum of the units' counts: three quarters of a token for each unit, and a quarter
      for each character of the chunk that is in no unit (less those of its units that were trimmed away). */
  lemma ChunkTokensNearLoad(text: string, closes: nat -> bool, limits: Limits, chunks: seq<Chunk>,
                            sentences: seq<Span>, units: seq<Span>, groups: seq<Group>, k: nat)
    requires ChunkedBy(text, closes, limits, chunks, sentences, units, groups) && k < |chunks|
    ensures k < |groups| && groups[k].lo < groups[k].hi <= |units|
    ensures var g := groups[k];
            var gaps := chunks[k].end - chunks[k].start - SumLength(text, units[g.lo..g.hi]);
      && 4 * chunks[k].tokens <= 4 * Load(text, units, g.lo, g.hi) + 3 * (g.hi - g.lo) + gaps
      && 4 * Load(text, units, g.lo, g.hi) + gaps <= 4 * chunks[k].tokens + 3
  {
    hide ChunkedBy, SumCJK, SumLength, SumTokens;
    ChunkTokens(text, closes, limits, chunks, sentences, units, groups, k);
    SumRounds(text, units[groups[k].lo..groups[k].hi]);
  }

  /** The hard limit is passed: two sentences of 160 tokens each are one chunk of 321 at the default limit of 320. */
  lemma DefaultLimitIsPassed(u: Unicode, chunks: seq<Chunk>, sentences: seq<Span>, units: seq<Span>, groups: seq<Group>)
    requires Sane(u)
    requires ChunkedBy(TwoSentences(643, 643), Rule(u, TwoSentences(643, 643)), DEFAULTS, chunks, sentences, units,
      groups)
    ensures |groups| == |chunks| == 2 && groups[1] == Group(0, 2) && |units| == 2
    ensures Load(TwoSentences(643, 643), units, 0, 2) == 320 && chunks[1].tokens == 321
  {
    hide ChunkedBy, Rule, Sane, TwoSentences, Load, CutFromGroup, CarriedWhole, NoCJK, SumCJK;
    var text, closes := TwoSentences(643, 643), Rule(u, TwoSentences(643, 643));
    TwoChunks(u, 643, 643, chunks, sentences, units, groups);
    TwoLoads(643, 643);
    ChunkTokens(text, closes, DEFAULTS, chunks, sentences, units, groups, 1);
    SecondIsWhole(643, 643, closes, chunks, sentences, units, groups);
    NoCJKInTwo(643, 643);
    NoCJKInUnits(text, units);
    assert units[0..2] == units;
  }

  lemma {:induction false} NoCJKInUnits(text: string, units: seq<Span>)
    requires NoCJK(text)
    ensures SumCJK(text, units) == 0
  {
    hide IsCJK, CountCJK;
    if units != [] {
      NoCJKInUnits(text, units[..|units| - 1]);
      PureCounts(TextOf(text, units[|units| - 1]));
    }
  }

  /** The second chunk is the whole text. */
  lemma SecondIsWhole(m: Length, n: Length, closes: nat -> bool, chunks: seq<Chunk>, sentences: seq<Span>,
      units: seq<Span>, groups: seq<Group>)
    requires ChunkedBy(TwoSentences(m, n), closes, DEFAULTS, chunks, sentences, units, groups)
    requires units == Both(m, n) && groups == [Group(0, 1), Group(0, 2)] && |chunks| == 2
    ensures chunks[1].start == 0 && chunks[1].end == m + 1 + n
  {
    var text := TwoSentences(m, n);
    assert text[0] == 'A' && text[m + n] == '.' && !IsSpace('A') && !IsSpace('.');
    hide IsSpace, TwoSentences, CharacterAt, Segments, Units, Packed, GoodGroups, GoodChunks, Chunks, Estimate;
    ChunkFacts(text, units, groups, chunks, 1);
    assert CutFromGroup(text, units, groups[1], Extent(chunks[1]));
  }
}
