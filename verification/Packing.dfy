/** The packing half of `chunk_spans` (app/ingestion/chunking.py:124-170): units are packed into
    groups under a soft target and a hard limit, neighbours overlapping by a few units. */
module Packing {
  import opened Segment
  import opened Chunking

  /** The units `lo`, ..., `hi - 1` form one group. */
  datatype Group = Group(lo: nat, hi: nat)

  function SumTokens(text: string, units: seq<Span>): nat {
    if units == [] then 0 else SumTokens(text, units[..|units| - 1]) + Weight(text, units[|units| - 1])
  }

  lemma {:induction false} SumJoin(text: string, a: seq<Span>, b: seq<Span>)
    ensures SumTokens(text, a + b) == SumTokens(text, a) + SumTokens(text, b)
  {
    if b == [] {
      assert a + b == a;
    } else {
      assert (a + b)[..|a + b| - 1] == a + b[..|b| - 1];
      SumJoin(text, a, b[..|b| - 1]);
    }
  }

  function Load(text: string, units: seq<Span>, lo: nat, hi: nat): nat
    requires lo <= hi <= |units|
  {
    SumTokens(text, units[lo..hi])
  }

  lemma LoadSplits(text: string, units: seq<Span>, a: nat, b: nat, c: nat)
    requires a <= b <= c <= |units|
    ensures Load(text, units, a, c) == Load(text, units, a, b) + Load(text, units, b, c)
  {
    assert units[a..c] == units[a..b] + units[b..c];
    SumJoin(text, units[a..b], units[b..c]);
  }

  lemma LoadExtends(text: string, units: seq<Span>, lo: nat, hi: nat)
    requires lo <= hi < |units|
    ensures Load(text, units, lo, hi + 1) == Load(text, units, lo, hi) + Weight(text, units[hi])
  {
    LoadSplits(text, units, lo, hi, hi + 1);
    assert units[hi..hi + 1] == [units[hi]];
    assert SumTokens(text, [units[hi]]) == SumTokens(text, []) + Weight(text, units[hi]) by {
      assert [units[hi]][..0] == [];
    }
  }

  // ---------------------------------------------------------------- what the packing must be

  predicate Overflows(text: string, units: seq<Span>, limits: Limits, lo: nat, hi: nat)
    requires lo <= hi < |units|
  {
    Load(text, units, lo, hi + 1) > limits.max
  }

  /** Adding unit `hi` to a group that starts at `lo` would pass the limit or the target. */
  predicate Full(text: string, units: seq<Span>, limits: Limits, lo: nat, hi: nat)
    requires lo <= hi < |units|
  {
    Overflows(text, units, limits, lo, hi) || Load(text, units, lo, hi + 1) > limits.target
  }

  /** Where the next group starts: nothing is shared after an overflow; otherwise exactly the last
      `overlap` units are, or the whole group if it is smaller. */
  function NextLo(text: string, units: seq<Span>, limits: Limits, g: Group): (lo: nat)
    requires g.lo <= g.hi < |units|
    ensures g.lo <= lo <= g.hi
    ensures g.hi - lo <= if limits.overlap < 0 then 0 else limits.overlap
  {
    if Overflows(text, units, limits, g.lo, g.hi) || limits.overlap <= 0 then g.hi
    else if limits.overlap >= g.hi - g.lo then g.lo
    else g.hi - limits.overlap
  }

  function PreviousHi(groups: seq<Group>): nat {
    if groups == [] then 0 else groups[|groups| - 1].hi
  }

  /** The group being built after `done`: it takes at least one new unit, and takes further ones
      only while it is not full. */
  ghost predicate Growing(text: string, units: seq<Span>, limits: Limits, done: seq<Group>, g: Group) {
    && PreviousHi(done) < g.hi <= |units|
    && g.lo <= PreviousHi(done)
    && (done == [] ==> g.lo == 0)
    && (done != [] ==> var last := done[|done| - 1]; last.lo <= last.hi && g.lo == NextLo(text, units, limits, last))
    && (forall i :: PreviousHi(done) < i < g.hi ==> !Full(text, units, limits, g.lo, i))
  }

  /** Every group was closed because the next unit made it full. */
  ghost predicate Closed(text: string, units: seq<Span>, limits: Limits, groups: seq<Group>) {
    forall k {:trigger groups[..k]} :: 0 <= k < |groups| ==>
      && Growing(text, units, limits, groups[..k], groups[k])
      && groups[k].lo <= groups[k].hi < |units|
      && Full(text, units, limits, groups[k].lo, groups[k].hi)
  }

  /** The whole packing: closed groups and one last group that takes what is left. */
  ghost predicate Packed(text: string, units: seq<Span>, limits: Limits, groups: seq<Group>) {
    if units == [] then groups == []
    else
      && groups != []
      && Closed(text, units, limits, groups[..|groups| - 1])
      && Growing(text, units, limits, groups[..|groups| - 1], groups[|groups| - 1])
      && groups[|groups| - 1].hi == |units|
  }

  /** The groups are determined by the units and the limits: two packings cannot differ. */
  lemma {:induction false} ClosedIsUnique(
      text: string, units: seq<Span>, limits: Limits, a: seq<Group>, b: seq<Group>, k: nat)
    requires Closed(text, units, limits, a) && Closed(text, units, limits, b) && k <= |a| && k <= |b|
    ensures a[..k] == b[..k]
  {
    hide Full, NextLo, Growing;
    if k > 0 {
      ClosedIsUnique(text, units, limits, a, b, k - 1);
      assert Growing(text, units, limits, a[..k - 1], a[k - 1]) && Growing(text, units, limits, b[..k - 1], b[k - 1]);
      SameGroup(text, units, limits, a[..k - 1], a[k - 1], b[k - 1]);
      assert a[..k] == a[..k - 1] + [a[k - 1]] && b[..k] == b[..k - 1] + [b[k - 1]];
    }
  }

  lemma SameGroup(text: string, units: seq<Span>, limits: Limits, done: seq<Group>, x: Group, y: Group)
    requires Growing(text, units, limits, done, x) && Growing(text, units, limits, done, y)
    requires x.hi < |units| ==> Full(text, units, limits, x.lo, x.hi)
    requires y.hi < |units| ==> Full(text, units, limits, y.lo, y.hi)
    ensures x == y
  {
    hide Full, NextLo;
  }

  // ---------------------------------------------------------------- the loop

  method SumOf(text: string, units: seq<Span>) returns (n: nat)
    ensures n == SumTokens(text, units)
  {
    n := 0;
    for k := 0 to |units|
      invariant n == SumTokens(text, units[..k])
    {
      n := n + Weight(text, units[k]);
      assert units[..k + 1][..k] == units[..k];
    }
    assert units[..|units|] == units;
  }

  /** The units a soft boundary carries forward, as `seed_overlap` and the loop after it do. That
      loop never gives anything up: the hard limit is compared first. */
  method CarryForward(text: string, units: seq<Span>, limits: Limits, ghost g: Group, current: seq<Span>,
      unitTokens: nat)
    returns (carried: seq<Span>, tokens: nat)
    requires g.lo < g.hi < |units| && current == units[g.lo..g.hi] && unitTokens == Weight(text, units[g.hi])
    requires !Overflows(text, units, limits, g.lo, g.hi)
    ensures carried == units[NextLo(text, units, limits, g)..g.hi]
    ensures tokens == SumTokens(text, carried)
  {
    hide Estimate, SumTokens, Overflows;
    ghost var first := NextLo(text, units, limits, g);
    carried := [];
    if limits.overlap > 0 {
      carried := if limits.overlap >= |current| then current else current[|current| - limits.overlap..];
    }
    assert carried == units[first..g.hi];
    tokens := SumOf(text, carried);
    ghost var whole := tokens;
    ghost var lo := first;
    while carried != [] && tokens + unitTokens > limits.max
      invariant first <= lo <= g.hi && carried == units[lo..g.hi]
      invariant tokens == SumTokens(text, carried)
      invariant lo > first ==> whole + unitTokens > limits.max
      decreases |carried|
    {
      carried := carried[1..];
      lo := lo + 1;
      tokens := SumOf(text, carried);
    }
    SharedUnitsFit(text, units, limits, g, first);
  }

  lemma SharedUnitsFit(text: string, units: seq<Span>, limits: Limits, g: Group, lo: nat)
    requires g.lo <= lo <= g.hi < |units| && !Overflows(text, units, limits, g.lo, g.hi)
    ensures SumTokens(text, units[lo..g.hi]) + Weight(text, units[g.hi]) <= limits.max
  {
    hide Estimate, SumTokens;
    LoadSplits(text, units, g.lo, lo, g.hi);
    LoadExtends(text, units, g.lo, g.hi);
  }

  /** What is known before unit `i` is looked at: the closed groups, and the one being built. */
  ghost predicate Before(text: string, units: seq<Span>, limits: Limits, done: seq<Group>, lo: nat, i: nat) {
    && Closed(text, units, limits, done)
    && lo <= i <= |units|
    && if i == 0 then done == [] && lo == 0 else lo < i && Growing(text, units, limits, done, Group(lo, i))
  }

  /** Unit `i` may join the group that starts at `lo`. */
  ghost predicate Ready(text: string, units: seq<Span>, limits: Limits, done: seq<Group>, lo: nat, i: nat) {
    && Closed(text, units, limits, done)
    && lo <= i < |units|
    && if i == 0 then done == [] && lo == 0
       else if PreviousHi(done) == i
         then done != [] && done[|done| - 1].lo <= i && lo == NextLo(text, units, limits, done[|done| - 1])
       else Growing(text, units, limits, done, Group(lo, i)) && !Full(text, units, limits, lo, i)
  }

  lemma NothingPacked(text: string, units: seq<Span>, limits: Limits)
    ensures Before(text, units, limits, [], 0, 0) && SumTokens(text, []) == 0
  {
  }

  lemma Close(text: string, units: seq<Span>, limits: Limits, done: seq<Group>, lo: nat, i: nat)
    requires Before(text, units, limits, done, lo, i) && 0 < i < |units| && Full(text, units, limits, lo, i)
    ensures Ready(text, units, limits, done + [Group(lo, i)], NextLo(text, units, limits, Group(lo, i)), i)
  {
    hide Growing, Full, NextLo;
    var all := done + [Group(lo, i)];
    forall k | 0 <= k < |all|
      ensures Growing(text, units, limits, all[..k], all[k])
      ensures all[k].lo <= all[k].hi < |units| && Full(text, units, limits, all[k].lo, all[k].hi)
    {
      assert all[..k] == done[..k];
      assert done[..|done|] == done;
    }
  }

  lemma Take(text: string, units: seq<Span>, limits: Limits, done: seq<Group>, lo: nat, i: nat)
    requires Ready(text, units, limits, done, lo, i)
    ensures Before(text, units, limits, done, lo, i + 1)
  {
    hide Full, Closed, NextLo;
  }

  lemma Finish(text: string, units: seq<Span>, limits: Limits, done: seq<Group>, lo: nat)
    requires Before(text, units, limits, done, lo, |units|)
    ensures Packed(text, units, limits, if units == [] then done else done + [Group(lo, |units|)])
  {
    hide Full, Closed, Growing;
    var all := done + [Group(lo, |units|)];
    assert all[..|all| - 1] == done;
  }

  ghost predicate Slices(units: seq<Span>, groups: seq<seq<Span>>, at: seq<Group>) {
    |groups| == |at| && forall k ::
      0 <= k < |at| ==> at[k].lo < at[k].hi <= |units| && groups[k] == units[at[k].lo..at[k].hi]
  }

  /** Greedy packing with a trailing overlap window. */
  method Pack(text: string, units: seq<Span>, limits: Limits) returns (groups: seq<seq<Span>>)
    ensures exists at :: Slices(units, groups, at) && Packed(text, units, limits, at)
  {
    hide Estimate, SumTokens, Ready, Before, Packed, Full, NextLo;
    groups := [];
    ghost var at: seq<Group> := [];
    var current: seq<Span>, currentTokens: nat := [], 0;
    ghost var lo: nat := 0;
    NothingPacked(text, units, limits);
    for i := 0 to |units|
      invariant Before(text, units, limits, at, lo, i) && Slices(units, groups, at)
      invariant lo <= i && (lo < i || i == 0) && current == units[lo..i] && currentTokens == SumTokens(text, current)
    {
      groups, at, current, currentTokens,
        lo := MakeRoom(text, units, limits, groups, at, current, currentTokens, lo, i);
      Take(text, units, limits, at, lo, i);
      LoadExtends(text, units, lo, i);
      current := current + [units[i]];
      currentTokens := currentTokens + Weight(text, units[i]);
    }
    Finish(text, units, limits, at, lo);
    if current != [] {
      groups := groups + [current];
      at := at + [Group(lo, |units|)];
    }
    assert Slices(units, groups, at);
  }

  /** Closes the current group if unit `i` does not fit into it. */
  method MakeRoom(text: string, units: seq<Span>, limits: Limits, closed: seq<seq<Span>>, ghost done: seq<Group>,
                  building: seq<Span>, tokens: nat, ghost from: nat, i: nat)
    returns (groups: seq<seq<Span>>, ghost at: seq<Group>, current: seq<Span>, currentTokens: nat, ghost lo: nat)
    requires i < |units| && Before(text, units, limits, done, from, i) && Slices(units, closed, done)
    requires from <= i && (from < i || i == 0) && building == units[from..i] && tokens == SumTokens(text, building)
    ensures Ready(text, units, limits, at, lo, i) && Slices(units, groups, at)
    ensures lo <= i && current == units[lo..i] && currentTokens == SumTokens(text, current)
  {
    hide Estimate, SumTokens, Ready, Before, NextLo;
    groups, at, current, currentTokens, lo := closed, done, building, tokens, from;
    var unitTokens := Weight(text, units[i]);
    LoadExtends(text, units, lo, i);
    NothingPacked(text, units, limits);
    if current != [] && currentTokens + unitTokens > limits.max {
      groups := groups + [current];
      Close(text, units, limits, at, lo, i);
      OverflowSharesNothing(text, units, limits, Group(lo, i));
      at, lo := at + [Group(lo, i)], i;
      current, currentTokens := [], 0;
    }
    if current != [] && currentTokens + unitTokens > limits.target {
      groups := groups + [current];
      Close(text, units, limits, at, lo, i);
      ghost var g := Group(lo, i);
      at, lo := at + [g], NextLo(text, units, limits, g);
      current, currentTokens := CarryForward(text, units, limits, g, current, unitTokens);
    } else if at == done {
      StillRoom(text, units, limits, at, lo, i);
    }
  }

  lemma OverflowSharesNothing(text: string, units: seq<Span>, limits: Limits, g: Group)
    requires g.lo <= g.hi < |units| && Overflows(text, units, limits, g.lo, g.hi)
    ensures NextLo(text, units, limits, g) == g.hi
  {
  }

  lemma StillRoom(text: string, units: seq<Span>, limits: Limits, done: seq<Group>, lo: nat, i: nat)
    requires i < |units| && Before(text, units, limits, done, lo, i)
    requires i > 0 ==> !Full(text, units, limits, lo, i)
    ensures Ready(text, units, limits, done, lo, i)
  {
    hide Full, Closed, NextLo;
  }

  // ---------------------------------------------------------------- what follows from it

  /** Neighbouring groups skip no unit, share at most `overlap` units, and move forward. */
  ghost predicate Neighbours(limits: Limits, g: Group, next: Group) {
    && g.lo <= next.lo <= g.hi < next.hi
    && g.hi - next.lo <= if limits.overlap < 0 then 0 else limits.overlap
  }

  /** A group of two or more units stays within the hard limit. */
  ghost predicate WithinLimit(text: string, units: seq<Span>, limits: Limits, g: Group) {
    g.lo < g.hi <= |units| && (g.hi - g.lo >= 2 ==> Load(text, units, g.lo, g.hi) <= limits.max)
  }

  ghost predicate GoodGroups(text: string, units: seq<Span>, limits: Limits, groups: seq<Group>) {
    && (forall k :: 0 <= k < |groups| ==> WithinLimit(text, units, limits, groups[k]))
    && (forall j, k :: 0 <= j && k == j + 1 < |groups| ==> Neighbours(limits, groups[j], groups[k]))
    && (units == [] ==> groups == [])
    && (units != [] ==> groups != [] && groups[0].lo == 0 && groups[|groups| - 1].hi == |units|)
  }

  lemma GroupFits(text: string, units: seq<Span>, limits: Limits, done: seq<Group>, g: Group)
    requires Growing(text, units, limits, done, g)
    requires done != [] ==> done[|done| - 1].lo <= done[|done| - 1].hi
    ensures WithinLimit(text, units, limits, g)
    ensures done != [] ==> Neighbours(limits, done[|done| - 1], g)
  {
    hide Estimate, SumTokens;
    if g.hi - g.lo >= 2 {
      if g.hi - 1 > PreviousHi(done) {
        assert !Full(text, units, limits, g.lo, g.hi - 1);
      } else {
        var last := done[|done| - 1];
        assert g.hi == last.hi + 1 && !Overflows(text, units, limits, last.lo, last.hi);
        LoadSplits(text, units, last.lo, g.lo, g.hi);
      }
    }
  }

  /** Every packing covers the units by contiguous groups with the promised overlap and limit. */
  lemma PackedIsGood(text: string, units: seq<Span>, limits: Limits, groups: seq<Group>)
    requires Packed(text, units, limits, groups)
    ensures GoodGroups(text, units, limits, groups)
  {
    hide Full, Growing, WithinLimit, Neighbours, Overflows;
    if units != [] {
      var n := |groups| - 1;
      var closed := groups[..n];
      forall k | 0 <= k <= n
        ensures WithinLimit(text, units, limits, groups[k]) && (k > 0 ==> Neighbours(limits, groups[k - 1], groups[k]))
        ensures Growing(text, units, limits, groups[..k], groups[k])
      {
        assert k < n ==> closed[..k] == groups[..k] && closed[k] == groups[k];
        assert k > 0 ==> closed[..k - 1] == groups[..k - 1] && closed[k - 1].lo <= closed[k - 1].hi;
        GroupFits(text, units, limits, groups[..k], groups[k]);
      }
      FirstGroup(text, units, limits, groups[0]);
    }
  }

  lemma FirstGroup(text: string, units: seq<Span>, limits: Limits, g: Group)
    requires Growing(text, units, limits, [], g)
    ensures g.lo == 0
  {
  }

  /** No unit is left out of every group. */
  lemma {:induction false} SomeGroupHolds(
      text: string, units: seq<Span>, limits: Limits, groups: seq<Group>, k: nat, u: nat)
    requires GoodGroups(text, units, limits, groups) && k < |groups| && u < groups[k].hi
    ensures exists m :: 0 <= m < |groups| && groups[m].lo <= u < groups[m].hi
  {
    hide WithinLimit;
    if u < groups[k].lo {
      assert k > 0;
      assert Neighbours(limits, groups[k - 1], groups[k]);
      SomeGroupHolds(text, units, limits, groups, k - 1, u);
    }
  }

  /** Where every sentence is all CJK or has none, no unit and no group passes the hard limit. */
  lemma PureTextStaysWithinLimit(
      text: string, sentences: seq<Span>, limits: Limits, units: seq<Span>, groups: seq<Group>, k: nat)
    requires Units(text, sentences, limits.max, units) && Packed(text, units, limits, groups) && limits.max >= 1
    requires forall s :: 0 <= s < |sentences| ==> Trimmed(text, sentences[s]) && Pure(TextOf(text, sentences[s]))
    requires k < |groups|
    ensures groups[k].lo < groups[k].hi <= |units| && Load(text, units, groups[k].lo, groups[k].hi) <= limits.max
  {
    hide Estimate, Pure, Trimmed, Packed, Units, SumTokens;
    PackedIsGood(text, units, limits, groups);
    var g := groups[k];
    assert WithinLimit(text, units, limits, g);
    if g.hi - g.lo < 2 {
      UnitFits(text, sentences, limits.max, units, g.lo);
      LoadExtends(text, units, g.lo, g.lo);
      NothingPacked(text, units, limits);
      assert units[g.lo..g.lo] == [];
    }
  }

  predicate Pure(s: string) {
    AllCJK(s) || NoCJK(s)
  }

  lemma UnitFits(text: string, sentences: seq<Span>, maxTokens: int, units: seq<Span>, u: nat)
    requires Units(text, sentences, maxTokens, units) && maxTokens >= 1 && u < |units|
    requires forall s :: 0 <= s < |sentences| ==> Trimmed(text, sentences[s]) && Pure(TextOf(text, sentences[s]))
    ensures Weight(text, units[u]) <= maxTokens
  {
    hide Estimate, CharBudget, IsSpace, IsCJK, InOrder;
    assert UnitOf(text, sentences, maxTokens, units[u]);
    var k :| 0 <= k < |sentences| && CameFrom(text, sentences[k], maxTokens, units[u]);
    var s := sentences[k];
    assert Trimmed(text, s) && Pure(TextOf(text, s));
    if Oversized(text, s, maxTokens) {
      PiecesFit(text, s.start, s.end, maxTokens, units[u]);
    }
  }

  // ---------------------------------------------------------------- chunks

  /** The chunk cut out of the units `g.lo`, ..., `g.hi - 1`: their extent, trimmed. */
  ghost predicate CutFromGroup(text: string, units: seq<Span>, g: Group, s: Span) {
    && g.lo < g.hi <= |units|
    && units[g.lo].start <= s.start && s.end <= units[g.hi - 1].end
    && Trimmed(text, s)
    && SpacesOnly(text, units[g.lo].start, s.start)
    && SpacesOnly(text, s.end, units[g.hi - 1].end)
  }

  function Extent(c: Chunk): Span {
    Span(c.start, c.end)
  }

  /** Chunk `k` is group `k`, trimmed, with its position and its own token estimate. */
  ghost predicate Chunks(text: string, units: seq<Span>, groups: seq<Group>, chunks: seq<Chunk>, n: nat) {
    && n <= |groups| && |chunks| == n
    && forall k :: 0 <= k < n ==>
      CutFromGroup(text, units, groups[k], Extent(chunks[k])) && chunks[k].index == k
      && chunks[k].tokens == Weight(text, Extent(chunks[k]))
  }

  method CutChunks(text: string, units: seq<Span>, groups: seq<seq<Span>>, ghost at: seq<Group>)
      returns (out: seq<Chunk>)
    requires Slices(units, groups, at) && InOrder(units) && forall u :: 0 <= u < |units| ==> Inked(text, units[u])
    ensures Chunks(text, units, at, out, |groups|)
  {
    hide IsSpace, Estimate, Trimmed, InOrder, Inked, CutFromGroup, Slices, Chunks;
    out := [];
    NoChunks(text, units, groups, at);
    for k := 0 to |groups|
      invariant Chunks(text, units, at, out, k)
    {
      var group := groups[k];
      SliceEnds(units, groups, at, k);
      var start, end := group[0].start, group[|group| - 1].end;
      GroupIsInked(text, units, at[k]);
      var s, e := TrimSpan(text, Span(start, end));
      NothingTrimmedAway(text, units, at[k], s, e);
      if s < e {
        OneMoreChunk(text, units, at, out, k, Chunk(s, e, |out|, Weight(text, Span(s, e))));
        out := out + [Chunk(s, e, |out|, Weight(text, Span(s, e)))];
      }
    }
  }

  lemma NoChunks(text: string, units: seq<Span>, groups: seq<seq<Span>>, at: seq<Group>)
    requires Slices(units, groups, at)
    ensures Chunks(text, units, at, [], 0) && |at| == |groups|
  {
  }

  lemma SliceEnds(units: seq<Span>, groups: seq<seq<Span>>, at: seq<Group>, k: nat)
    requires Slices(units, groups, at) && k < |groups|
    ensures |at| == |groups| && at[k].lo < at[k].hi <= |units| && groups[k] != []
    ensures groups[k][0] == units[at[k].lo] && groups[k][|groups[k]| - 1] == units[at[k].hi - 1]
  {
  }

  lemma OneMoreChunk(text: string, units: seq<Span>, at: seq<Group>, out: seq<Chunk>, k: nat, c: Chunk)
    requires k < |at| && Chunks(text, units, at, out, k)
    requires CutFromGroup(text, units, at[k], Extent(c)) && c.index == |out| && c.tokens == Weight(text, Extent(c))
    ensures Chunks(text, units, at, out + [c], k + 1) && |out| == k
  {
    hide CutFromGroup, Estimate;
  }

  lemma GroupIsInked(text: string, units: seq<Span>, g: Group)
    requires InOrder(units) && g.lo < g.hi <= |units| && forall u :: 0 <= u < |units| ==> Inked(text, units[u])
    ensures units[g.lo].start < units[g.hi - 1].end <= |text|
  {
    assert Inked(text, units[g.lo]) && Inked(text, units[g.hi - 1]);
    if g.lo < g.hi - 1 {
      assert units[g.lo].end <= units[g.hi - 1].start;
    }
  }

  lemma NothingTrimmedAway(text: string, units: seq<Span>, g: Group, s: nat, e: nat)
    requires InOrder(units) && g.lo < g.hi <= |units| && forall u :: 0 <= u < |units| ==> Inked(text, units[u])
    requires units[g.lo].start <= s <= e <= units[g.hi - 1].end <= |text|
    requires s < e ==> Trimmed(text, Span(s, e))
    requires forall i :: units[g.lo].start <= i < units[g.hi - 1].end && !(s <= i < e) ==> IsSpace(text[i])
    ensures s < e && CutFromGroup(text, units, g, Span(s, e))
  {
    hide IsSpace;
    GroupIsInked(text, units, g);
    assert Inked(text, units[g.lo]);
    var i :| units[g.lo].start <= i < units[g.lo].end && !IsSpace(text[i]);
    if g.lo < g.hi - 1 {
      assert units[g.lo].end <= units[g.hi - 1].start && Inked(text, units[g.hi - 1]);
    }
  }

  /** What a reader of the chunks relies on. */
  ghost predicate GoodChunks(text: string, sentences: seq<Span>, limits: Limits, chunks: seq<Chunk>) {
    && (forall k :: 0 <= k < |chunks| ==>
         Trimmed(text, Extent(chunks[k])) && chunks[k].index == k
           && chunks[k].tokens == Weight(text, Extent(chunks[k])))
    && (forall j, k :: 0 <= j && k == j + 1 < |chunks| ==>
      chunks[j].start <= chunks[k].start && chunks[j].end < chunks[k].end)
    && (forall i :: 0 <= i < |text| && !IsSpace(text[i]) ==> InSomeChunk(chunks, i, i + 1))
    && (forall k :: 0 <= k < |sentences| ==>
         Oversized(text, sentences[k], limits.max) || InSomeChunk(chunks, sentences[k].start, sentences[k].end))
  }

  ghost predicate InSomeChunk(chunks: seq<Chunk>, from: int, upto: int) {
    exists k :: 0 <= k < |chunks| && chunks[k].start <= from && upto <= chunks[k].end
  }

  /** The chunks come out of sentences, units and groups, each stage as it should be. */
  ghost predicate ChunkedBy(text: string, closes: nat -> bool, limits: Limits, chunks: seq<Chunk>,
                            sentences: seq<Span>, units: seq<Span>, groups: seq<Group>) {
    && Segments(text, closes, 0, sentences)
    && Units(text, sentences, limits.max, units)
    && Packed(text, units, limits, groups) && GoodGroups(text, units, limits, groups)
    && Chunks(text, units, groups, chunks, |groups|)
    && GoodChunks(text, sentences, limits, chunks)
  }

  /** `chunk_spans`. The closing predicate only decides what the sentences are. */
  method ChunkSpans(text: string, closes: nat -> bool, limits: Limits) returns (chunks: seq<Chunk>)
    ensures exists sentences, units, groups :: ChunkedBy(text, closes, limits, chunks, sentences, units, groups)
  {
    hide IsSpace, Estimate, Trimmed, InOrder, Segments, Units, Packed, GoodGroups, GoodChunks, Chunks;
    var sentences := SplitSentences(text, closes);
    Spans(text, closes, 0, sentences);
    var units := MakeUnits(text, sentences, limits.max);
    var packed := Pack(text, units, limits);
    ghost var groups :| Slices(units, packed, groups) && Packed(text, units, limits, groups);
    UnitsAreInked(text, sentences, limits.max, units);
    PackedIsGood(text, units, limits, groups);
    chunks := CutChunks(text, units, packed, groups);
    ChunksAreGood(text, closes, limits, sentences, units, groups, chunks);
    assert ChunkedBy(text, closes, limits, chunks, sentences, units, groups);
  }

  lemma UnitsAreInked(text: string, sentences: seq<Span>, maxTokens: int, units: seq<Span>)
    requires Units(text, sentences, maxTokens, units)
    ensures InOrder(units) && forall u :: 0 <= u < |units| ==> Inked(text, units[u])
  {
  }

  lemma ChunkHoldsUnit(text: string, units: seq<Span>, limits: Limits, groups: seq<Group>, chunks: seq<Chunk>, u: nat,
      from: nat, upto: nat)
    requires GoodGroups(text, units, limits, groups) && Chunks(text, units, groups, chunks, |groups|)
    requires InOrder(units) && forall m :: 0 <= m < |units| ==> Inked(text, units[m])
    requires u < |units| && units[u].start <= from < upto <= units[u].end <= |text|
    requires !IsSpace(text[from]) && !IsSpace(text[upto - 1])
    ensures InSomeChunk(chunks, from, upto)
  {
    hide IsSpace, Estimate, Trimmed, GoodGroups, Chunks, Inked, InOrder;
    var g := GroupOf(text, units, limits, groups, u);
    ChunkFacts(text, units, groups, chunks, g);
    ExtentHolds(text, units, groups[g], u);
    var c := chunks[g];
    assert CutFromGroup(text, units, groups[g], Extent(c));
  }

  lemma GroupOf(text: string, units: seq<Span>, limits: Limits, groups: seq<Group>, u: nat) returns (k: nat)
    requires GoodGroups(text, units, limits, groups) && u < |units|
    ensures k < |groups| && groups[k].lo <= u < groups[k].hi <= |units|
  {
    SomeGroupHolds(text, units, limits, groups, |groups| - 1, u);
    k :| 0 <= k < |groups| && groups[k].lo <= u < groups[k].hi;
    assert WithinLimit(text, units, limits, groups[k]);
  }

  lemma ExtentHolds(text: string, units: seq<Span>, g: Group, u: nat)
    requires InOrder(units) && g.lo <= u < g.hi <= |units| && forall m :: 0 <= m < |units| ==> Inked(text, units[m])
    ensures units[g.lo].start <= units[u].start && units[u].end <= units[g.hi - 1].end
  {
    assert Inked(text, units[g.lo]) && Inked(text, units[g.hi - 1]);
    assert g.lo < u ==> units[g.lo].end <= units[u].start;
    assert u < g.hi - 1 ==> units[u].end <= units[g.hi - 1].start;
  }

  lemma ChunksMoveForward(text: string, units: seq<Span>, limits: Limits, g: Group, next: Group, c: Span, d: Span)
    requires InOrder(units) && forall u :: 0 <= u < |units| ==> Inked(text, units[u])
    requires CutFromGroup(text, units, g, c) && CutFromGroup(text, units, next, d) && Neighbours(limits, g, next)
    ensures c.start <= d.start && c.end < d.end
  {
    hide IsSpace;
    var last := units[next.hi - 1];
    assert Inked(text, units[g.lo]) && Inked(text, units[next.lo]) && Inked(text, last);
    assert g.lo < next.lo ==> units[g.lo].end <= units[next.lo].start;
    assert units[g.lo].start <= units[next.lo].start;
    assert units[g.hi - 1].end <= last.start;
    ExtentHolds(text, units, g, g.lo);
    assert g.hi - 1 < |units| && Inked(text, units[g.hi - 1]);
    var p :| last.start <= p < last.end && !IsSpace(text[p]);
    assert p < d.end;
  }

  lemma EveryCharacterInAUnit(
      text: string, closes: nat -> bool, maxTokens: int, sentences: seq<Span>, units: seq<Span>, i: nat)
    requires Segments(text, closes, 0, sentences) && Units(text, sentences, maxTokens, units)
    requires i < |text| && !IsSpace(text[i])
    ensures Covered(units, i)
  {
    hide IsSpace, Estimate, Trimmed, Segments, UnitOf, Oversized;
    Covers(text, closes, 0, sentences, i);
    Spans(text, closes, 0, sentences);
    var k :| Within(sentences, k, i);
    assert Represented(text, sentences[k], maxTokens, units) && sentences[k].end <= |text| by {
      assert Trimmed(text, sentences[k]);
      TrimmedRange(text, sentences[k]);
    }
  }

  lemma EveryCharacterInAChunk(
      text: string, closes: nat -> bool, limits: Limits, sentences: seq<Span>, units: seq<Span>, groups: seq<Group>,
      chunks: seq<Chunk>, i: nat)
    requires Segments(text, closes, 0, sentences) && Units(text, sentences, limits.max, units)
    requires GoodGroups(text, units, limits, groups) && Chunks(text, units, groups, chunks, |groups|)
    requires i < |text| && !IsSpace(text[i])
    ensures InSomeChunk(chunks, i, i + 1)
  {
    hide IsSpace, Estimate, Trimmed, GoodGroups, Chunks, Segments, Units;
    EveryCharacterInAUnit(text, closes, limits.max, sentences, units, i);
    var u :| Within(units, u, i);
    UnitsAreInked(text, sentences, limits.max, units);
    assert Inked(text, units[u]);
    ChunkHoldsUnit(text, units, limits, groups, chunks, u, i, i + 1);
  }

  lemma TrimmedRange(text: string, s: Span)
    requires Trimmed(text, s)
    ensures s.start < s.end <= |text| && !IsSpace(text[s.start]) && !IsSpace(text[s.end - 1])
  {
  }

  lemma SentenceInAChunk(text: string, closes: nat -> bool, limits: Limits, sentences: seq<Span>, units: seq<Span>,
      groups: seq<Group>, chunks: seq<Chunk>, k: nat)
    requires Segments(text, closes, 0, sentences) && Units(text, sentences, limits.max, units)
    requires GoodGroups(text, units, limits, groups) && Chunks(text, units, groups, chunks, |groups|)
    requires k < |sentences| && !Oversized(text, sentences[k], limits.max)
    ensures InSomeChunk(chunks, sentences[k].start, sentences[k].end)
  {
    hide IsSpace, Estimate, Trimmed, GoodGroups, Chunks, Segments, UnitOf, Oversized;
    Spans(text, closes, 0, sentences);
    TrimmedRange(text, sentences[k]);
    assert Represented(text, sentences[k], limits.max, units);
    var u :| 0 <= u < |units| && units[u] == sentences[k];
    UnitsAreInked(text, sentences, limits.max, units);
    ChunkHoldsUnit(text, units, limits, groups, chunks, u, sentences[k].start, sentences[k].end);
  }

  lemma ChunkFacts(text: string, units: seq<Span>, groups: seq<Group>, chunks: seq<Chunk>, k: nat)
    requires Chunks(text, units, groups, chunks, |groups|) && (k < |chunks| || k < |groups|)
    ensures |chunks| == |groups| && CutFromGroup(text, units, groups[k], Extent(chunks[k]))
      && Trimmed(text, Extent(chunks[k]))
    ensures chunks[k].index == k && chunks[k].tokens == Weight(text, Extent(chunks[k]))
  {
    hide IsSpace, Estimate;
  }

  lemma GroupFacts(text: string, units: seq<Span>, limits: Limits, groups: seq<Group>, k: nat)
    requires GoodGroups(text, units, limits, groups) && 0 < k < |groups|
    ensures Neighbours(limits, groups[k - 1], groups[k])
  {
    hide WithinLimit, Neighbours;
  }

  lemma ChunksAreGood(text: string, closes: nat -> bool, limits: Limits, sentences: seq<Span>, units: seq<Span>,
      groups: seq<Group>, chunks: seq<Chunk>)
    requires Segments(text, closes, 0, sentences) && Units(text, sentences, limits.max, units)
    requires GoodGroups(text, units, limits, groups) && Chunks(text, units, groups, chunks, |groups|)
    ensures GoodChunks(text, sentences, limits, chunks)
  {
    hide IsSpace, Estimate, Trimmed, InOrder, Segments, Units, InSomeChunk, Oversized, Neighbours, GoodGroups, Chunks,
      CutFromGroup, Inked;
    UnitsAreInked(text, sentences, limits.max, units);
    forall k | 0 <= k < |chunks|
      ensures Trimmed(text, Extent(chunks[k])) && chunks[k].index == k
        && chunks[k].tokens == Weight(text, Extent(chunks[k]))
    {
      ChunkFacts(text, units, groups, chunks, k);
    }
    forall k | 0 < k < |chunks| ensures chunks[k - 1].start <= chunks[k].start && chunks[k - 1].end < chunks[k].end {
      ChunkFacts(text, units, groups, chunks, k - 1);
      ChunkFacts(text, units, groups, chunks, k);
      GroupFacts(text, units, limits, groups, k);
      ChunksMoveForward(text, units, limits, groups[k - 1], groups[k], Extent(chunks[k - 1]), Extent(chunks[k]));
    }
    forall i | 0 <= i < |text| && !IsSpace(text[i]) ensures InSomeChunk(chunks, i, i + 1) {
      EveryCharacterInAChunk(text, closes, limits, sentences, units, groups, chunks, i);
    }
    forall k | 0 <= k < |sentences| && !Oversized(text, sentences[k], limits.max)
      ensures InSomeChunk(chunks, sentences[k].start, sentences[k].end)
    {
      SentenceInAChunk(text, closes, limits, sentences, units, groups, chunks, k);
    }
  }
}
