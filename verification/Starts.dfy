/** When chunk starts increase (app/ingestion/chunking.py:10, 129-153): a soft boundary after a group of
    at most `overlap` units carries the whole group forward, and the next chunk starts where it started. */
module Starts {
  import opened Segment
  import opened Chunking
  import opened Packing
  import opened Closing

  /** The group closes at the soft target, and is no longer than the overlap. */
  predicate CarriedWhole(text: string, units: seq<Span>, limits: Limits, g: Group) {
    g.lo <= g.hi < |units| && !Overflows(text, units, limits, g.lo, g.hi) && g.hi - g.lo <= limits.overlap
  }

  lemma NextStartsThere(text: string, units: seq<Span>, limits: Limits, g: Group)
    requires g.lo < g.hi < |units|
    ensures NextLo(text, units, limits, g) == g.lo <==> CarriedWhole(text, units, limits, g)
  {
  }

  /** The packing hands each group's start on to the next. */
  lemma HandsOn(text: string, units: seq<Span>, limits: Limits, groups: seq<Group>, k: nat)
    requires Packed(text, units, limits, groups) && k + 1 < |groups|
    ensures groups[k].lo < groups[k].hi < |units| && groups[k + 1].lo == NextLo(text, units, limits, groups[k])
  {
    hide Full, NextLo, Overflows;
    var n := |groups| - 1;
    var closed := groups[..n];
    assert closed[..k] == groups[..k] && closed[k] == groups[k];
    assert Growing(text, units, limits, closed[..k], closed[k]);
    assert k + 1 < n ==>
      closed[..k + 1] == groups[..k + 1] && Growing(text, units, limits, closed[..k + 1], closed[k + 1]);
    assert Growing(text, units, limits, groups[..k + 1], groups[k + 1]);
    assert groups[..k + 1][k] == groups[k];
  }

  /** Two chunks start at the same place exactly when their groups do. */
  lemma StartsTell(text: string, units: seq<Span>, g: Group, next: Group, c: Span, d: Span)
    requires InOrder(units) && forall u :: 0 <= u < |units| ==> Inked(text, units[u])
    requires CutFromGroup(text, units, g, c) && CutFromGroup(text, units, next, d) && g.lo <= next.lo
    ensures c.start < d.start <==> g.lo < next.lo
  {
    hide IsSpace;
    assert Inked(text, units[g.lo]) && Inked(text, units[next.lo]);
    if g.lo < next.lo {
      var p :| units[g.lo].start <= p < units[g.lo].end && !IsSpace(text[p]);
      assert units[g.lo].end <= units[next.lo].start;
      assert c.start <= p;
    } else {
      assert !IsSpace(text[c.start]) && !IsSpace(text[d.start]);
      SameInk(text, units[g.lo].start, c.start, d.start);
    }
  }

  /** Skipping spaces from one place leads to one place. */
  lemma SameInk(text: string, from: nat, s: nat, t: nat)
    requires SpacesOnly(text, from, s) && SpacesOnly(text, from, t) && from <= s < |text| && from <= t < |text|
    requires !IsSpace(text[s]) && !IsSpace(text[t])
    ensures s == t
  {
    hide IsSpace;
  }

  lemma NeighbouringStarts(text: string, closes: nat -> bool, limits: Limits, chunks: seq<Chunk>,
                           sentences: seq<Span>, units: seq<Span>, groups: seq<Group>, k: nat)
    requires ChunkedBy(text, closes, limits, chunks, sentences, units, groups) && k + 1 < |chunks|
    ensures |groups| == |chunks| && chunks[k].start <= chunks[k + 1].start
    ensures chunks[k].start < chunks[k + 1].start <==> !CarriedWhole(text, units, limits, groups[k])
  {
    hide IsSpace, Estimate, Trimmed, InOrder, Segments, Units, Packed, GoodGroups, Chunks, CutFromGroup, Inked,
      CarriedWhole;
    ChunkFacts(text, units, groups, chunks, k);
    ChunkFacts(text, units, groups, chunks, k + 1);
    HandsOn(text, units, limits, groups, k);
    NextStartsThere(text, units, limits, groups[k]);
    UnitsAreInked(text, sentences, limits.max, units);
    StartsTell(text, units, groups[k], groups[k + 1], Extent(chunks[k]), Extent(chunks[k + 1]));
  }

  ghost predicate StartsIncrease(chunks: seq<Chunk>) {
    forall j, k :: 0 <= j && k == j + 1 < |chunks| ==> chunks[j].start < chunks[k].start
  }

  /** Chunk starts strictly increase exactly when no group but the last closes at a soft boundary with at
      most `overlap` units. */
  lemma StartsIncreaseIff(text: string, closes: nat -> bool, limits: Limits, chunks: seq<Chunk>,
                          sentences: seq<Span>, units: seq<Span>, groups: seq<Group>)
    requires ChunkedBy(text, closes, limits, chunks, sentences, units, groups)
    ensures |groups| == |chunks|
    ensures StartsIncrease(chunks) <==>
      forall k :: 0 <= k < |groups| - 1 ==> !CarriedWhole(text, units, limits, groups[k])
  {
    hide CarriedWhole, ChunkedBy;
    SameCount(text, closes, limits, chunks, sentences, units, groups);
    forall j, k | 0 <= j && k == j + 1 < |chunks|
      ensures chunks[j].start < chunks[k].start <==> !CarriedWhole(text, units, limits, groups[j])
    {
      NeighbouringStarts(text, closes, limits, chunks, sentences, units, groups, j);
    }
    if StartsIncrease(chunks) {
      forall k | 0 <= k < |groups| - 1 ensures !CarriedWhole(text, units, limits, groups[k]) {
        assert chunks[k].start < chunks[k + 1].start;
      }
    }
  }

  lemma SameCount(text: string, closes: nat -> bool, limits: Limits, chunks: seq<Chunk>,
                  sentences: seq<Span>, units: seq<Span>, groups: seq<Group>)
    requires ChunkedBy(text, closes, limits, chunks, sentences, units, groups)
    ensures |groups| == |chunks|
  {
  }

  // ---------------------------------------------------------------- two sentences whose chunks start together

  const DEFAULTS := Limits(220, 320, 1)

  type Length = n: nat | 8 <= n witness 8

  /** A capital, small letters and a full stop, `n` characters in all. */
  function Sentence(n: Length): (s: string)
    ensures |s| == n && s[0] == 'A' && s[n - 1] == '.' && forall i :: 0 < i < n - 1 ==> s[i] == 'a'
  {
    "A" + seq(n - 2, _ => 'a') + "."
  }

  /** A sentence of `m` characters, a space and one of `n`. */
  function TwoSentences(m: Length, n: Length): (s: string)
    ensures |s| == m + 1 + n && s[..m] == Sentence(m) && s[m] == ' ' && s[m + 1..] == Sentence(n)
    ensures forall i :: 0 <= i < |s| ==> s[i] == CharacterAt(m, n, i)
  {
    Sentence(m) + " " + Sentence(n)
  }

  function CharacterAt(m: Length, n: Length, i: nat): char {
    if i == 0 || i == m + 1 then 'A' else if i == m - 1 || i == m + n then '.' else if i == m then ' ' else 'a'
  }

  function Both(m: Length, n: Length): seq<Span> {
    [Span(0, m), Span(m + 1, m + 1 + n)]
  }

  /** Together they pass the target but not the limit. */
  predicate Between(m: Length, n: Length) {
    DEFAULTS.target < m / 4 + n / 4 <= DEFAULTS.max
  }

  lemma EndsOfTwo(m: Length, n: Length, closes: nat -> bool, e: int)
    requires closes(m - 1) && closes(m + n)
    ensures SentenceEnd(TwoSentences(m, n), closes, e) <==> e == m || e == m + 1 + n
  {
    var text := TwoSentences(m, n);
    assert forall i :: 0 <= i < |text| ==> !IsCloser(text[i]);
    assert forall i :: 0 <= i < |text| ==> (IsTerminator(text[i]) <==> i == m - 1 || i == m + n);
    hide TwoSentences, CharacterAt, IsCloser, IsTerminator;
    if SentenceEnd(text, closes, e) {
      var t :| 0 <= t < e && EndsAt(text, closes, t, e);
      assert t + 1 < |text| ==> !IsCloser(text[t + 1]);
    }
    if e == m {
      assert EndsAt(text, closes, m - 1, e);
    }
    if e == m + 1 + n {
      assert EndsAt(text, closes, m + n, e);
    }
  }

  lemma TwoSeparated(m: Length, n: Length, closes: nat -> bool, i: int, j: int)
    requires closes(m - 1) && closes(m + n) && 0 <= i < j < m + 1 + n
    ensures Separated(TwoSentences(m, n), closes, i, j) <==> i < m <= j
  {
    hide IsSpace, SentenceEnd, TwoSentences;
    var text := TwoSentences(m, n);
    forall e ensures SentenceEnd(text, closes, e) <==> e == m || e == m + 1 + n {
      EndsOfTwo(m, n, closes, e);
    }
    forall k ensures !BlankLineAt(text, k) {
      NoBlankLine(m, n, k);
    }
    assert SentenceEnd(text, closes, m);
  }

  lemma NoBlankLine(m: Length, n: Length, k: int)
    ensures !BlankLineAt(TwoSentences(m, n), k)
  {
  }

  lemma TwoSpans(m: Length, n: Length, k: int, i: int)
    ensures Within(Both(m, n), k, i) <==> (k == 0 && 0 <= i < m) || (k == 1 && m + 1 <= i < m + 1 + n)
  {
  }

  lemma TwoTrimmed(m: Length, n: Length)
    ensures var both := Both(m, n);
      InOrder(both) && forall k :: 0 <= k < |both| ==> 0 <= both[k].start && Trimmed(TwoSentences(m, n), both[k])
  {
    assert !IsSpace('a') && !IsSpace('A') && !IsSpace('.');
  }

  lemma TextAndSpans(m: Length, n: Length)
    ensures |TwoSentences(m, n)| == m + 1 + n && |Both(m, n)| == 2 && IsSpace(TwoSentences(m, n)[m])
  {
  }

  lemma TwoSegments(m: Length, n: Length, closes: nat -> bool)
    requires closes(m - 1) && closes(m + n)
    ensures Segments(TwoSentences(m, n), closes, 0, Both(m, n))
  {
    hide IsSpace, Separated, Within, TwoSentences, CharacterAt, Both;
    var text, both := TwoSentences(m, n), Both(m, n);
    assert |text| == m + 1 + n && |both| == 2 by { TextAndSpans(m, n); }
    TwoTrimmed(m, n);
    forall i | 0 <= i < |text| && !IsSpace(text[i]) ensures Covered(both, i) {
      TextAndSpans(m, n);
      TwoSpans(m, n, if i < m then 0 else 1, i);
    }
    forall a, b, i, j | i < j && Within(both, a, i) && Within(both, b, j) ensures a == b <==>
      !Separated(text, closes, i, j) {
      TwoSpans(m, n, a, i);
      TwoSpans(m, n, b, j);
      TwoSeparated(m, n, closes, i, j);
    }
    IsSegmentation(text, closes, 0, both);
  }

  lemma NoCJKInTwo(m: Length, n: Length)
    ensures NoCJK(TwoSentences(m, n))
  {
    assert !IsCJK('A') && !IsCJK('a') && !IsCJK('.') && !IsCJK(' ');
    hide IsCJK;
  }

  lemma PlainWeight(text: string, s: Span)
    requires NoCJK(text) && s.start <= s.end <= |text|
    ensures Weight(text, s) == (s.end - s.start) / 4
  {
    hide IsCJK, CountCJK;
    PureCounts(text[s.start..s.end]);
  }

  lemma TwoWeights(m: Length, n: Length)
    ensures Weight(TwoSentences(m, n), Both(m, n)[0]) == m / 4 && Weight(TwoSentences(m, n), Both(m, n)[1]) == n / 4
  {
    hide IsCJK, CountCJK, NoCJK, Weight, CharacterAt, IsSpace;
    NoCJKInTwo(m, n);
    TextAndSpans(m, n);
    PlainWeight(TwoSentences(m, n), Both(m, n)[0]);
    PlainWeight(TwoSentences(m, n), Both(m, n)[1]);
  }

  /** Sentences within the limit are the units. */
  lemma TwoUnits(m: Length, n: Length, units: seq<Span>)
    requires Between(m, n) && Units(TwoSentences(m, n), Both(m, n), DEFAULTS.max, units)
    ensures units == Both(m, n)
  {
    hide Piece, Inked, Estimate, TwoSentences;
    var text, both := TwoSentences(m, n), Both(m, n);
    TwoWeights(m, n);
    forall u | 0 <= u < |units| ensures units[u] == both[0] || units[u] == both[1] {
      assert UnitOf(text, both, DEFAULTS.max, units[u]);
      var k :| 0 <= k < |both| && CameFrom(text, both[k], DEFAULTS.max, units[u]);
    }
    assert Represented(text, both[0], DEFAULTS.max, units) && Represented(text, both[1], DEFAULTS.max, units);
    OrderedPair(both, units);
  }

  lemma OrderedPair(both: seq<Span>, units: seq<Span>)
    requires |both| == 2 && both[0].start < both[0].end <= both[1].start < both[1].end
    requires InOrder(units) && both[0] in units && both[1] in units
    requires forall u :: 0 <= u < |units| ==> units[u] == both[0] || units[u] == both[1]
    ensures units == both
  {
    var x :| 0 <= x < |units| && units[x] == both[0];
    var y :| 0 <= y < |units| && units[y] == both[1];
    EarlierFirst(units, x, y);
    OneOrOther(both, units, x, y, 0);
    OneOrOther(both, units, x, y, 1);
    OneOrOther(both, units, x, y, |units| - 1);
  }

  lemma OneOrOther(both: seq<Span>, units: seq<Span>, x: nat, y: nat, u: nat)
    requires |both| == 2 && both[0].start < both[0].end <= both[1].start < both[1].end
    requires InOrder(units) && x < |units| && y < |units| && u < |units| && units[x] == both[0] && units[y] == both[1]
    requires units[u] == both[0] || units[u] == both[1]
    ensures u == x || u == y
  {
    if units[u] == units[x] {
      OnlyPlace(units, x, u);
    } else {
      OnlyPlace(units, y, u);
    }
  }

  lemma EarlierFirst(units: seq<Span>, x: nat, y: nat)
    requires InOrder(units) && x < |units| && y < |units| && units[x].start < units[y].start < units[y].end
    ensures x < y
  {
  }

  /** A unit occurs once. */
  lemma OnlyPlace(units: seq<Span>, x: nat, u: nat)
    requires InOrder(units) && x < |units| && u < |units| && units[u] == units[x] && units[x].start < units[x].end
    ensures u == x
  {
  }

  lemma TwoLoads(m: Length, n: Length)
    ensures var text, both := TwoSentences(m, n), Both(m, n);
      Load(text, both, 0, 1) == m / 4 && Load(text, both, 0, 2) == m / 4 + n / 4
  {
    hide Estimate, Weight, SumTokens, TwoSentences;
    var text, both := TwoSentences(m, n), Both(m, n);
    TwoWeights(m, n);
    LoadExtends(text, both, 0, 0);
    LoadExtends(text, both, 0, 1);
    NothingPacked(text, both, DEFAULTS);
    assert both[0..0] == [];
  }

  lemma TwoGroups(m: Length, n: Length, groups: seq<Group>)
    requires Between(m, n) && Packed(TwoSentences(m, n), Both(m, n), DEFAULTS, groups)
    ensures groups == [Group(0, 1), Group(0, 2)]
    ensures CarriedWhole(TwoSentences(m, n), Both(m, n), DEFAULTS, groups[0])
  {
    hide Estimate, Weight, SumTokens, Load, TwoSentences;
    var text, both := TwoSentences(m, n), Both(m, n);
    TwoLoads(m, n);
    assert Full(text, both, DEFAULTS, 0, 1) && !Overflows(text, both, DEFAULTS, 0, 1);
    var last := |groups| - 1;
    if last == 0 {
      OneGroup(text, both, DEFAULTS, groups);
    }
    HandsOn(text, both, DEFAULTS, groups, 0);
    StartsAtZero(text, both, DEFAULTS, groups);
    if last >= 2 {
      HandsOn(text, both, DEFAULTS, groups, 1);
    }
  }

  lemma OneGroup(text: string, units: seq<Span>, limits: Limits, groups: seq<Group>)
    requires Packed(text, units, limits, groups) && |groups| == 1
    ensures forall i :: 0 < i < |units| ==> !Full(text, units, limits, 0, i)
  {
    hide Full;
    assert groups[..0] == [];
  }

  lemma StartsAtZero(text: string, units: seq<Span>, limits: Limits, groups: seq<Group>)
    requires Packed(text, units, limits, groups) && units != []
    ensures groups != [] && groups[0].lo == 0 && groups[|groups| - 1].hi == |units|
    ensures forall j, k :: 0 <= j && k == j + 1 < |groups| ==> groups[j].hi < groups[k].hi
  {
    hide Estimate;
    PackedIsGood(text, units, limits, groups);
  }

  // ----- the rule for full stops finds the two sentences

  lemma WordStartsAt(text: string, index: nat, p: nat)
    requires p <= index <= |text| && (forall k :: p <= k < index ==> IsWord(text[k]))
      && (p > 0 ==> !IsWord(text[p - 1]))
    ensures WordStart(text, index) == p
  {
  }

  lemma AbbreviationsAreShort(s: string)
    requires Lower(s) in ABBREVIATIONS
    ensures |s| <= 6
  {
  }

  /** A long word that begins and ends with a letter is not held back. */
  lemma LongWordIsFree(u: Unicode, text: string, p: nat, index: nat)
    requires Sane(u) && p + 6 < index < |text| && text[index] == '.'
    requires (forall k :: p <= k < index ==> IsWord(text[k])) && (p > 0 ==> !IsWord(text[p - 1]))
    requires text[p] == 'A' && text[index - 1] == 'a'
    ensures !Held(u, text, index)
  {
    hide IsWord, ABBREVIATIONS, Lower, IsSpace, IsTerminator, IsCloser;
    WordStartsAt(text, index, p);
    var token := Token(text, index);
    assert token[0] == 'A' && token[|token| - 1] == 'a';
    assert Trim(token, ".'") == token && Trim(token, ".") == token;
    if Lower(token) in ABBREVIATIONS {
      AbbreviationsAreShort(token);
    }
  }

  /** A full stop that is not held back closes at the end of the text and before a space and a capital. */
  lemma FreeStopCloses(u: Unicode, text: string, index: nat)
    requires Sane(u) && index < |text| && text[index] == '.' && !Held(u, text, index)
    requires index + 1 == |text| || (index + 2 < |text| && text[index + 1] == ' ' && text[index + 2] == 'A')
    ensures Closes(u, text, index)
  {
    assert IsSpace(' ') && !IsSpace('A') && !IsCloser(' ');
    hide Held, IsWord, IsSpace, IsCloser, IsTerminator, PastClosers, PastSpaces;
    ClosersEnd(text, index + 1, index + 1);
    if index + 1 < |text| {
      SpacesEnd(text, index + 1, index + 2);
    }
  }

  /** Words of letters before both full stops, and a capital after the first. */
  ghost predicate TwoWords(text: string, m: Length, n: Length) {
    && |text| == m + 1 + n
    && text[0] == 'A' && text[m - 2] == 'a' && text[m - 1] == '.' && text[m] == ' '
    && text[m + 1] == 'A' && text[m + n - 1] == 'a' && text[m + n] == '.'
    && forall k :: 0 <= k < m - 1 || m + 1 <= k < m + n ==> IsWord(text[k])
  }

  lemma AreTwoWords(m: Length, n: Length)
    ensures TwoWords(TwoSentences(m, n), m, n)
  {
    assert IsWord('A') && IsWord('a');
    hide IsWord;
  }

  lemma BothStopsClose(u: Unicode, text: string, m: Length, n: Length)
    requires Sane(u) && TwoWords(text, m, n)
    ensures Closes(u, text, m - 1) && Closes(u, text, m + n)
  {
    assert !IsWord(' ');
    hide IsWord, Held, Sane, Closes;
    LongWordIsFree(u, text, 0, m - 1);
    LongWordIsFree(u, text, m + 1, m + n);
    FreeStopCloses(u, text, m - 1);
    FreeStopCloses(u, text, m + n);
  }

  lemma SentencesAre(text: string, closes: nat -> bool, limits: Limits, chunks: seq<Chunk>,
                     sentences: seq<Span>, units: seq<Span>, groups: seq<Group>, expected: seq<Span>)
    requires ChunkedBy(text, closes, limits, chunks, sentences, units, groups) && Segments(text, closes, 0, expected)
    ensures sentences == expected && Units(text, expected, limits.max, units) && Packed(text, units, limits, groups)
  {
    hide Estimate, Segments, Units, Packed, GoodGroups, Chunks;
    SegmentationIsUnique(text, closes, 0, sentences, expected);
  }

  /** What `chunk_spans` makes of the two sentences at the default limits. */
  lemma TwoChunks(u: Unicode, m: Length, n: Length, chunks: seq<Chunk>, sentences: seq<Span>, units: seq<Span>,
      groups: seq<Group>)
    requires Sane(u) && Between(m, n)
    requires ChunkedBy(TwoSentences(m, n), Rule(u, TwoSentences(m, n)), DEFAULTS, chunks, sentences, units, groups)
    ensures units == Both(m, n) && groups == [Group(0, 1), Group(0, 2)] && |chunks| == 2
    ensures CarriedWhole(TwoSentences(m, n), units, DEFAULTS, groups[0])
  {
    hide Estimate, Segments, Units, Packed, ChunkedBy, CarriedWhole, Closes, TwoSentences, CharacterAt, Both, Sane,
      Between;
    var text, closes := TwoSentences(m, n), Rule(u, TwoSentences(m, n));
    AreTwoWords(m, n);
    BothStopsClose(u, text, m, n);
    TwoSegments(m, n, closes);
    SentencesAre(text, closes, DEFAULTS, chunks, sentences, units, groups, Both(m, n));
    TwoUnits(m, n, units);
    TwoGroups(m, n, groups);
    SameCount(text, closes, DEFAULTS, chunks, sentences, units, groups);
  }

  /** At the default limits any two sentences that together pass the target but not the limit give two chunks
      that start at the same place: the documented increase of starts is not strict. */
  lemma TwoStartsRepeat(u: Unicode, m: Length, n: Length, chunks: seq<Chunk>, sentences: seq<Span>, units: seq<Span>,
      groups: seq<Group>)
    requires Sane(u) && Between(m, n)
    requires ChunkedBy(TwoSentences(m, n), Rule(u, TwoSentences(m, n)), DEFAULTS, chunks, sentences, units, groups)
    ensures |chunks| == 2 && chunks[0].start == chunks[1].start && chunks[0].end < chunks[1].end
  {
    hide ChunkedBy, CarriedWhole, Closes;
    TwoChunks(u, m, n, chunks, sentences, units, groups);
    NeighbouringStarts(TwoSentences(m, n), Rule(u, TwoSentences(m, n)), DEFAULTS, chunks, sentences, units, groups, 0);
    EndsIncrease(TwoSentences(m, n), Rule(u, TwoSentences(m, n)), DEFAULTS, chunks, sentences, units, groups);
  }

  lemma EndsIncrease(text: string, closes: nat -> bool, limits: Limits, chunks: seq<Chunk>,
                     sentences: seq<Span>, units: seq<Span>, groups: seq<Group>)
    requires ChunkedBy(text, closes, limits, chunks, sentences, units, groups)
    ensures forall j, k :: 0 <= j && k == j + 1 < |chunks| ==> chunks[j].end < chunks[k].end
  {
    hide Segments, Units, Packed, GoodGroups, Chunks, Estimate;
  }

  /** A 200-token sentence followed by a 100-token one is such a text. */
  lemma DefaultStartsRepeat(u: Unicode, chunks: seq<Chunk>, sentences: seq<Span>, units: seq<Span>, groups: seq<Group>)
    requires Sane(u)
    requires ChunkedBy(TwoSentences(800, 400), Rule(u, TwoSentences(800, 400)), DEFAULTS, chunks, sentences, units,
      groups)
    ensures |chunks| == 2 && chunks[0].start == chunks[1].start && chunks[0].end < chunks[1].end
  {
    hide ChunkedBy, Rule, TwoSentences, Sane;
    TwoStartsRepeat(u, 800, 400, chunks, sentences, units, groups);
  }

  // ---------------------------------------------------------------- how much neighbouring groups share

  /** A group is closed exactly when the next unit would take it past the target or the limit; and then the next group
      repeats nothing if it was the limit, else the last `overlap` units, or all of them if there are no more. */
  lemma SharedUnits(text: string, units: seq<Span>, limits: Limits, groups: seq<Group>, k: nat)
    requires Packed(text, units, limits, groups) && k + 1 < |groups|
    ensures var g, next := groups[k], groups[k + 1];
      && g.lo < g.hi < |units|
      && var load := SumTokens(text, units[g.lo..g.hi]) + Weight(text, units[g.hi]);
         && (load > limits.target || load > limits.max)
         && g.hi - next.lo == if load > limits.max || limits.overlap < 0 then 0
              else if limits.overlap > g.hi - g.lo then g.hi - g.lo
              else limits.overlap
  {
    hide Estimate, Weight, SumTokens;
    HandsOn(text, units, limits, groups, k);
    var n := |groups| - 1;
    var closed := groups[..n];
    assert closed[..k] == groups[..k] && closed[k] == groups[k];
    LoadExtends(text, units, groups[k].lo, groups[k].hi);
    assert Full(text, units, limits, groups[k].lo, groups[k].hi);
  }

  /** And it takes every unit that fits: none of the ones it took after its first new one would have done so. */
  lemma UnitsTakenFit(text: string, units: seq<Span>, limits: Limits, groups: seq<Group>, k: nat, i: nat)
    requires Packed(text, units, limits, groups) && k < |groups|
    requires (if k == 0 then 0 else groups[k - 1].hi) < i < groups[k].hi
    ensures groups[k].lo <= i < |units|
    ensures var load := SumTokens(text, units[groups[k].lo..i]) + Weight(text, units[i]);
      load <= limits.target && load <= limits.max
  {
    hide Estimate, Weight, SumTokens;
    var n := |groups| - 1;
    var closed := groups[..n];
    assert k < n ==> closed[..k] == groups[..k] && closed[k] == groups[k];
    assert Growing(text, units, limits, groups[..k], groups[k]);
    assert k > 0 ==> groups[..k][k - 1] == groups[k - 1];
    LoadExtends(text, units, groups[k].lo, i);
    assert !Full(text, units, limits, groups[k].lo, i);
  }
}
