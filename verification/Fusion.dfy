/** Reciprocal rank fusion and the final ordering of hits (app/retrieval/hybrid.py). Scores are
    modelled as reals; a ranked list is the list of its chunk ids, best first. */
module Fusion {
  import opened Common

  /** What rank `position` (from 1) is worth. */
  function Worth(k: nat, position: nat): (r: real)
    requires position >= 1
    ensures r > 0.0
  {
    1.0 / (k + position) as real
  }

  function ListScore(ranked: seq<int>, k: nat, id: int): real {
    if ranked == [] then 0.0
    else ListScore(ranked[..|ranked| - 1], k, id) + if ranked[|ranked| - 1] == id then Worth(k, |ranked|) else 0.0
  }

  function Score(lists: seq<seq<int>>, k: nat, id: int): real {
    if lists == [] then 0.0 else Score(lists[..|lists| - 1], k, id) + ListScore(lists[|lists| - 1], k, id)
  }

  ghost predicate Listed(lists: seq<seq<int>>, id: int) {
    exists i :: 0 <= i < |lists| && id in lists[i]
  }

  const DEFAULT_K: nat := 60
  const DEFAULT_CANDIDATES: nat := 50

  /** `k or settings.rrf_k` */
  function EffectiveK(k: Option<nat>): nat {
    if k.None? || k.value == 0 then DEFAULT_K else k.value
  }

  /** `reciprocal_rank_fusion`. */
  method ReciprocalRankFusion(lists: seq<seq<int>>, k: Option<nat>) returns (fused: map<int, real>)
    ensures forall id :: id in fused <==> Listed(lists, id)
    ensures forall id :: id in fused ==> fused[id] == Score(lists, EffectiveK(k), id)
  {
    hide Worth;
    var kk := EffectiveK(k);
    fused := map[];
    for i := 0 to |lists|
      invariant forall id :: id in fused <==> Listed(lists[..i], id)
      invariant forall id :: (if id in fused then fused[id] else 0.0) == Score(lists[..i], kk, id)
    {
      ghost var before := fused;
      assert lists[..i + 1][..i] == lists[..i];
      var ranked := lists[i];
      for p := 0 to |ranked|
        invariant forall id :: id in fused <==> id in before || id in ranked[..p]
        invariant forall id ::
          (if id in fused then fused[id] else 0.0) == Score(lists[..i], kk, id) + ListScore(ranked[..p], kk, id)
      {
        assert ranked[..p + 1][..p] == ranked[..p];
        var id := ranked[p];
        fused := fused[id := (if id in fused then fused[id] else 0.0) + Worth(kk, p + 1)];
      }
      assert ranked[..|ranked|] == ranked;
      forall id ensures Listed(lists[..i + 1], id) <==> Listed(lists[..i], id) || id in ranked {
        ListedGrows(lists, i, id);
      }
    }
    assert lists[..|lists|] == lists;
    forall id ensures !Listed(lists, id) ==> id !in fused {
    }
  }

  lemma ListedGrows(lists: seq<seq<int>>, i: nat, id: int)
    requires i < |lists|
    ensures Listed(lists[..i + 1], id) <==> Listed(lists[..i], id) || id in lists[i]
  {
    assert lists[..i + 1] == lists[..i] + [lists[i]];
    if Listed(lists[..i], id) {
      var m :| 0 <= m < i && id in lists[..i][m];
      assert lists[..i + 1][m] == lists[..i][m];
    }
    if id in lists[i] {
      assert lists[..i + 1][i] == lists[i];
    }
    if Listed(lists[..i + 1], id) {
      var m :| 0 <= m < i + 1 && id in lists[..i + 1][m];
      assert m < i ==> lists[..i][m] == lists[..i + 1][m];
    }
  }

  // ---------------------------------------------------------------- without duplicates, a rank

  lemma {:induction false} AbsentScoresNothing(ranked: seq<int>, k: nat, id: int)
    requires id !in ranked
    ensures ListScore(ranked, k, id) == 0.0
  {
    if ranked != [] {
      AbsentScoresNothing(ranked[..|ranked| - 1], k, id);
    }
  }

  lemma {:induction false} PresentScoresItsRank(ranked: seq<int>, k: nat, i: nat)
    requires Distinct(ranked) && i < |ranked|
    ensures ListScore(ranked, k, ranked[i]) == Worth(k, i + 1)
  {
    var init := ranked[..|ranked| - 1];
    if i == |ranked| - 1 {
      AbsentScoresNothing(init, k, ranked[i]);
    } else {
      PresentScoresItsRank(init, k, i);
    }
  }

  lemma WorthFalls(k: nat, i: nat, j: nat)
    requires 1 <= i < j
    ensures Worth(k, i) > Worth(k, j)
  {
    Reciprocals((k + i) as real, (k + j) as real);
  }

  lemma Reciprocals(a: real, b: real)
    requires 0.0 < a < b
    ensures 1.0 / a > 1.0 / b
  {
    var x, y := 1.0 / a, 1.0 / b;
    assert x * a == 1.0 && y * b == 1.0;
    assert (x - y) * (a * b) == (x * a) * b - (y * b) * a;
    Sign(x - y, a * b);
  }

  // ---------------------------------------------------------------- found by both, found by one

  /** Twice the worst rank of `n` beats once the best rank exactly when `n <= k + 1`. */
  lemma TwiceTheWorst(k: nat, n: nat)
    requires n >= 1
    ensures 2.0 * Worth(k, n) > Worth(k, 1) <==> n <= k + 1
  {
    var x, y := Worth(k, n), Worth(k, 1);
    var a, b := (k + n) as real, (k + 1) as real;
    assert x * a == 1.0 && y * b == 1.0;
    assert (2.0 * x - y) * (a * b) == 2.0 * b - a by {
      assert (2.0 * x - y) * (a * b) == 2.0 * (x * a) * b - (y * b) * a;
    }
    Sign(2.0 * x - y, a * b);
  }

  lemma Sign(x: real, m: real)
    requires m > 0.0
    ensures x * m > 0.0 <==> x > 0.0
  {
  }

  lemma ScoreOfTwo(a: seq<int>, b: seq<int>, k: nat, id: int)
    ensures Score([a, b], k, id) == ListScore(a, k, id) + ListScore(b, k, id)
  {
    assert [a, b][..1] == [a] && [a][..0] == [];
    assert Score([a], k, id) == Score([], k, id) + ListScore(a, k, id);
  }

  lemma ScoreBounds(ranked: seq<int>, k: nat, n: nat, id: int)
    requires Distinct(ranked) && |ranked| <= n && n >= 1
    ensures id in ranked ==> Worth(k, n) <= ListScore(ranked, k, id) <= Worth(k, 1)
    ensures id !in ranked ==> ListScore(ranked, k, id) == 0.0
  {
    if id in ranked {
      var i :| 0 <= i < |ranked| && ranked[i] == id;
      PresentScoresItsRank(ranked, k, i);
      if i + 1 < n {
        WorthFalls(k, i + 1, n);
      }
      if i > 0 {
        WorthFalls(k, 1, i + 1);
      }
    } else {
      AbsentScoresNothing(ranked, k, id);
    }
  }

  /** With duplicate-free lists of at most `k + 1` entries, a chunk in both always outscores a chunk
      in only one. */
  lemma BothBeatsOne(a: seq<int>, b: seq<int>, k: nat, x: int, y: int)
    requires Distinct(a) && Distinct(b) && |a| <= k + 1 && |b| <= k + 1
    requires x in a && x in b && (y in a) != (y in b)
    ensures Score([a, b], k, x) > Score([a, b], k, y)
  {
    hide ListScore, Worth;
    ScoreOfTwo(a, b, k, x);
    ScoreOfTwo(a, b, k, y);
    ScoreBounds(a, k, k + 1, x);
    ScoreBounds(b, k, k + 1, x);
    ScoreBounds(a, k, k + 1, y);
    ScoreBounds(b, k, k + 1, y);
    TwiceTheWorst(k, k + 1);
  }

  /** The defaults are within the bound. */
  lemma DefaultsAreWithinBound()
    ensures BothAlwaysWins(DEFAULT_K, DEFAULT_CANDIDATES)
  {
    hide BothAlwaysWins;
    BothAlwaysWinsIff(DEFAULT_K, DEFAULT_CANDIDATES);
  }

  ghost predicate BothAlwaysWins(k: nat, n: nat) {
    forall a: seq<int>, b: seq<int>, x: int, y: int ::
      Distinct(a) && Distinct(b) && |a| <= n && |b| <= n && x in a && x in b && (y in a) != (y in b) ==>
        Score([a, b], k, x) > Score([a, b], k, y)
  }

  /** The bound is exact: one entry more and a chunk last in both lists only ties with, or loses to,
      a chunk first in one. */
  lemma BothAlwaysWinsIff(k: nat, n: nat)
    ensures BothAlwaysWins(k, n) <==> n <= k + 1
  {
    if n <= k + 1 {
      forall a: seq<int>, b: seq<int>, x: int, y: int |
        Distinct(a) && Distinct(b) && |a| <= n && |b| <= n && x in a && x in b && (y in a) != (y in b)
        ensures Score([a, b], k, x) > Score([a, b], k, y)
      {
        BothBeatsOne(a, b, k, x, y);
      }
    } else {
      LastInBothLoses(k, n);
    }
  }

  lemma LastInBothLoses(k: nat, n: nat)
    requires n >= k + 2
    ensures !BothAlwaysWins(k, n)
  {
    hide ListScore, Worth;
    var a := seq(n, i => i);
    var b := seq(n, i => if i == n - 1 then n - 1 else n + i);
    var x, y := n - 1, 0;
    assert a[n - 1] == x && b[n - 1] == x && a[0] == y && y !in b;
    assert Distinct(a) && Distinct(b);
    ScoreOfTwo(a, b, k, x);
    ScoreOfTwo(a, b, k, y);
    PresentScoresItsRank(a, k, n - 1);
    PresentScoresItsRank(b, k, n - 1);
    PresentScoresItsRank(a, k, 0);
    AbsentScoresNothing(b, k, y);
    TwiceTheWorst(k, n);
  }

  // ---------------------------------------------------------------- dominance

  /** In this list `x` is ranked no worse than `y`. */
  ghost predicate NoWorse(ranked: seq<int>, x: int, y: int) {
    forall j :: 0 <= j < |ranked| && ranked[j] == y ==> exists i :: 0 <= i <= j && ranked[i] == x
  }

  ghost predicate Better(ranked: seq<int>, x: int, y: int) {
    x in ranked && x != y && NoWorse(ranked, x, y)
  }

  lemma EarlierScoresMore(ranked: seq<int>, k: nat, i: nat, j: nat)
    requires Distinct(ranked) && i <= j < |ranked|
    ensures ListScore(ranked, k, ranked[i]) >= ListScore(ranked, k, ranked[j])
    ensures i < j ==> ListScore(ranked, k, ranked[i]) > ListScore(ranked, k, ranked[j])
  {
    hide ListScore, Worth, Distinct;
    PresentScoresItsRank(ranked, k, j);
    PresentScoresItsRank(ranked, k, i);
    if i < j {
      WorthFalls(k, i + 1, j + 1);
    }
  }

  lemma PresentScoresSomething(ranked: seq<int>, k: nat, x: int)
    requires Distinct(ranked)
    ensures ListScore(ranked, k, x) >= 0.0 && (x in ranked ==> ListScore(ranked, k, x) > 0.0)
  {
    hide ListScore, Worth, Distinct;
    if x in ranked {
      var i :| 0 <= i < |ranked| && ranked[i] == x;
      PresentScoresItsRank(ranked, k, i);
    } else {
      AbsentScoresNothing(ranked, k, x);
    }
  }

  lemma NoWorseScores(ranked: seq<int>, k: nat, x: int, y: int)
    requires Distinct(ranked) && NoWorse(ranked, x, y)
    ensures ListScore(ranked, k, x) >= ListScore(ranked, k, y)
    ensures Better(ranked, x, y) ==> ListScore(ranked, k, x) > ListScore(ranked, k, y)
  {
    hide ListScore, Worth, Distinct;
    if y in ranked {
      var j :| 0 <= j < |ranked| && ranked[j] == y;
      var i :| 0 <= i <= j && ranked[i] == x;
      EarlierScoresMore(ranked, k, i, j);
    } else {
      AbsentScoresNothing(ranked, k, y);
      PresentScoresSomething(ranked, k, x);
    }
  }

  /** Ranked no worse in every list and better in one, a chunk scores strictly higher. */
  lemma {:induction false} DominanceScores(lists: seq<seq<int>>, k: nat, x: int, y: int)
    requires forall i :: 0 <= i < |lists| ==> Distinct(lists[i]) && NoWorse(lists[i], x, y)
    ensures Score(lists, k, x) >= Score(lists, k, y)
    ensures (exists i :: 0 <= i < |lists| && Better(lists[i], x, y)) ==> Score(lists, k, x) > Score(lists, k, y)
  {
    hide ListScore, Better, NoWorse, Distinct;
    if lists != [] {
      var init := lists[..|lists| - 1];
      DominanceScores(init, k, x, y);
      NoWorseScores(lists[|lists| - 1], k, x, y);
      if i :| 0 <= i < |lists| && Better(lists[i], x, y) {
        assert i < |init| ==> init[i] == lists[i];
      }
    }
  }

  // ---------------------------------------------------------------- the order of the lists

  lemma {:induction false} ScoreJoin(a: seq<seq<int>>, b: seq<seq<int>>, k: nat, id: int)
    ensures Score(a + b, k, id) == Score(a, k, id) + Score(b, k, id)
  {
    hide ListScore;
    if b == [] {
      assert a + b == a;
    } else {
      assert (a + b)[..|a + b| - 1] == a + b[..|b| - 1];
      ScoreJoin(a, b[..|b| - 1], k, id);
    }
  }

  lemma ScoreOfOne(ranked: seq<int>, k: nat, id: int)
    ensures Score([ranked], k, id) == ListScore(ranked, k, id)
  {
    assert [ranked][..0] == [];
  }

  lemma Without(lists: seq<seq<int>>, i: nat, k: nat, id: int)
    requires i < |lists|
    ensures Score(lists, k, id) == ListScore(lists[i], k, id) + Score(lists[..i] + lists[i + 1..], k, id)
  {
    hide ListScore, Score;
    assert lists == lists[..i] + [lists[i]] + lists[i + 1..];
    ScoreJoin(lists[..i] + [lists[i]], lists[i + 1..], k, id);
    ScoreJoin(lists[..i], [lists[i]], k, id);
    ScoreJoin(lists[..i], lists[i + 1..], k, id);
    ScoreOfOne(lists[i], k, id);
  }

  /** The first list of `a`, found in `b`. */
  lemma FirstListIn(a: seq<seq<int>>, b: seq<seq<int>>) returns (i: nat)
    requires multiset(a) == multiset(b) && a != []
    ensures i < |b| && b[i] == a[0] && multiset(a[1..]) == multiset(b[..i] + b[i + 1..])
  {
    var first := a[0];
    assert first in a;
    SameLists(a, b, first);
    i :| 0 <= i < |b| && b[i] == first;
    TailRows(a);
    RowsWithout(b, i);
  }

  lemma TailRows(lists: seq<seq<int>>)
    requires lists != []
    ensures multiset(lists[1..]) == multiset(lists) - multiset{lists[0]}
  {
    assert lists == [lists[0]] + lists[1..];
  }

  lemma SameLists(a: seq<seq<int>>, b: seq<seq<int>>, l: seq<int>)
    requires multiset(a) == multiset(b)
    ensures l in a <==> l in b
  {
    assert l in multiset(a) <==> l in multiset(b);
  }

  /** A chunk's score does not depend on the order of the lists. */
  lemma {:induction false} ListOrderDoesNotMatter(a: seq<seq<int>>, b: seq<seq<int>>, k: nat, id: int)
    requires multiset(a) == multiset(b)
    ensures Score(a, k, id) == Score(b, k, id)
  {
    hide ListScore;
    if a == [] {
      assert |b| == |multiset(b)| == |multiset(a)| == 0;
    } else {
      var i := FirstListIn(a, b);
      Without(a, 0, k, id);
      Without(b, i, k, id);
      assert a[..0] + a[1..] == a[1..];
      ListOrderDoesNotMatter(a[1..], b[..i] + b[i + 1..], k, id);
    }
  }

  lemma ListedSame(a: seq<seq<int>>, b: seq<seq<int>>, id: int)
    requires multiset(a) == multiset(b)
    ensures Listed(a, id) <==> Listed(b, id)
  {
    forall l ensures l in a <==> l in b {
      SameLists(a, b, l);
    }
    if Listed(a, id) {
      var i :| 0 <= i < |a| && id in a[i];
      assert a[i] in b;
    }
    if Listed(b, id) {
      var i :| 0 <= i < |b| && id in b[i];
      assert b[i] in a;
    }
  }

  // ---------------------------------------------------------------- the final ordering

  /** Higher score first; the smaller id on a tie. */
  predicate Ahead(fused: map<int, real>, x: int, y: int)
    requires x in fused && y in fused
  {
    fused[x] > fused[y] || (fused[x] == fused[y] && x < y)
  }

  ghost predicate First(fused: map<int, real>, rest: set<int>, b: int) {
    b in rest && rest <= fused.Keys && forall y :: y in rest && y != b ==> Ahead(fused, b, y)
  }

  lemma {:induction false} FirstExists(fused: map<int, real>, rest: set<int>)
    requires rest != {} && rest <= fused.Keys
    ensures exists b :: First(fused, rest, b)
  {
    Inhabited(rest);
    var m :| m in rest;
    if rest == {m} {
      assert First(fused, rest, m);
    } else {
      FirstExists(fused, rest - {m});
      var b :| First(fused, rest - {m}, b);
      var best := if Ahead(fused, b, m) then b else m;
      forall y | y in rest && y != best ensures Ahead(fused, best, y) {
        if y != m && y != b {
          assert Ahead(fused, b, y);
        }
      }
      assert First(fused, rest, best);
    }
  }

  /** The best of the ids in `rest`. */
  function Best(fused: map<int, real>, rest: set<int>): (b: int)
    requires rest != {} && rest <= fused.Keys
    ensures First(fused, rest, b)
  {
    FirstExists(fused, rest);
    OneFirst(fused, rest);
    var b :| b in rest && forall y :: y in rest && y != b ==> Ahead(fused, b, y);
    b
  }

  /** `sorted(fused.items(), key=(-score, id))`, of the ids in `rest`. */
  function Ranked(fused: map<int, real>, rest: set<int>): seq<int>
    requires rest <= fused.Keys
  {
    if rest == {} then []
    else
      var b := Best(fused, rest);
      [b] + Ranked(fused, rest - {b})
  }

  lemma {:induction false} RankedIsRanking(fused: map<int, real>, rest: set<int>)
    requires rest <= fused.Keys
    ensures IsRanking(fused, rest, Ranked(fused, rest))
  {
    if rest != {} {
      var b := Best(fused, rest);
      var tail := Ranked(fused, rest - {b});
      RankedIsRanking(fused, rest - {b});
      BestGoesFirst(fused, rest, b, tail);
    }
  }

  lemma BestGoesFirst(fused: map<int, real>, rest: set<int>, b: int, tail: seq<int>)
    requires First(fused, rest, b) && IsRanking(fused, rest - {b}, tail)
    ensures IsRanking(fused, rest, [b] + tail)
  {
    var r := [b] + tail;
    forall x ensures x in r <==> x in rest {
      assert x in r <==> x == b || x in tail;
    }
    forall i | 0 <= i < |tail| ensures tail[i] in rest && tail[i] != b && Ahead(fused, b, tail[i]) {
      assert tail[i] in tail;
    }
  }

  lemma OneFirst(fused: map<int, real>, rest: set<int>)
    requires rest <= fused.Keys
    ensures forall b, c :: First(fused, rest, b) && First(fused, rest, c) ==> b == c
  {
  }

  /** Exactly the ids of `rest`, each ahead of all after it. */
  ghost predicate IsRanking(fused: map<int, real>, rest: set<int>, r: seq<int>) {
    && rest <= fused.Keys
    && (forall x :: x in r <==> x in rest)
    && (forall i, j :: 0 <= i < j < |r| ==> r[i] in rest && r[j] in rest && Ahead(fused, r[i], r[j]))
  }

  datatype Mode = Hybrid | Lexical | Vector

  /** The lists that are fused: both legs when both found something, else the one that did. */
  function ListsFor(mode: Mode, lexical: seq<int>, vector: seq<int>): seq<seq<int>> {
    if mode == Lexical && lexical != [] then [lexical]
    else if mode == Vector && vector != [] then [vector]
    else if lexical != [] && vector != [] then [lexical, vector]
    else [if lexical != [] then lexical else vector]
  }

  /** Where a hit can come from: a leg asked for alone gives all the hits if it found anything; otherwise either
      leg may have found it. */
  ghost predicate IsCandidate(mode: Mode, lexical: seq<int>, vector: seq<int>, id: int) {
    match mode
    case Lexical => if lexical == [] then id in vector else id in lexical
    case Vector => if vector == [] then id in lexical else id in vector
    case Hybrid => id in lexical || id in vector
  }

  /** What a hit is ranked by: its places in the leg asked for, if that found anything, else in both. */
  ghost function Merit(mode: Mode, lexical: seq<int>, vector: seq<int>, id: int): real {
    match mode
    case Lexical => ListScore(if lexical == [] then vector else lexical, DEFAULT_K, id)
    case Vector => ListScore(if vector == [] then lexical else vector, DEFAULT_K, id)
    case Hybrid => ListScore(lexical, DEFAULT_K, id) + ListScore(vector, DEFAULT_K, id)
  }

  lemma ModeMeans(mode: Mode, lexical: seq<int>, vector: seq<int>, id: int)
    ensures Listed(ListsFor(mode, lexical, vector), id) <==> IsCandidate(mode, lexical, vector, id)
    ensures Score(ListsFor(mode, lexical, vector), DEFAULT_K, id) == Merit(mode, lexical, vector, id)
  {
    hide ListScore, Score;
    ScoreOfOne(lexical, DEFAULT_K, id);
    ScoreOfOne(vector, DEFAULT_K, id);
    ScoreOfTwo(lexical, vector, DEFAULT_K, id);
    NothingScoresNothing(DEFAULT_K, id);
    ListedInOne(lexical, id);
    ListedInOne(vector, id);
    ListedInTwo(lexical, vector, id);
  }

  lemma NothingFound(mode: Mode, id: int)
    ensures !IsCandidate(mode, [], [], id)
  {
  }

  lemma NothingRanked(fused: map<int, real>)
    requires fused == map[]
    ensures Ranked(fused, fused.Keys) == []
  {
    assert fused.Keys == {};
  }

  lemma NothingScoresNothing(k: nat, id: int)
    ensures ListScore([], k, id) == 0.0
  {
  }

  lemma ListedInOne(a: seq<int>, id: int)
    ensures Listed([a], id) <==> id in a
  {
    assert [a][0] == a;
  }

  lemma ListedInTwo(a: seq<int>, b: seq<int>, id: int)
    ensures Listed([a, b], id) <==> id in a || id in b
  {
    assert [a, b][0] == a && [a, b][1] == b;
  }

  /** The ids of the hits, best first, as `hybrid_search` orders and cuts them. */
  method OrderHits(mode: Mode, lexical: seq<int>, vector: seq<int>, candidates: nat)
      returns (hits: seq<int>, ghost fused: map<int, real>)
    ensures lexical == [] && vector == [] ==> hits == []
    ensures forall id :: id in fused ==> fused[id] == Score(ListsFor(mode, lexical, vector), DEFAULT_K, id)
    ensures forall id :: id in fused <==> Listed(ListsFor(mode, lexical, vector), id)
    ensures hits <= Ranked(fused, fused.Keys)
    ensures |hits| == candidates || hits == Ranked(fused, fused.Keys)
    ensures forall id :: id in fused <==> IsCandidate(mode, lexical, vector, id)
    ensures forall id :: id in fused ==> fused[id] == Merit(mode, lexical, vector, id)
    ensures forall i, j :: 0 <= i < j < |hits| ==>
      var x, y := hits[i], hits[j];
      x in fused && y in fused && (fused[x] > fused[y] || (fused[x] == fused[y] && x < y))
  {
    hide Score, ListScore, Listed, Ranked, Merit, IsCandidate;
    forall id ensures Listed(ListsFor(mode, lexical, vector), id) <==> IsCandidate(mode, lexical, vector, id)
      ensures Score(ListsFor(mode, lexical, vector), DEFAULT_K, id) == Merit(mode, lexical, vector, id)
    {
      ModeMeans(mode, lexical, vector, id);
    }
    if lexical == [] && vector == [] {
      fused := map[];
      forall id ensures !IsCandidate(mode, lexical, vector, id) {
        NothingFound(mode, id);
      }
      NothingRanked(fused);
      return [], fused;
    }
    var scores := ReciprocalRankFusion(ListsFor(mode, lexical, vector), None);
    fused := scores;
    var ordered := Ranked(scores, scores.Keys);
    RankedIsRanking(scores, scores.Keys);
    hits := if candidates < |ordered| then ordered[..candidates] else ordered;
  }

  /** The fused scores of some lists. */
  ghost predicate Fused(lists: seq<seq<int>>, k: nat, fused: map<int, real>) {
    && (forall id :: id in fused <==> Listed(lists, id))
    && (forall id :: id in fused ==> fused[id] == Score(lists, k, id))
  }

  /** Permuting the lists changes neither the scores nor the order of the hits. */
  lemma HitsIgnoreListOrder(a: seq<seq<int>>, b: seq<seq<int>>, k: nat, f: map<int, real>, g: map<int, real>)
    requires multiset(a) == multiset(b) && Fused(a, k, f) && Fused(b, k, g)
    ensures f == g && Ranked(f, f.Keys) == Ranked(g, g.Keys)
  {
    hide Score, Listed;
    forall id ensures (id in f <==> id in g) && (id in f ==> f[id] == g[id]) {
      ListOrderDoesNotMatter(a, b, k, id);
      ListedSame(a, b, id);
    }
    assert f.Keys == g.Keys;
    assert f == g;
  }

  /** With both legs within the bound, every hit found by both precedes every hit found by one. */
  lemma FoundByBothComeFirst(a: seq<int>, b: seq<int>, k: nat, fused: map<int, real>, hits: seq<int>, i: nat, j: nat)
    requires Distinct(a) && Distinct(b) && |a| <= k + 1 && |b| <= k + 1
    requires Fused([a, b], k, fused) && hits <= Ranked(fused, fused.Keys) && i < |hits| && j < |hits|
    requires hits[i] in a && hits[i] in b && (hits[j] in a) != (hits[j] in b)
    ensures i < j
  {
    hide Score, Listed, Ranked;
    var x, y := hits[i], hits[j];
    var r := Ranked(fused, fused.Keys);
    BothBeatsOne(a, b, k, x, y);
    RankedIsRanking(fused, fused.Keys);
    assert r[i] == x && r[j] == y;
    assert x in r && y in r;
  }

  /** Where no rank constant is given, or zero is, the default counts. */
  lemma RankConstantMeans(k: Option<nat>)
    ensures EffectiveK(k) == match k case Some(n) => (if n > 0 then n else 60) case None => 60
  {
  }
}
