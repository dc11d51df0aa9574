/** Rows are numbered in order of arrival, so two histories of one document agree at best up to the ids
    of versions and claims. Matching and reconciling commute with any one-to-one renaming of them. */
module Renaming {
  import opened Common
  import opened Matching
  import opened MatchingTheorems
  import opened Reconcile
  import opened ReconcileTheorems

  type Names = nat -> nat

  ghost predicate Injective(f: Names) {
    forall x, y :: f(x) == f(y) ==> x == y
  }

  /** What the matcher measures depends on the statements and their dates, not on row numbers. */
  ghost predicate IgnoresIds(j: Judge) {
    forall p: Claim, c: Claim, x: nat, y: nat ::
      && j.score(Claim(x, p.statement, p.assertedAt), Claim(y, c.statement, c.assertedAt)) == j.score(p, c)
      && j.conflict(Claim(x, p.statement, p.assertedAt), Claim(y, c.statement, c.assertedAt)) == j.conflict(p, c)
      && j.f1(Claim(x, p.statement, p.assertedAt), Claim(y, c.statement, c.assertedAt)) == j.f1(p, c)
  }

  // ----- renamed values -----------------------------------------------------------------------

  function NewClaim(f: Names, c: Claim): Claim {
    Claim(f(c.id), c.statement, c.assertedAt)
  }

  function NewClaims(f: Names, cs: seq<Claim>): (r: seq<Claim>)
    ensures |r| == |cs| && forall i :: 0 <= i < |cs| ==> r[i] == NewClaim(f, cs[i])
  {
    seq(|cs|, i requires 0 <= i < |cs| => NewClaim(f, cs[i]))
  }

  function NewMatch(f: Names, m: Match): Match {
    Match(NewClaim(f, m.previous), if m.successor.Some? then Some(NewClaim(f, m.successor.value)) else None, m.outcome)
  }

  function NewMatches(f: Names, ms: seq<Match>): (r: seq<Match>)
    ensures |r| == |ms| && forall i :: 0 <= i < |ms| ==> r[i] == NewMatch(f, ms[i])
  {
    seq(|ms|, i requires 0 <= i < |ms| => NewMatch(f, ms[i]))
  }

  function NewPair(f: Names, p: Pair): Pair {
    Pair(p.score, NewClaim(f, p.previous), NewClaim(f, p.current))
  }

  function NewPairs(f: Names, ps: seq<Pair>): (r: seq<Pair>)
    ensures |r| == |ps| && forall i :: 0 <= i < |ps| ==> r[i] == NewPair(f, ps[i])
  {
    seq(|ps|, i requires 0 <= i < |ps| => NewPair(f, ps[i]))
  }

  function NewIds(f: Names, ids: set<nat>): set<nat> {
    set x | x in ids :: f(x)
  }

  lemma IdIsRenamed(f: Names, ids: set<nat>, x: nat)
    requires Injective(f)
    ensures f(x) in NewIds(f, ids) <==> x in ids
  {
  }

  // ----- the matching -------------------------------------------------------------------------

  lemma SameMeasures(f: Names, j: Judge, p: Claim, c: Claim)
    requires IgnoresIds(j)
    ensures j.score(NewClaim(f, p), NewClaim(f, c)) == j.score(p, c)
    ensures PairOutcome(j, NewClaim(f, p), NewClaim(f, c)) == PairOutcome(j, p, c)
    ensures SameText(j, NewClaim(f, p), NewClaim(f, c)) == SameText(j, p, c)
  {
    assert j.conflict(Claim(f(p.id), p.statement, p.assertedAt), Claim(f(c.id), c.statement, c.assertedAt)) ==
      j.conflict(p, c);
  }

  lemma {:induction false} FirstFreeRenamed(f: Names, j: Judge, p: Claim, curr: seq<Claim>, used: set<nat>)
    requires Injective(f) && IgnoresIds(j)
    ensures FirstFree(j, NewClaim(f, p), NewClaims(f, curr), NewIds(f, used)) ==
            match FirstFree(j, p, curr, used) case None => None case Some(c) => Some(NewClaim(f, c))
  {
    hide IgnoresIds, NewIds;
    if curr != [] {
      SameMeasures(f, j, p, curr[0]);
      IdIsRenamed(f, used, curr[0].id);
      assert NewClaims(f, curr)[1..] == NewClaims(f, curr[1..]);
      FirstFreeRenamed(f, j, p, curr[1..], used);
    }
  }

  lemma MoreIds(f: Names, ids: set<nat>, x: nat)
    ensures NewIds(f, ids + {x}) == NewIds(f, ids) + {f(x)}
  {
  }

  lemma {:induction false} ExactRenamed(f: Names, j: Judge, prev: seq<Claim>, curr: seq<Claim>, used: set<nat>)
    requires Injective(f) && IgnoresIds(j)
    ensures Exact(j, NewClaims(f, prev), NewClaims(f, curr), NewIds(f, used)) ==
      NewMatches(f, Exact(j, prev, curr, used))
  {
    hide IgnoresIds, NewIds, FirstFree;
    if prev != [] {
      FirstFreeRenamed(f, j, prev[0], curr, used);
      assert NewClaims(f, prev)[1..] == NewClaims(f, prev[1..]);
      match FirstFree(j, prev[0], curr, used) {
        case None => ExactRenamed(f, j, prev[1..], curr, used);
        case Some(c) =>
          MoreIds(f, used, c.id);
          ExactRenamed(f, j, prev[1..], curr, used + {c.id});
      }
    }
  }

  lemma {:induction false} PairsOfRenamed(f: Names, j: Judge, p: Claim, curr: seq<Claim>)
    requires IgnoresIds(j)
    ensures PairsOf(j, NewClaim(f, p), NewClaims(f, curr)) == NewPairs(f, PairsOf(j, p, curr))
  {
    hide IgnoresIds;
    if curr != [] {
      var n := |curr| - 1;
      assert NewClaims(f, curr)[..n] == NewClaims(f, curr[..n]);
      PairsOfRenamed(f, j, p, curr[..n]);
      SameMeasures(f, j, p, curr[n]);
    }
  }

  lemma FirstClaims(f: Names, claims: seq<Claim>, n: nat)
    requires n < |claims|
    ensures |NewClaims(f, claims)| == |claims| && NewClaims(f, claims)[..n] == NewClaims(f, claims[..n])
      && NewClaims(f, claims)[n] == NewClaim(f, claims[n])
  {
  }

  lemma NoPairs(f: Names)
    ensures NewPairs(f, []) == []
  {
  }

  lemma NewPairsJoin(f: Names, a: seq<Pair>, b: seq<Pair>)
    ensures NewPairs(f, a + b) == NewPairs(f, a) + NewPairs(f, b)
  {
  }

  lemma {:induction false} CandidatesRenamed(f: Names, j: Judge, prev: seq<Claim>, curr: seq<Claim>)
    requires IgnoresIds(j)
    ensures Candidates(j, NewClaims(f, prev), NewClaims(f, curr)) == NewPairs(f, Candidates(j, prev, curr))
  {
    hide IgnoresIds, PairsOf, NewPairs, NewClaims;
    if prev != [] {
      var n := |prev| - 1;
      FirstClaims(f, prev, n);
      CandidatesRenamed(f, j, prev[..n], curr);
      PairsOfRenamed(f, j, prev[n], curr);
      NewPairsJoin(f, Candidates(j, prev[..n], curr), PairsOf(j, prev[n], curr));
    } else {
      NoPairs(f);
    }
  }

  lemma {:induction false} InsertRenamed(f: Names, x: Pair, sorted: seq<Pair>)
    ensures Insert(NewPair(f, x), NewPairs(f, sorted)) == NewPairs(f, Insert(x, sorted))
  {
    if sorted != [] && sorted[0].score > x.score {
      assert NewPairs(f, sorted)[1..] == NewPairs(f, sorted[1..]);
      InsertRenamed(f, x, sorted[1..]);
    }
  }

  lemma {:induction false} ByScoreRenamed(f: Names, pairs: seq<Pair>)
    ensures ByScore(NewPairs(f, pairs)) == NewPairs(f, ByScore(pairs))
  {
    if pairs != [] {
      assert NewPairs(f, pairs)[1..] == NewPairs(f, pairs[1..]);
      ByScoreRenamed(f, pairs[1..]);
      InsertRenamed(f, pairs[0], ByScore(pairs[1..]));
    }
  }

  lemma NoMatches(f: Names)
    ensures NewMatches(f, []) == []
  {
  }

  lemma ConsRenamed(f: Names, m: Match, rest: seq<Match>)
    ensures NewMatches(f, [m] + rest) == [NewMatch(f, m)] + NewMatches(f, rest)
  {
  }

  lemma {:induction false} GreedyRenamed(f: Names, j: Judge, pairs: seq<Pair>, usedPrev: set<nat>, usedCurr: set<nat>)
    requires Injective(f) && IgnoresIds(j)
    ensures Greedy(j, NewPairs(f, pairs), NewIds(f, usedPrev), NewIds(f, usedCurr)) ==
      NewMatches(f, Greedy(j, pairs, usedPrev, usedCurr))
  {
    hide IgnoresIds, NewIds, PairOutcome, NewMatches;
    if pairs == [] {
      NoMatches(f);
    } else {
      var p, c := pairs[0].previous, pairs[0].current;
      assert NewPairs(f, pairs)[1..] == NewPairs(f, pairs[1..]);
      IdIsRenamed(f, usedPrev, p.id);
      IdIsRenamed(f, usedCurr, c.id);
      SameMeasures(f, j, p, c);
      if p.id in usedPrev || c.id in usedCurr || PairOutcome(j, p, c).None? {
        GreedyRenamed(f, j, pairs[1..], usedPrev, usedCurr);
      } else {
        MoreIds(f, usedPrev, p.id);
        MoreIds(f, usedCurr, c.id);
        ConsRenamed(f, Match(p, Some(c), PairOutcome(j, p, c).value),
          Greedy(j, pairs[1..], usedPrev + {p.id}, usedCurr + {c.id}));
        GreedyRenamed(f, j, pairs[1..], usedPrev + {p.id}, usedCurr + {c.id});
      }
    }
  }

  lemma {:induction false} WithoutRenamed(f: Names, claims: seq<Claim>, used: set<nat>)
    requires Injective(f)
    ensures Without(NewClaims(f, claims), NewIds(f, used)) == NewClaims(f, Without(claims, used))
  {
    hide NewIds;
    if claims != [] {
      var n := |claims| - 1;
      assert NewClaims(f, claims)[..n] == NewClaims(f, claims[..n]);
      WithoutRenamed(f, claims[..n], used);
      IdIsRenamed(f, used, claims[n].id);
    }
  }

  lemma {:induction false} LeftoverRenamed(f: Names, prev: seq<Claim>, used: set<nat>, suspect: bool)
    requires Injective(f)
    ensures Leftover(NewClaims(f, prev), NewIds(f, used), suspect) == NewMatches(f, Leftover(prev, used, suspect))
  {
    hide NewIds;
    if prev != [] {
      var n := |prev| - 1;
      assert NewClaims(f, prev)[..n] == NewClaims(f, prev[..n]);
      LeftoverRenamed(f, prev[..n], used, suspect);
      IdIsRenamed(f, used, prev[n].id);
    }
  }

  lemma IdsRenamed(f: Names, ms: seq<Match>)
    ensures PreviousIds(NewMatches(f, ms)) == NewIds(f, PreviousIds(ms))
    ensures SuccessorIds(NewMatches(f, ms)) == NewIds(f, SuccessorIds(ms))
  {
    var renamed := NewMatches(f, ms);
    forall m | m in ms ensures NewMatch(f, m) in renamed {
      var i :| 0 <= i < |ms| && ms[i] == m;
      assert renamed[i] in renamed;
    }
    forall m | m in renamed ensures exists o :: o in ms && m == NewMatch(f, o) {
      var i :| 0 <= i < |renamed| && renamed[i] == m;
      assert ms[i] in ms;
    }
  }

  lemma NewMatchesJoin(f: Names, a: seq<Match>, b: seq<Match>)
    ensures NewMatches(f, a + b) == NewMatches(f, a) + NewMatches(f, b)
  {
  }

  /** The matching of renamed claims is the renamed matching. */
  lemma MatchedRenamed(f: Names, j: Judge, prev: seq<Claim>, curr: seq<Claim>, suspect: bool)
    requires Injective(f) && IgnoresIds(j)
    ensures Matched(j, NewClaims(f, prev), NewClaims(f, curr), suspect) ==
      NewMatches(f, Matched(j, prev, curr, suspect))
  {
    hide IgnoresIds, NewIds, Injective, Greedy, ByScore, Candidates, Without, Leftover, PreviousIds, SuccessorIds,
      Exact;
    var exact := ExactPass(j, prev, curr);
    ExactRenamed(f, j, prev, curr, {});
    assert NewIds(f, {}) == {} by { NoIds(f); }
    var p, c := PreviousIds(exact), SuccessorIds(exact);
    IdsRenamed(f, exact);
    WithoutRenamed(f, prev, p);
    WithoutRenamed(f, curr, c);
    var candidates := Candidates(j, Without(prev, p), Without(curr, c));
    CandidatesRenamed(f, j, Without(prev, p), Without(curr, c));
    ByScoreRenamed(f, candidates);
    GreedyRenamed(f, j, ByScore(candidates), p, c);
    var scored := ScoredPass(j, prev, curr);
    NewMatchesJoin(f, exact, scored);
    IdsRenamed(f, exact + scored);
    LeftoverRenamed(f, prev, PreviousIds(exact + scored), suspect);
    NewMatchesJoin(f, exact + scored, Leftover(prev, PreviousIds(exact + scored), suspect));
  }

  lemma NoIds(f: Names)
    ensures NewIds(f, {}) == {}
  {
  }

  // ----- the recomputation --------------------------------------------------------------------

  function NewVersion(f: Names, g: Names, v: Version): Version {
    Version(g(v.id), v.effectiveAt, v.textLength, NewClaims(f, v.claims))
  }

  function NewVersions(f: Names, g: Names, vs: seq<Version>): (r: seq<Version>)
    ensures |r| == |vs| && forall i :: 0 <= i < |vs| ==> r[i] == NewVersion(f, g, vs[i])
  {
    seq(|vs|, i requires 0 <= i < |vs| => NewVersion(f, g, vs[i]))
  }

  function RenamedLife(f: Names, l: Life): Life {
    Life(l.status, l.validTo, if l.supersededBy.Some? then Some(f(l.supersededBy.value)) else None)
  }

  function NewFact(f: Names, g: Names, x: Fact): Fact {
    Fact(x.kind, f(x.claim), if x.successor.Some? then Some(f(x.successor.value)) else None, g(x.version), x.at)
  }

  function NewFacts(f: Names, g: Names, xs: set<Fact>): set<Fact> {
    set x | x in xs :: NewFact(f, g, x)
  }

  lemma MatchesAtRenamed(f: Names, g: Names, j: Judge, vs: seq<Version>, external: set<nat>, i: nat)
    requires Injective(f) && IgnoresIds(j) && i + 1 < |vs|
    ensures MatchesAt(j, NewVersions(f, g, vs), NewIds(f, external), i) == NewMatches(f, MatchesAt(j, vs, external, i))
    ensures SuspectAt(NewVersions(f, g, vs), NewIds(f, external), i) == SuspectAt(vs, external, i)
  {
    hide IgnoresIds, NewIds, Injective, Matched, Without;
    var prevClaims := Without(vs[i].claims, external);
    WithoutRenamed(f, vs[i].claims, external);
    MatchedRenamed(f, j, prevClaims, vs[i + 1].claims, Suspect(vs[i], vs[i + 1], prevClaims));
  }

  lemma FactOfRenamed(f: Names, g: Names, m: Match, version: nat, at: int)
    ensures FactOf(NewMatch(f, m), g(version), at) == NewFacts(f, g, FactOf(m, version, at))
  {
  }

  lemma NewFactsJoin(f: Names, g: Names, a: set<Fact>, b: set<Fact>)
    ensures NewFacts(f, g, a + b) == NewFacts(f, g, a) + NewFacts(f, g, b)
  {
  }

  lemma {:induction false} FactsOfRenamed(f: Names, g: Names, ms: seq<Match>, version: nat, at: int)
    ensures FactsOf(NewMatches(f, ms), g(version), at) == NewFacts(f, g, FactsOf(ms, version, at))
  {
    hide NewFacts, FactOf;
    if ms != [] {
      var n := |ms| - 1;
      assert NewMatches(f, ms)[..n] == NewMatches(f, ms[..n]);
      FactsOfRenamed(f, g, ms[..n], version, at);
      FactOfRenamed(f, g, ms[n], version, at);
      NewFactsJoin(f, g, FactsOf(ms[..n], version, at), FactOf(ms[n], version, at));
    } else {
      NoFacts(f, g);
    }
  }

  lemma NoFacts(f: Names, g: Names)
    ensures NewFacts(f, g, {}) == {}
  {
  }

  /** The events of renamed versions are the renamed events. */
  lemma {:induction false} FactsUpToRenamed(f: Names, g: Names, j: Judge, vs: seq<Version>, external: set<nat>, n: nat)
    requires Injective(f) && IgnoresIds(j) && (n == 0 || n < |vs|)
    ensures FactsUpTo(j, NewVersions(f, g, vs), NewIds(f, external), n) == NewFacts(f, g, FactsUpTo(j, vs, external, n))
  {
    hide IgnoresIds, NewIds, Injective, MatchesAt, FactsOf, NewFacts;
    if n > 0 {
      FactsUpToRenamed(f, g, j, vs, external, n - 1);
      MatchesAtRenamed(f, g, j, vs, external, n - 1);
      var ms := MatchesAt(j, vs, external, n - 1);
      FactsOfRenamed(f, g, ms, vs[n].id, vs[n].effectiveAt);
      NewFactsJoin(f, g, FactsUpTo(j, vs, external, n - 1), FactsOf(ms, vs[n].id, vs[n].effectiveAt));
    } else {
      NoFacts(f, g);
    }
  }

  /** So are the marks on suspect versions. */
  lemma {:induction false} SuspectIdsRenamed(f: Names, g: Names, j: Judge, vs: seq<Version>, external: set<nat>, n: nat)
    requires Injective(f) && IgnoresIds(j) && (n == 0 || n < |vs|)
    ensures SuspectIds(NewVersions(f, g, vs), NewIds(f, external), n) == NewIds(g, SuspectIds(vs, external, n))
  {
    hide IgnoresIds, Injective, SuspectAt, NewIds, MatchesAt, NewClaims, NewMatches;
    if n > 0 {
      SuspectIdsRenamed(f, g, j, vs, external, n - 1);
      MatchesAtRenamed(f, g, j, vs, external, n - 1);
      var before := SuspectIds(vs, external, n - 1);
      if SuspectAt(vs, external, n - 1) {
        MoreIds(g, before, vs[n].id);
      } else {
        assert before + {} == before && NewIds(g, before) + {} == NewIds(g, before);
      }
    } else {
      NoIds(g);
    }
  }

  /** A claim's fate is renamed with it. */
  lemma FateRenamed(f: Names, g: Names, j: Judge, vs: seq<Version>, external: set<nat>, i: nat, c: Claim, life: Life)
    requires Injective(f) && IgnoresIds(j) && i < |vs| && Fate(j, vs, external, i, c, life)
    ensures Fate(j, NewVersions(f, g, vs), NewIds(f, external), i, NewClaim(f, c), RenamedLife(f, life))
  {
    hide IgnoresIds, Injective, NewIds, MatchesAt;
    if i + 1 < |vs| {
      MatchesAtRenamed(f, g, j, vs, external, i);
      var ms := MatchesAt(j, vs, external, i);
      var m :| m in ms && m.previous == c && life == NewLife(m, vs[i + 1].effectiveAt, FRESH);
      var k :| 0 <= k < |ms| && ms[k] == m;
      assert NewMatches(f, ms)[k] == NewMatch(f, m);
      assert NewMatches(f, ms)[k] in NewMatches(f, ms);
    }
  }

  /** A claim has one fate. */
  lemma FateIsUnique(j: Judge, vs: seq<Version>, external: set<nat>, i: nat, c: Claim, l: Life, r: Life)
    requires Keyed(vs) && i < |vs| && Fate(j, vs, external, i, c, l) && Fate(j, vs, external, i, c, r)
    ensures l == r
  {
    hide Keyed, MatchesAt;
    if i + 1 < |vs| {
      MatchesAreOfPrevious(j, vs, external, i);
      var ms := MatchesAt(j, vs, external, i);
      var m :| m in ms && m.previous == c && l == NewLife(m, vs[i + 1].effectiveAt, FRESH);
      var w :| w in ms && w.previous == c && r == NewLife(w, vs[i + 1].effectiveAt, FRESH);
      var x :| 0 <= x < |ms| && ms[x] == m;
      var y :| 0 <= y < |ms| && ms[y] == w;
      SamePlace(ms, x, y);
    }
  }

  lemma SamePlace(ms: seq<Match>, x: nat, y: nat)
    requires OneToOne(ms) && x < |ms| && y < |ms| && ms[x].previous.id == ms[y].previous.id
    ensures x == y
  {
  }
}
