/** The matcher is one-to-one, carries as many identical texts as possible, and leaves no blocking pair. */
module MatchingTheorems {
  import opened Common
  import opened Matching

  ghost predicate SameSuccessor(a: Match, b: Match) {
    a.successor.Some? && b.successor.Some? && a.successor.value.id == b.successor.value.id
  }

  ghost predicate OneToOne(ms: seq<Match>) {
    forall i, k :: 0 <= i < k < |ms| ==> ms[i].previous.id != ms[k].previous.id && !SameSuccessor(ms[i], ms[k])
  }

  lemma OneToOneJoin(a: seq<Match>, b: seq<Match>)
    requires OneToOne(a) && OneToOne(b)
    requires forall m :: m in b ==>
      m.previous.id !in PreviousIds(a) && (m.successor.Some? ==> m.successor.value.id !in SuccessorIds(a))
    ensures OneToOne(a + b)
  {
    var ms := a + b;
    forall i, k | 0 <= i < k < |ms| ensures ms[i].previous.id != ms[k].previous.id && !SameSuccessor(ms[i], ms[k]) {
      if i < |a| <= k {
        assert ms[i] in a && ms[k] in b;
        assert ms[i].previous.id in PreviousIds(a);
        assert ms[i].successor.Some? ==> ms[i].successor.value.id in SuccessorIds(a);
      }
    }
  }

  // ----- the exact pass -----------------------------------------------------------------------

  lemma {:induction false} ExactFacts(j: Judge, prev: seq<Claim>, curr: seq<Claim>, used: set<nat>)
    requires DistinctIds(prev)
    ensures OneToOne(Exact(j, prev, curr, used))
    ensures forall m :: m in Exact(j, prev, curr, used) ==>
              && m.previous in prev && m.outcome == Carried && m.successor.Some? && m.successor.value in curr
              && m.successor.value.id !in used && SameText(j, m.previous, m.successor.value)
  {
    if prev != [] {
      var rest := prev[1..];
      assert forall p :: p in rest ==> p in prev && p.id != prev[0].id;
      match FirstFree(j, prev[0], curr, used)
      case None => ExactFacts(j, rest, curr, used);
      case Some(c) =>
        ExactFacts(j, rest, curr, used + {c.id});
        OneToOneJoin([Match(prev[0], Some(c), Carried)], Exact(j, rest, curr, used + {c.id}));
    }
  }

  /** How many claims say `text`, not counting those whose ids are used. */
  ghost function TextCount(j: Judge, claims: seq<Claim>, used: set<nat>, text: string): nat {
    if claims == [] then 0
    else
      var here := if j.norm(claims[0].statement) == text && claims[0].id !in used then 1 else 0;
      here + TextCount(j, claims[1..], used, text)
  }

  ghost function MatchCount(j: Judge, ms: seq<Match>, text: string): nat {
    if ms == [] then 0
    else (if j.norm(ms[0].previous.statement) == text then 1 else 0) + MatchCount(j, ms[1..], text)
  }

  lemma {:induction false} NoneFreeCountsZero(j: Judge, curr: seq<Claim>, used: set<nat>, text: string)
    requires forall c :: c in curr && c.id !in used ==> j.norm(c.statement) != text
    ensures TextCount(j, curr, used, text) == 0
  {
    if curr != [] {
      assert curr[0] in curr && forall c :: c in curr[1..] ==> c in curr;
      NoneFreeCountsZero(j, curr[1..], used, text);
    }
  }

  lemma {:induction false} UsingAbsentChangesNothing(j: Judge, curr: seq<Claim>, used: set<nat>, id: nat, text: string)
    requires forall c :: c in curr ==> c.id != id
    ensures TextCount(j, curr, used + {id}, text) == TextCount(j, curr, used, text)
  {
    if curr != [] {
      assert curr[0] in curr && forall c :: c in curr[1..] ==> c in curr;
      UsingAbsentChangesNothing(j, curr[1..], used, id, text);
    }
  }

  lemma {:induction false} UsingOneCountsOneLess(j: Judge, curr: seq<Claim>, used: set<nat>, c: Claim, text: string)
    requires DistinctIds(curr) && c in curr && c.id !in used
    ensures TextCount(j, curr, used, text) ==
      TextCount(j, curr, used + {c.id}, text) + (if j.norm(c.statement) == text then 1 else 0)
  {
    var rest := curr[1..];
    if curr[0] == c {
      assert forall d :: d in rest ==> d.id != c.id;
      UsingAbsentChangesNothing(j, rest, used, c.id, text);
    } else {
      assert c in rest && curr[0].id != c.id;
      UsingOneCountsOneLess(j, rest, used, c, text);
    }
  }

  /** Of every text, the exact pass carries as many claims as both versions have. */
  lemma {:induction false} ExactCount(j: Judge, prev: seq<Claim>, curr: seq<Claim>, used: set<nat>, text: string)
    requires DistinctIds(curr)
    ensures var p, c := TextCount(j, prev, {}, text), TextCount(j, curr, used, text);
            MatchCount(j, Exact(j, prev, curr, used), text) == if p < c then p else c
  {
    if prev != [] {
      match FirstFree(j, prev[0], curr, used)
      case None =>
        ExactCount(j, prev[1..], curr, used, text);
        if j.norm(prev[0].statement) == text {
          NoneFreeCountsZero(j, curr, used, text);
        }
      case Some(c) =>
        var rest := Exact(j, prev[1..], curr, used + {c.id});
        ExactCount(j, prev[1..], curr, used + {c.id}, text);
        UsingOneCountsOneLess(j, curr, used, c, text);
        var ms := [Match(prev[0], Some(c), Carried)] + rest;
        assert ms[1..] == rest;
    } else {
      assert MatchCount(j, Exact(j, prev, curr, used), text) == 0;
    }
  }

  // ----- the scored pass ----------------------------------------------------------------------

  ghost predicate Descending(pairs: seq<Pair>) {
    forall i, k :: 0 <= i < k < |pairs| ==> pairs[i].score >= pairs[k].score
  }

  lemma {:induction false} InsertKeeps(x: Pair, sorted: seq<Pair>)
    ensures multiset(Insert(x, sorted)) == multiset(sorted) + multiset{x}
  {
    if sorted != [] && sorted[0].score > x.score {
      InsertKeeps(x, sorted[1..]);
      assert sorted == [sorted[0]] + sorted[1..];
    }
  }

  lemma {:induction false} InsertDescends(x: Pair, sorted: seq<Pair>)
    requires Descending(sorted)
    ensures Descending(Insert(x, sorted))
    ensures Insert(x, sorted) != []
      && (Insert(x, sorted)[0] == x || (sorted != [] && Insert(x, sorted)[0] == sorted[0]))
  {
    if sorted != [] && sorted[0].score > x.score {
      var rest := Insert(x, sorted[1..]);
      InsertDescends(x, sorted[1..]);
      assert sorted[0].score >= rest[0].score;
    }
  }

  lemma {:induction false} SortFacts(pairs: seq<Pair>)
    ensures Descending(ByScore(pairs)) && multiset(ByScore(pairs)) == multiset(pairs)
  {
    if pairs != [] {
      SortFacts(pairs[1..]);
      InsertKeeps(pairs[0], ByScore(pairs[1..]));
      InsertDescends(pairs[0], ByScore(pairs[1..]));
      assert pairs == [pairs[0]] + pairs[1..];
    }
  }

  lemma SortKeepsMembers(pairs: seq<Pair>, q: Pair)
    ensures q in ByScore(pairs) <==> q in pairs
  {
    SortFacts(pairs);
    assert q in ByScore(pairs) <==> q in multiset(ByScore(pairs));
  }

  lemma {:induction false} WithoutFacts(claims: seq<Claim>, used: set<nat>, c: Claim)
    ensures c in Without(claims, used) <==> c in claims && c.id !in used
  {
    if claims != [] {
      var n := |claims| - 1;
      WithoutFacts(claims[..n], used, c);
      assert claims == claims[..n] + [claims[n]];
    }
  }

  lemma {:induction false} PairsFacts(j: Judge, p: Claim, curr: seq<Claim>, q: Pair)
    ensures q in PairsOf(j, p, curr) <==> q.previous == p && q.current in curr && q.score == j.score(p, q.current)
  {
    if curr != [] {
      var n := |curr| - 1;
      PairsFacts(j, p, curr[..n], q);
      assert curr == curr[..n] + [curr[n]];
    }
  }

  lemma {:induction false} CandidateFacts(j: Judge, prev: seq<Claim>, curr: seq<Claim>, q: Pair)
    ensures q in Candidates(j, prev, curr) <==>
      q.previous in prev && q.current in curr && q.score == j.score(q.previous, q.current)
  {
    if prev != [] {
      var n := |prev| - 1;
      CandidateFacts(j, prev[..n], curr, q);
      PairsFacts(j, prev[n], curr, q);
      assert prev == prev[..n] + [prev[n]];
    }
  }

  ghost predicate FromPair(j: Judge, pairs: seq<Pair>, m: Match) {
    exists q :: q in pairs && m == Match(q.previous, Some(q.current), m.outcome)
      && PairOutcome(j, q.previous, q.current) == Some(m.outcome)
  }

  lemma {:induction false} GreedyFacts(j: Judge, pairs: seq<Pair>, usedPrev: set<nat>, usedCurr: set<nat>)
    ensures OneToOne(Greedy(j, pairs, usedPrev, usedCurr))
    ensures forall m :: m in Greedy(j, pairs, usedPrev, usedCurr) ==>
              FromPair(j, pairs, m) && m.previous.id !in usedPrev && m.successor.value.id !in usedCurr
  {
    if pairs != [] {
      var p, c := pairs[0].previous, pairs[0].current;
      var skip := p.id in usedPrev || c.id in usedCurr || PairOutcome(j, p, c).None?;
      var up, uc := if skip then usedPrev else usedPrev + {p.id}, if skip then usedCurr else usedCurr + {c.id};
      var rest := Greedy(j, pairs[1..], up, uc);
      GreedyFacts(j, pairs[1..], up, uc);
      forall m | m in rest ensures FromPair(j, pairs, m) {
        var q :| q in pairs[1..] && m == Match(q.previous, Some(q.current), m.outcome)
          && PairOutcome(j, q.previous, q.current) == Some(m.outcome);
        assert q in pairs;
      }
      if !skip {
        var m := Match(p, Some(c), PairOutcome(j, p, c).value);
        assert pairs[0] in pairs && FromPair(j, pairs, m);
        OneToOneJoin([m], rest);
      }
    }
  }

  /** `m` matched one side of `q`, at a score no lower. */
  ghost predicate Beats(j: Judge, m: Match, q: Pair) {
    && m.successor.Some?
    && (m.previous.id == q.previous.id || m.successor.value.id == q.current.id)
    && j.score(m.previous, m.successor.value) >= q.score
  }

  lemma {:induction false} GreedyLeavesNoBlockingPair(
      j: Judge, pairs: seq<Pair>, usedPrev: set<nat>, usedCurr: set<nat>, q: Pair)
    requires Descending(pairs) && forall x :: x in pairs ==> x.score == j.score(x.previous, x.current)
    requires q in pairs && PairOutcome(j, q.previous, q.current).Some? && q.previous.id !in usedPrev
      && q.current.id !in usedCurr
    ensures exists m :: m in Greedy(j, pairs, usedPrev, usedCurr) && Beats(j, m, q)
  {
    var p, c := pairs[0].previous, pairs[0].current;
    var all := Greedy(j, pairs, usedPrev, usedCurr);
    assert pairs[0] in pairs && forall x :: x in pairs[1..] ==> x in pairs;
    if p.id in usedPrev || c.id in usedCurr || PairOutcome(j, p, c).None? {
      assert q in pairs[1..];
      GreedyLeavesNoBlockingPair(j, pairs[1..], usedPrev, usedCurr, q);
    } else {
      var m := Match(p, Some(c), PairOutcome(j, p, c).value);
      var k :| 0 <= k < |pairs| && pairs[k] == q;
      if p.id == q.previous.id || c.id == q.current.id {
        assert m in all && Beats(j, m, q);
      } else {
        assert q in pairs[1..];
        GreedyLeavesNoBlockingPair(j, pairs[1..], usedPrev + {p.id}, usedCurr + {c.id}, q);
        var w :| w in Greedy(j, pairs[1..], usedPrev + {p.id}, usedCurr + {c.id}) && Beats(j, w, q);
        assert w in all;
      }
    }
  }

  /** The two say the same: similar enough to be carried, and nothing conflicts. */
  predicate MayCarry(j: Judge, p: Claim, c: Claim) {
    !j.conflict(p, c) && j.score(p, c) >= j.carrySim
  }

  /** The later replaces the earlier: they conflict and are similar enough to be about one thing; or they are at
      least as similar as 0.70 and the threshold, share enough words, and do not say the same. */
  predicate MayReplace(j: Judge, p: Claim, c: Claim) {
    || (j.conflict(p, c) && j.score(p, c) >= j.pairSim)
    || (j.score(p, c) >= 0.70 && j.score(p, c) >= j.pairSim && j.f1(p, c) >= 0.3 && !MayCarry(j, p, c))
  }

  lemma OutcomeMeans(j: Judge, p: Claim, c: Claim)
    ensures PairOutcome(j, p, c) == Some(Carried) <==> MayCarry(j, p, c)
    ensures PairOutcome(j, p, c) == Some(Superseded) <==> MayReplace(j, p, c)
    ensures PairOutcome(j, p, c).None? <==> !MayCarry(j, p, c) && !MayReplace(j, p, c)
  {
  }

  /** Stability: a pair that may be carried or replaced and that the exact pass left alone has a side matched at
      an equal or higher score. */
  lemma NoBlockingPair(j: Judge, prev: seq<Claim>, curr: seq<Claim>, p: Claim, c: Claim)
    requires p in prev && c in curr && (MayCarry(j, p, c) || MayReplace(j, p, c))
    requires p.id !in PreviousIds(ExactPass(j, prev, curr)) && c.id !in SuccessorIds(ExactPass(j, prev, curr))
    ensures exists m :: m in ScoredPass(j, prev, curr) && Beats(j, m, Pair(j.score(p, c), p, c))
  {
    hide PairOutcome;
    OutcomeMeans(j, p, c);
    var exact := ExactPass(j, prev, curr);
    var up, uc := PreviousIds(exact), SuccessorIds(exact);
    var candidates := Candidates(j, Without(prev, up), Without(curr, uc));
    var q := Pair(j.score(p, c), p, c);
    WithoutFacts(prev, up, p);
    WithoutFacts(curr, uc, c);
    CandidateFacts(j, Without(prev, up), Without(curr, uc), q);
    SortKeepsMembers(candidates, q);
    SortFacts(candidates);
    forall x | x in ByScore(candidates) ensures x.score == j.score(x.previous, x.current) {
      SortKeepsMembers(candidates, x);
      CandidateFacts(j, Without(prev, up), Without(curr, uc), x);
    }
    GreedyLeavesNoBlockingPair(j, ByScore(candidates), up, uc, q);
  }

  // ----- the whole matching -------------------------------------------------------------------

  lemma ScoredFacts(j: Judge, prev: seq<Claim>, curr: seq<Claim>)
    ensures OneToOne(ScoredPass(j, prev, curr))
    ensures forall m :: m in ScoredPass(j, prev, curr) ==>
              && m.previous in prev && m.successor.Some? && m.successor.value in curr
              && m.previous.id !in PreviousIds(ExactPass(j, prev, curr))
                && m.successor.value.id !in SuccessorIds(ExactPass(j, prev, curr))
              && PairOutcome(j, m.previous, m.successor.value) == Some(m.outcome)
  {
    var exact := ExactPass(j, prev, curr);
    var up, uc := PreviousIds(exact), SuccessorIds(exact);
    var candidates := Candidates(j, Without(prev, up), Without(curr, uc));
    GreedyFacts(j, ByScore(candidates), up, uc);
    forall m | m in ScoredPass(j, prev, curr)
      ensures m.previous in prev && m.successor.Some? && m.successor.value in curr
      ensures PairOutcome(j, m.previous, m.successor.value) == Some(m.outcome)
    {
      var q :| q in ByScore(candidates) && m == Match(q.previous, Some(q.current), m.outcome)
        && PairOutcome(j, q.previous, q.current) == Some(m.outcome);
      SortKeepsMembers(candidates, q);
      CandidateFacts(j, Without(prev, up), Without(curr, uc), q);
      WithoutFacts(prev, up, q.previous);
      WithoutFacts(curr, uc, q.current);
    }
  }

  lemma {:induction false} LeftoverFacts(prev: seq<Claim>, used: set<nat>, suspect: bool)
    requires DistinctIds(prev)
    ensures OneToOne(Leftover(prev, used, suspect))
    ensures forall m :: m in Leftover(prev, used, suspect) ==>
              && m.previous in prev && m.previous.id !in used && m.successor == None
              && m.outcome == if suspect then SuspectRetained else Retracted
    ensures forall p :: p in prev && p.id !in used ==>
      exists m: Match :: m in Leftover(prev, used, suspect) && m.previous == p
  {
    if prev != [] {
      var n := |prev| - 1;
      var front := Leftover(prev[..n], used, suspect);
      LeftoverFacts(prev[..n], used, suspect);
      assert prev == prev[..n] + [prev[n]];
      var last := Gone(prev[n], used, suspect);
      assert forall p :: p in prev[..n] ==> p.id != prev[n].id;
      OneToOneJoin(front, last);
      forall p | p in prev && p.id !in used ensures exists m: Match :: m in front + last && m.previous == p {
        if p in prev[..n] {
          var m: Match :| m in front && m.previous == p;
          assert m in front + last;
        } else {
          assert last[0] in front + last;
        }
      }
    }
  }

  /** One entry per previous claim, each successor used at most once, everything drawn from the two versions. */
  lemma MatchingIsOneToOne(j: Judge, prev: seq<Claim>, curr: seq<Claim>, suspect: bool)
    requires DistinctIds(prev) && DistinctIds(curr)
    ensures var ms := Matched(j, prev, curr, suspect);
      && OneToOne(ms)
      && (forall m :: m in ms ==> m.previous in prev && (m.successor.Some? ==> m.successor.value in curr))
      && (forall m :: m in ms ==> (m.successor.Some? <==> m.outcome == Carried || m.outcome == Superseded))
      && (forall p :: p in prev ==> exists m: Match :: m in ms && m.previous == p)
  {
    hide OneToOne, DistinctIds, ScoredPass, Leftover;
    var exact, scored := ExactPass(j, prev, curr), ScoredPass(j, prev, curr);
    ExactFacts(j, prev, curr, {});
    ScoredFacts(j, prev, curr);
    OneToOneJoin(exact, scored);
    var both := exact + scored;
    var left := Leftover(prev, PreviousIds(both), suspect);
    LeftoverFacts(prev, PreviousIds(both), suspect);
    OneToOneJoin(both, left);
    forall p | p in prev ensures exists m: Match :: m in both + left && m.previous == p {
      if p.id in PreviousIds(both) {
        var m: Match :| m in both && m.previous.id == p.id;
        SameIdSameClaim(prev, m.previous, p);
        assert m in both + left;
      } else {
        var m: Match :| m in left && m.previous == p;
        assert m in both + left;
      }
    }
  }

  /** The exact pass leaves no two claims of one text unmatched. */
  lemma {:induction false} ExactLeavesNoText(
      j: Judge, prev: seq<Claim>, curr: seq<Claim>, used: set<nat>, p: Claim, c: Claim)
    requires p in prev && c in curr && j.norm(p.statement) == j.norm(c.statement) && c.id !in used
    ensures p.id in PreviousIds(Exact(j, prev, curr, used)) || c.id in SuccessorIds(Exact(j, prev, curr, used))
  {
    var first := FirstFree(j, prev[0], curr, used);
    var all := Exact(j, prev, curr, used);
    if first.Some? {
      assert all[0] in all && all[0].previous.id in PreviousIds(all) && first.value.id in SuccessorIds(all);
    }
    if p == prev[0] {
      assert first.Some? by { assert SameText(j, p, c); }
    } else if first.None? || first.value.id != c.id {
      var rest := Exact(j, prev[1..], curr, if first.None? then used else used + {first.value.id});
      assert forall m :: m in rest ==> m in all;
      ExactLeavesNoText(j, prev[1..], curr, if first.None? then used else used + {first.value.id}, p, c);
    }
  }

  /** What each outcome of the whole matching means, in the judge's own terms: a claim is carried to one with the
      same text or to one that conflicts with nothing it says and is similar enough; it is superseded by one of
      another text that may replace it; and what has no successor is retracted, or kept where the later version
      is not trusted. */
  lemma MatchedMeans(j: Judge, prev: seq<Claim>, curr: seq<Claim>, suspect: bool, m: Match)
    requires DistinctIds(prev) && DistinctIds(curr) && m in Matched(j, prev, curr, suspect)
    ensures m.successor.Some? ==>
      var p, c := m.previous, m.successor.value;
      && (m.outcome == Carried <==> j.norm(p.statement) == j.norm(c.statement) || MayCarry(j, p, c))
      && (m.outcome == Superseded <==> j.norm(p.statement) != j.norm(c.statement) && MayReplace(j, p, c))
    ensures m.successor.None? ==> m.outcome == if suspect then SuspectRetained else Retracted
  {
    hide PairOutcome, DistinctIds, OneToOne, ScoredPass, Leftover, Exact;
    var exact, scored := ExactPass(j, prev, curr), ScoredPass(j, prev, curr);
    ExactFacts(j, prev, curr, {});
    ScoredFacts(j, prev, curr);
    LeftoverFacts(prev, PreviousIds(exact + scored), suspect);
    if m in scored {
      var p, c := m.previous, m.successor.value;
      OutcomeMeans(j, p, c);
      if j.norm(p.statement) == j.norm(c.statement) {
        ExactLeavesNoText(j, prev, curr, {}, p, c);
      }
    }
  }

  lemma SameIdSameClaim(claims: seq<Claim>, a: Claim, b: Claim)
    requires DistinctIds(claims) && a in claims && b in claims && a.id == b.id
    ensures a == b
  {
  }

  // ----- ties ---------------------------------------------------------------------------------

  /** The pairs of one score, in their order. */
  function OfScore(pairs: seq<Pair>, score: real): seq<Pair> {
    if pairs == [] then []
    else if pairs[0].score == score then [pairs[0]] + OfScore(pairs[1..], score)
    else OfScore(pairs[1..], score)
  }

  lemma {:induction false} InsertIsStable(x: Pair, sorted: seq<Pair>, score: real)
    requires Descending(sorted)
    ensures OfScore(Insert(x, sorted), score) == OfScore([x] + sorted, score)
  {
    assert ([x] + sorted)[1..] == sorted;
    if sorted != [] && sorted[0].score > x.score {
      var rest := sorted[1..];
      InsertIsStable(x, rest, score);
      assert ([sorted[0]] + Insert(x, rest))[1..] == Insert(x, rest);
      assert ([x] + rest)[1..] == rest;
    }
  }

  /** Pairs of equal score are tried in the order in which they were formed. */
  lemma {:induction false} SortIsStable(pairs: seq<Pair>, score: real)
    ensures OfScore(ByScore(pairs), score) == OfScore(pairs, score)
  {
    if pairs != [] {
      SortFacts(pairs[1..]);
      InsertIsStable(pairs[0], ByScore(pairs[1..]), score);
      SortIsStable(pairs[1..], score);
      assert ([pairs[0]] + ByScore(pairs[1..]))[1..] == ByScore(pairs[1..]);
    }
  }

  /** Pairs are formed previous claim by previous claim, and for each in the order of the current ones. */
  lemma {:induction false} CandidateAt(j: Judge, prev: seq<Claim>, curr: seq<Claim>, i: nat, k: nat)
    requires i < |prev| && k < |curr|
    ensures |Candidates(j, prev, curr)| == |prev| * |curr| && i * |curr| + k < |prev| * |curr|
    ensures Candidates(j, prev, curr)[i * |curr| + k] == Pair(j.score(prev[i], curr[k]), prev[i], curr[k])
  {
    var n := |prev| - 1;
    RowOf(j, prev[n], curr);
    assert |prev| * |curr| == n * |curr| + |curr|;
    if n > 0 {
      CandidateAt(j, prev[..n], curr, if i < n then i else 0, k);
    } else {
      assert Candidates(j, prev[..n], curr) == [];
    }
  }

  lemma {:induction false} RowOf(j: Judge, p: Claim, curr: seq<Claim>)
    ensures |PairsOf(j, p, curr)| == |curr|
    ensures forall k :: 0 <= k < |curr| ==> PairsOf(j, p, curr)[k] == Pair(j.score(p, curr[k]), p, curr[k])
  {
    if curr != [] {
      RowOf(j, p, curr[..|curr| - 1]);
    }
  }

  /** In the exact pass a claim goes to the first of the current ones that is free and has its text. */
  lemma {:induction false} FirstFreeIsFirst(j: Judge, p: Claim, curr: seq<Claim>, used: set<nat>) returns (k: nat)
    ensures FirstFree(j, p, curr, used).None? <==> k == |curr|
    ensures k < |curr| ==>
      FirstFree(j, p, curr, used) == Some(curr[k]) && curr[k].id !in used
      && j.norm(curr[k].statement) == j.norm(p.statement)
    ensures forall i :: 0 <= i < k && i < |curr| ==>
      curr[i].id in used || j.norm(curr[i].statement) != j.norm(p.statement)
  {
    if curr == [] {
      k := 0;
    } else if curr[0].id !in used && SameText(j, p, curr[0]) {
      k := 0;
    } else {
      var n := FirstFreeIsFirst(j, p, curr[1..], used);
      k := n + 1;
    }
  }
}
