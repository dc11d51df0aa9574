/** One-to-one matching between the claims of consecutive versions (app/temporal/reconcile.py:82-154).
    Text normal forms, cosine scores, the conflict signals and token F1 are parameters. */
module Matching {
  import opened Common

  datatype Claim = Claim(id: nat, statement: string, assertedAt: int)

  datatype Outcome = Carried | Superseded | Retracted | SuspectRetained

  datatype Match = Match(previous: Claim, successor: Option<Claim>, outcome: Outcome)

  datatype Pair = Pair(score: real, previous: Claim, current: Claim)

  /** The measurements the matcher takes, and the two thresholds of the active embedder. */
  datatype Judge = Judge(norm: string -> string, score: (Claim, Claim) -> real, conflict: (Claim, Claim) -> bool,
                         f1: (Claim, Claim) -> real, carrySim: real, pairSim: real)

  ghost predicate DistinctIds(claims: seq<Claim>) {
    forall i, j :: 0 <= i < j < |claims| ==> claims[i].id != claims[j].id
  }

  predicate SameText(j: Judge, a: Claim, b: Claim) {
    j.norm(a.statement) == j.norm(b.statement)
  }

  /** What a scored candidate pair may become; None when it is not similar enough for anything. */
  function PairOutcome(j: Judge, p: Claim, c: Claim): Option<Outcome> {
    var score, conflict := j.score(p, c), j.conflict(p, c);
    if conflict && score >= j.pairSim then Some(Superseded)
    else if score >= j.carrySim && !conflict then Some(Carried)
    else if score >= (if j.pairSim > 0.70 then j.pairSim else 0.70) && j.f1(p, c) >= 0.3 then Some(Superseded)
    else None
  }

  // ----- the passes as functions --------------------------------------------------------------

  /** The first claim of `curr` that is free and says the same as `p`. */
  function FirstFree(j: Judge, p: Claim, curr: seq<Claim>, used: set<nat>): (r: Option<Claim>)
    ensures r.Some? ==> r.value in curr && r.value.id !in used && SameText(j, p, r.value)
    ensures r.None? ==> forall c :: c in curr && c.id !in used ==> !SameText(j, p, c)
  {
    if curr == [] then None
    else if curr[0].id !in used && SameText(j, p, curr[0]) then Some(curr[0])
    else FirstFree(j, p, curr[1..], used)
  }

  function Exact(j: Judge, prev: seq<Claim>, curr: seq<Claim>, used: set<nat>): seq<Match> {
    if prev == [] then []
    else
      match FirstFree(j, prev[0], curr, used)
      case None => Exact(j, prev[1..], curr, used)
      case Some(c) => [Match(prev[0], Some(c), Carried)] + Exact(j, prev[1..], curr, used + {c.id})
  }

  function PairsOf(j: Judge, p: Claim, curr: seq<Claim>): seq<Pair> {
    if curr == [] then []
    else
      PairsOf(j, p, curr[..|curr| - 1]) + [Pair(j.score(p, curr[|curr| - 1]), p, curr[|curr| - 1])]
  }

  function Candidates(j: Judge, prev: seq<Claim>, curr: seq<Claim>): seq<Pair> {
    if prev == [] then [] else Candidates(j, prev[..|prev| - 1], curr) + PairsOf(j, prev[|prev| - 1], curr)
  }

  /** Python's stable `sort(key=score, reverse=True)`. */
  function Insert(x: Pair, sorted: seq<Pair>): seq<Pair> {
    if sorted == [] || sorted[0].score <= x.score then [x] + sorted
    else [sorted[0]] + Insert(x, sorted[1..])
  }

  function ByScore(pairs: seq<Pair>): seq<Pair> {
    if pairs == [] then [] else Insert(pairs[0], ByScore(pairs[1..]))
  }

  function Greedy(j: Judge, pairs: seq<Pair>, usedPrev: set<nat>, usedCurr: set<nat>): seq<Match> {
    if pairs == [] then []
    else
      var p, c := pairs[0].previous, pairs[0].current;
      if p.id in usedPrev || c.id in usedCurr || PairOutcome(j, p, c).None?
        then Greedy(j, pairs[1..], usedPrev, usedCurr)
      else [Match(p, Some(c), PairOutcome(j, p, c).value)] + Greedy(j, pairs[1..], usedPrev + {p.id}, usedCurr + {c.id})
  }

  function PreviousIds(ms: seq<Match>): set<nat> {
    set m | m in ms :: m.previous.id
  }

  function SuccessorIds(ms: seq<Match>): set<nat> {
    set m | m in ms && m.successor.Some? :: m.successor.value.id
  }

  function Without(claims: seq<Claim>, used: set<nat>): seq<Claim> {
    if claims == [] then []
    else
      Without(claims[..|claims| - 1], used) + (if claims[|claims| - 1].id in used then [] else [claims[|claims| - 1]])
  }

  function Gone(p: Claim, used: set<nat>, suspect: bool): seq<Match> {
    if p.id in used then [] else [Match(p, None, if suspect then SuspectRetained else Retracted)]
  }

  function Leftover(prev: seq<Claim>, used: set<nat>, suspect: bool): seq<Match> {
    if prev == [] then []
    else Leftover(prev[..|prev| - 1], used, suspect) + Gone(prev[|prev| - 1], used, suspect)
  }

  function ExactPass(j: Judge, prev: seq<Claim>, curr: seq<Claim>): seq<Match> {
    Exact(j, prev, curr, {})
  }

  function ScoredPass(j: Judge, prev: seq<Claim>, curr: seq<Claim>): seq<Match> {
    var exact := ExactPass(j, prev, curr);
    var p, c := PreviousIds(exact), SuccessorIds(exact);
    Greedy(j, ByScore(Candidates(j, Without(prev, p), Without(curr, c))), p, c)
  }

  function Matched(j: Judge, prev: seq<Claim>, curr: seq<Claim>, suspect: bool): seq<Match> {
    var both := ExactPass(j, prev, curr) + ScoredPass(j, prev, curr);
    both + Leftover(prev, PreviousIds(both), suspect)
  }

  // ----- the matcher --------------------------------------------------------------------------

  method MatchClaims(j: Judge, prev: seq<Claim>, curr: seq<Claim>, suspect: bool) returns (matches: seq<Match>)
    ensures matches == Matched(j, prev, curr, suspect)
  {
    hide ByScore, Candidates, Greedy, Exact, Without, PreviousIds, SuccessorIds;
    // 1. Exact identical text first.
    var exact, matchedPrevious, matchedCurrent := MatchExact(j, prev, curr);
    // 2. Score the remaining pairs and take them greedily, best first.
    var unmatchedPrev := Remaining(prev, matchedPrevious);
    var unmatchedCurr := Remaining(curr, matchedCurrent);
    var candidates := ScorePairs(j, unmatchedPrev, unmatchedCurr);
    candidates := ByScore(candidates);
    var scored := MatchScored(j, candidates, matchedPrevious, matchedCurrent);
    matches := exact + scored;
    matchedPrevious := PreviousIds(matches);
    // 3. Whatever is left of the previous version.
    for i := 0 to |prev|
      invariant matches == exact + scored + Leftover(prev[..i], matchedPrevious, suspect)
    {
      assert prev[..i + 1][..i] == prev[..i];
      if prev[i].id !in matchedPrevious {
        matches := matches + [Match(prev[i], None, if suspect then SuspectRetained else Retracted)];
      }
    }
    assert prev[..|prev|] == prev;
  }

  method MatchExact(j: Judge, prev: seq<Claim>, curr: seq<Claim>)
    returns (matches: seq<Match>, matchedPrevious: set<nat>, matchedCurrent: set<nat>)
    ensures matches == ExactPass(j, prev, curr)
    ensures matchedPrevious == PreviousIds(matches) && matchedCurrent == SuccessorIds(matches)
  {
    matchedPrevious, matchedCurrent, matches := {}, {}, [];
    for i := 0 to |prev|
      invariant matches + Exact(j, prev[i..], curr, matchedCurrent) == ExactPass(j, prev, curr)
      invariant matchedPrevious == PreviousIds(matches) && matchedCurrent == SuccessorIds(matches)
    {
      assert prev[i..][1..] == prev[i + 1..];
      var k := FindFree(j, prev[i], curr, matchedCurrent);
      if k < |curr| {
        var m := Match(prev[i], Some(curr[k]), Carried);
        Shift(matches, m, Exact(j, prev[i + 1..], curr, matchedCurrent + {curr[k].id}));
        matchedPrevious := matchedPrevious + {prev[i].id};
        matchedCurrent := matchedCurrent + {curr[k].id};
        matches := matches + [m];
      }
    }
    assert prev[|prev|..] == [];
  }

  lemma Shift(a: seq<Match>, m: Match, rest: seq<Match>)
    ensures a + ([m] + rest) == (a + [m]) + rest
  {
  }

  /** The inner loop of the exact pass; `|curr|` when nothing free says the same. */
  method FindFree(j: Judge, p: Claim, curr: seq<Claim>, used: set<nat>) returns (k: nat)
    ensures k <= |curr|
    ensures FirstFree(j, p, curr, used) == if k < |curr| then Some(curr[k]) else None
  {
    k := 0;
    while k < |curr| && !(curr[k].id !in used && SameText(j, p, curr[k]))
      invariant k <= |curr|
      invariant FirstFree(j, p, curr, used) == FirstFree(j, p, curr[k..], used)
    {
      assert curr[k..][1..] == curr[k + 1..];
      k := k + 1;
    }
  }

  method MatchScored(j: Judge, candidates: seq<Pair>, usedPrev: set<nat>, usedCurr: set<nat>)
      returns (scored: seq<Match>)
    ensures scored == Greedy(j, candidates, usedPrev, usedCurr)
  {
    var matchedPrevious, matchedCurrent := usedPrev, usedCurr;
    scored := [];
    for i := 0 to |candidates|
      invariant scored + Greedy(j, candidates[i..], matchedPrevious, matchedCurrent) ==
        Greedy(j, candidates, usedPrev, usedCurr)
    {
      var prev, curr := candidates[i].previous, candidates[i].current;
      assert candidates[i..][1..] == candidates[i + 1..];
      if prev.id in matchedPrevious || curr.id in matchedCurrent {
        continue;
      }
      var outcome := PairOutcome(j, prev, curr);
      if outcome.Some? {
        matchedPrevious := matchedPrevious + {prev.id};
        matchedCurrent := matchedCurrent + {curr.id};
        var m := Match(prev, Some(curr), outcome.value);
        Shift(scored, m, Greedy(j, candidates[i + 1..], matchedPrevious, matchedCurrent));
        scored := scored + [m];
      }
    }
    assert candidates[|candidates|..] == [];
  }

  method Remaining(claims: seq<Claim>, used: set<nat>) returns (rest: seq<Claim>)
    ensures rest == Without(claims, used)
  {
    rest := [];
    for i := 0 to |claims|
      invariant rest == Without(claims[..i], used)
    {
      assert claims[..i + 1][..i] == claims[..i];
      if claims[i].id !in used {
        rest := rest + [claims[i]];
      }
    }
    assert claims[..|claims|] == claims;
  }

  method ScorePairs(j: Judge, prev: seq<Claim>, curr: seq<Claim>) returns (pairs: seq<Pair>)
    ensures pairs == Candidates(j, prev, curr)
  {
    pairs := [];
    for i := 0 to |prev|
      invariant pairs == Candidates(j, prev[..i], curr)
    {
      assert prev[..i + 1][..i] == prev[..i];
      ghost var before := pairs;
      for k := 0 to |curr|
        invariant pairs == before + PairsOf(j, prev[i], curr[..k])
      {
        assert curr[..k + 1][..k] == curr[..k];
        pairs := pairs + [Pair(j.score(prev[i], curr[k]), prev[i], curr[k])];
      }
      assert curr[..|curr|] == curr;
    }
    assert prev[..|prev|] == prev;
  }
}
