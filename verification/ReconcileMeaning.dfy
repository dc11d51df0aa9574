/** What a reconcile leaves on a claim, which versions it distrusts and which events it writes, told by the
    versions, the judge's measurements and the claims themselves (app/temporal/reconcile.py:180-312). */
module ReconcileMeaning {
  import opened Common
  import opened Matching
  import opened MatchingTheorems
  import opened Reconcile
  import opened ReconcileTheorems

  /** The claims of a version that no other document's claim has superseded. */
  function StandingIds(claims: seq<Claim>, external: set<nat>): set<nat> {
    set c | c in claims && c.id !in external :: c.id
  }

  /** The later version has lost most of its text, or every one of five or more claims. */
  ghost predicate Distrusted(prev: Version, curr: Version, external: set<nat>) {
    || (prev.textLength > 0 && curr.textLength as real < 0.3 * prev.textLength as real)
    || (|StandingIds(prev.claims, external)| >= 5 && forall c :: c !in curr.claims)
  }

  lemma {:induction false} StandingCount(claims: seq<Claim>, external: set<nat>)
    requires DistinctIds(claims)
    ensures |Without(claims, external)| == |StandingIds(claims, external)|
  {
    if claims != [] {
      var n := |claims| - 1;
      var init, c := claims[..n], claims[n];
      StandingCount(init, external);
      assert claims == init + [c];
      assert forall d :: d in init ==> d.id != c.id;
      assert StandingIds(claims, external) == StandingIds(init, external) + (if c.id in external then {} else {c.id});
    }
  }

  lemma SuspectMeans(vs: seq<Version>, external: set<nat>, i: nat)
    requires Keyed(vs) && i + 1 < |vs|
    ensures SuspectAt(vs, external, i) <==> Distrusted(vs[i], vs[i + 1], external)
  {
    assert vs[i] in vs;
    StandingCount(vs[i].claims, external);
    var curr := vs[i + 1].claims;
    assert curr == [] <==> forall c :: c !in curr by {
      assert curr != [] ==> curr[0] in curr;
    }
  }

  /** The versions marked as suspect are exactly those distrusted after the one before them. */
  lemma MarksMean(versions: seq<Version>, lives: Lives, id: nat)
    requires Keyed(versions)
    ensures var vs := InOrder(versions);
      id in SuspectsOf(versions, lives) <==>
        exists i, k :: 0 <= i && k == i + 1 < |vs| && vs[k].id == id
          && Distrusted(vs[i], vs[k], External(OwnIds(versions), lives))
  {
    hide Keyed, InOrder, SuspectIds, Distrusted, External;
    OrderKeepsKeyed(versions);
    OrderKeepsMembers(versions);
    var vs := InOrder(versions);
    if vs != [] {
      MarksUpTo(vs, External(OwnIds(versions), lives), |vs| - 1, id);
    }
  }

  lemma {:induction false} MarksUpTo(vs: seq<Version>, external: set<nat>, n: nat, id: nat)
    requires Keyed(vs) && n < |vs|
    ensures id in SuspectIds(vs, external, n) <==>
      exists i, k :: 0 <= i && k == i + 1 <= n && vs[k].id == id && Distrusted(vs[i], vs[k], external)
  {
    hide Keyed, SuspectAt, Distrusted;
    if n > 0 {
      MarksUpTo(vs, external, n - 1, id);
      SuspectMeans(vs, external, n - 1);
    }
  }

  /** The claim goes on as `d` of the next version. */
  ghost predicate GoesOnAs(j: Judge, c: Claim, d: Claim, l: Life, at: int) {
    || ((j.norm(c.statement) == j.norm(d.statement) || MayCarry(j, c, d))
      && l == Life(Status.Carried, None, Some(d.id)))
    || (j.norm(c.statement) != j.norm(d.statement) && MayReplace(j, c, d)
      && l == Life(Status.Superseded, Some(at), Some(d.id)))
  }

  ghost predicate GoesOnIn(j: Judge, c: Claim, next: Version, l: Life) {
    exists d :: d in next.claims && GoesOnAs(j, c, d, l, next.effectiveAt)
  }

  /** What a reconcile leaves on a claim that no other document has superseded: in the last version it is active;
      before, it was carried to a claim that says the same, or superseded by one that replaces it, or neither;
      and then it ended at the next version's instant, unless that version is distrusted. */
  lemma LifeMeans(j: Judge, versions: seq<Version>, lives: Lives, i: nat, c: Claim)
    requires Keyed(versions) && i < |InOrder(versions)| && c in InOrder(versions)[i].claims && c.id in lives
    requires c.id !in External(OwnIds(versions), lives)
    ensures c.id in Settled(j, versions, lives)
    ensures var vs, l := InOrder(versions), Settled(j, versions, lives)[c.id];
      if i + 1 == |vs| then l == Life(Active, None, None)
      else if l.supersededBy.Some? then GoesOnIn(j, c, vs[i + 1], l)
      else if Distrusted(vs[i], vs[i + 1], External(OwnIds(versions), lives)) then l == Life(Active, None, None)
      else l == Life(Status.Retracted, Some(vs[i + 1].effectiveAt), None)
  {
    hide Keyed, InOrder, OwnIds, External, Settled, Matched, SuspectAt, Distrusted, MayCarry, MayReplace, OneToOne;
    SettledFate(j, versions, lives, i, c);
    OrderKeepsMembers(versions);
    OrderKeepsKeyed(versions);
    var vs, external := InOrder(versions), External(OwnIds(versions), lives);
    if i + 1 < |vs| {
      var l, at := Settled(j, versions, lives)[c.id], vs[i + 1].effectiveAt;
      var m :| m in MatchesAt(j, vs, external, i) && m.previous == c && l == NewLife(m, at, FRESH);
      MatchMeans(j, vs, external, i, m);
      SuspectMeans(vs, external, i);
      if m.successor.Some? {
        assert GoesOnAs(j, c, m.successor.value, l, at);
      }
    }
  }

  lemma MatchMeans(j: Judge, vs: seq<Version>, external: set<nat>, i: nat, m: Match)
    requires Keyed(vs) && i + 1 < |vs| && m in MatchesAt(j, vs, external, i)
    ensures m.successor.Some? ==>
      var p, c := m.previous, m.successor.value;
      && c in vs[i + 1].claims && (m.outcome == Outcome.Carried || m.outcome == Outcome.Superseded)
      && (m.outcome == Outcome.Carried <==> j.norm(p.statement) == j.norm(c.statement) || MayCarry(j, p, c))
      && (m.outcome == Outcome.Superseded <==> j.norm(p.statement) != j.norm(c.statement) && MayReplace(j, p, c))
    ensures m.successor.None? ==> m.outcome == if SuspectAt(vs, external, i) then SuspectRetained else Outcome.Retracted
  {
    hide Matched, Suspect, MayCarry, MayReplace, OneToOne;
    var prevClaims := Without(vs[i].claims, external);
    assert vs[i] in vs && vs[i + 1] in vs;
    WithoutKeepsDistinct(vs[i].claims, external);
    MatchesAreOfPrevious(j, vs, external, i);
    MatchedMeans(j, prevClaims, vs[i + 1].claims, SuspectAt(vs, external, i), m);
  }

  /** A version emptied of its claims retracts none of five or more. */
  lemma EmptiedVersionRetractsNothing(j: Judge, versions: seq<Version>, lives: Lives, i: nat, c: Claim)
    requires Keyed(versions) && i + 1 < |InOrder(versions)| && c in InOrder(versions)[i].claims && c.id in lives
    requires c.id !in External(OwnIds(versions), lives) && InOrder(versions)[i + 1].claims == []
    requires |StandingIds(InOrder(versions)[i].claims, External(OwnIds(versions), lives))| >= 5
    ensures c.id in Settled(j, versions, lives) && Settled(j, versions, lives)[c.id] == Life(Active, None, None)
    ensures InOrder(versions)[i + 1].id in SuspectsOf(versions, lives)
  {
    hide Keyed, InOrder, OwnIds, External, Settled, SuspectsOf, StandingIds;
    LifeMeans(j, versions, lives, i, c);
    MarksMean(versions, lives, InOrder(versions)[i + 1].id);
    var k := i + 1;
    assert Distrusted(InOrder(versions)[i], InOrder(versions)[k], External(OwnIds(versions), lives));
  }

  // ----- events and lives tell the same --------------------------------------------------------

  /** The event that says what has become of a claim. */
  ghost predicate Tells(f: Fact, c: nat, l: Life, next: Version) {
    && f.claim == c && f.version == next.id && f.at == next.effectiveAt
    && ((l.status == Status.Superseded && f.kind == WasSuperseded && f.successor == l.supersededBy)
        || (l.status == Status.Retracted && f.kind == WasRetracted && f.successor == None))
  }

  lemma {:induction false} FactsAreOfMatches(ms: seq<Match>, version: nat, at: int, f: Fact)
    ensures f in FactsOf(ms, version, at) <==> exists m :: m in ms && f in FactOf(m, version, at)
  {
    hide FactOf;
    if ms != [] {
      var n := |ms| - 1;
      FactsAreOfMatches(ms[..n], version, at, f);
      assert ms == ms[..n] + [ms[n]];
    }
  }

  lemma {:induction false} FactsAreOfSteps(j: Judge, vs: seq<Version>, external: set<nat>, n: nat, f: Fact)
    requires n < |vs|
    ensures f in FactsUpTo(j, vs, external, n) <==>
      exists i, k, m :: 0 <= i && k == i + 1 <= n && m in MatchesAt(j, vs, external, i)
        && f in FactOf(m, vs[k].id, vs[k].effectiveAt)
  {
    hide MatchesAt, FactOf, FactsOf;
    if n > 0 {
      FactsAreOfSteps(j, vs, external, n - 1, f);
      FactsAreOfMatches(MatchesAt(j, vs, external, n - 1), vs[n].id, vs[n].effectiveAt, f);
    }
  }

  lemma FactTells(m: Match, next: Version, f: Fact)
    requires m.successor.Some? <==> m.outcome == Outcome.Carried || m.outcome == Outcome.Superseded
    ensures f in FactOf(m, next.id, next.effectiveAt) <==>
      Tells(f, m.previous.id, NewLife(m, next.effectiveAt, FRESH), next)
  {
  }

  /** The superseded and retracted events a reconcile writes are exactly those that its claims' bookkeeping tells:
      one for each claim it leaves superseded or retracted, about the version that did it. */
  lemma EventsTellLives(j: Judge, versions: seq<Version>, lives: Lives, f: Fact)
    requires Keyed(versions) && OwnIds(versions) <= lives.Keys
    ensures var vs, settled := InOrder(versions), Settled(j, versions, lives);
      f in NeededFacts(j, versions, lives) <==>
        exists i, k, c ::
          0 <= i && k == i + 1 < |vs| && c in vs[i].claims && c.id !in External(OwnIds(versions), lives)
          && c.id in settled && Tells(f, c.id, settled[c.id], vs[k])
  {
    hide Keyed, InOrder, External, Settled, MatchesAt, Tells, FactOf, OneToOne, FactsUpTo;
    OrderKeepsMembers(versions);
    OrderKeepsKeyed(versions);
    var vs, external, settled := InOrder(versions), External(OwnIds(versions), lives), Settled(j, versions, lives);
    if vs != [] {
      FactsAreOfSteps(j, vs, external, |vs| - 1, f);
    }
    if f in NeededFacts(j, versions, lives) {
      var i, k, m :| 0 <= i && k == i + 1 < |vs| && m in MatchesAt(j, vs, external, i)
        && f in FactOf(m, vs[k].id, vs[k].effectiveAt);
      MatchesAreOfPrevious(j, vs, external, i);
      IsOwnClaim(versions, i, m.previous);
      MatchIsLife(j, versions, lives, i, m);
      FactTells(m, vs[k], f);
    }
    if i, k, c :|
      0 <= i && k == i + 1 < |vs| && c in vs[i].claims && c.id !in external && c.id in settled
      && Tells(f, c.id, settled[c.id], vs[k])
    {
      var m := MatchOf(j, vs, external, i, c);
      MatchesAreOfPrevious(j, vs, external, i);
      IsOwnClaim(versions, i, c);
      MatchIsLife(j, versions, lives, i, m);
      FactTells(m, vs[k], f);
    }
  }

  lemma IsOwnClaim(versions: seq<Version>, i: nat, c: Claim)
    requires i < |InOrder(versions)| && c in InOrder(versions)[i].claims
    ensures c.id in OwnIds(versions)
  {
    hide InOrder;
    OrderKeepsMembers(versions);
    assert InOrder(versions)[i] in InOrder(versions);
  }

  /** A match is the life it leaves: no other match is about the same claim. */
  lemma MatchIsLife(j: Judge, versions: seq<Version>, lives: Lives, i: nat, m: Match)
    requires Keyed(versions) && OwnIds(versions) <= lives.Keys && i + 1 < |InOrder(versions)|
    requires m in MatchesAt(j, InOrder(versions), External(OwnIds(versions), lives), i)
    ensures m.previous.id in Settled(j, versions, lives)
    ensures Settled(j, versions, lives)[m.previous.id] == NewLife(m, InOrder(versions)[i + 1].effectiveAt, FRESH)
  {
    hide Keyed, InOrder, External, Settled, MatchesAt, NewLife;
    OrderKeepsMembers(versions);
    OrderKeepsKeyed(versions);
    var vs, external := InOrder(versions), External(OwnIds(versions), lives);
    MatchesAreOfPrevious(j, vs, external, i);
    IsOwnClaim(versions, i, m.previous);
    SettledFate(j, versions, lives, i, m.previous);
    var ms := MatchesAt(j, vs, external, i);
    var w :| w in ms && w.previous == m.previous
      && Settled(j, versions, lives)[m.previous.id] == NewLife(w, vs[i + 1].effectiveAt, FRESH);
    var x :| 0 <= x < |ms| && ms[x] == m;
    var y :| 0 <= y < |ms| && ms[y] == w;
    assert x == y;
  }

  // ----- contradictions ------------------------------------------------------------------------

  /** The claim is no longer current. */
  predicate Gone(lives: Lives, c: nat)
    requires c in lives
  {
    lives[c].status == Status.Superseded || lives[c].status == Status.Retracted
  }

  /** A contradiction that is the document's concern and not rejected is open after the review exactly while both its
      sides are current; what the review closes it closes now, and what was closed before keeps its time. Any other
      is left alone. */
  lemma ReviewMeans(own: set<nat>, lives: Lives, now: int, r: Contradiction)
    ensures var after := Reviewed(own, lives, now, r);
      if !r.rejected && (r.a in own || r.b in own) && r.a in lives && r.b in lives then
        after == r.(resolvedAt :=
          if !Gone(lives, r.a) && !Gone(lives, r.b) then None
          else if r.resolvedAt == None then Some(now)
          else r.resolvedAt)
      else after == r
    ensures ClosesNow(own, lives, r) <==>
      !r.rejected && (r.a in own || r.b in own) && r.a in lives && r.b in lives
        && (Gone(lives, r.a) || Gone(lives, r.b))
  {
  }

  /** What is recorded when a contradiction closes: its first side if that is gone, else its second; as of the instant
      of that side's successor, or else of its end, or else of its beginning. */
  lemma ClosingMeans(lives: Lives, assertedAt: map<nat, int>, r: Contradiction, now: int)
    requires r.a in lives && r.b in lives && (Gone(lives, r.a) || Gone(lives, r.b)) && r.a != r.b
    ensures var c := ClosingOf(lives, assertedAt, r, now);
      && (if Gone(lives, r.a) then c.inactive == r.a && c.other == r.b else c.inactive == r.b && c.other == r.a)
      && var l := lives[c.inactive];
         && (forall next :: l.supersededBy == Some(next) && next in assertedAt ==> c.at == assertedAt[next])
         && (l.supersededBy == None || l.supersededBy.value !in assertedAt ==>
              && (l.validTo.Some? ==> c.at == l.validTo.value)
              && (l.validTo.None? && c.inactive in assertedAt ==> c.at == assertedAt[c.inactive])
              && (l.validTo.None? && c.inactive !in assertedAt ==> c.at == now))
  {
  }

  function Word(s: Status): string {
    if s == Active then "active"
    else if s == Status.Carried then "carried"
    else if s == Status.Superseded then "superseded"
    else "retracted"
  }

  /** And why: the states of the two sides, in the order of the relation. */
  lemma CauseMeans(lives: Lives, assertedAt: map<nat, int>, r: Contradiction, now: int)
    requires r.a in lives && r.b in lives
    ensures ClosingOf(lives, assertedAt, r, now).cause
      == "claim " + Word(lives[r.a].status) + "/" + Word(lives[r.b].status)
  {
    WordIsName(lives[r.a].status);
    WordIsName(lives[r.b].status);
    hide Word, NameOf, WorldTime, InactiveSide;
  }

  lemma WordIsName(s: Status)
    ensures NameOf(s) == Word(s)
  {
  }

  // ----- the order of versions -----------------------------------------------------------------

  /** By instant, and by row number where two have the same. */
  ghost predicate Before(v: Version, w: Version) {
    if v.effectiveAt != w.effectiveAt then v.effectiveAt < w.effectiveAt else v.id < w.id
  }

  ghost predicate Listed(vs: seq<Version>) {
    forall i, k :: 0 <= i < k < |vs| ==> Before(vs[i], vs[k])
  }

  /** A document's versions are walked in the order of their instants. */
  lemma {:induction false} VersionsAreListed(vs: seq<Version>)
    requires DistinctVersions(vs)
    ensures multiset(InOrder(vs)) == multiset(vs) && Listed(InOrder(vs))
  {
    OrderKeeps(vs);
    if vs != [] {
      VersionsAreListed(vs[1..]);
      PlaceKeepsListed(vs[0], InOrder(vs[1..]));
    }
  }

  lemma {:induction false} PlaceKeepsListed(v: Version, vs: seq<Version>)
    requires Listed(vs) && forall w :: w in multiset(vs) ==> w.id != v.id
    ensures Listed(Place(v, vs))
  {
    if vs != [] && !Earlier(v, vs[0]) {
      PlaceKeepsListed(v, vs[1..]);
      PlaceKeeps(v, vs[1..]);
      var placed := Place(v, vs[1..]);
      forall k | 0 <= k < |placed| ensures Before(vs[0], placed[k]) {
        assert placed[k] in multiset(placed);
        assert placed[k] == v || placed[k] in vs[1..];
        assert vs[0] in multiset(vs);
      }
    } else if vs != [] {
      assert vs[0] in multiset(vs);
      assert Before(v, vs[0]);
    }
  }
}
