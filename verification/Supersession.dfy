/** Supersession across documents: whatever versions arrive, whatever is extracted, reconciled and
    judged, in any order, every successor link leads to a claim asserted strictly later. */
module Supersession {
  import opened Common
  import opened Matching
  import opened Reconcile
  import opened ReconcileTheorems
  import opened History
  import Relate

  /** Every document's versions in order of insertion, the bookkeeping of every claim, and when each
      claim was asserted. */
  datatype System = System(docs: map<nat, seq<Version>>, lives: Lives, at: map<nat, int>)

  const EMPTY_SYSTEM := System(map[], map[], map[])

  function VersionsOf(s: System, d: nat): seq<Version> {
    if d in s.docs then s.docs[d] else []
  }

  // ---------------------------------------------------------------- the steps

  /** A version is stored, at an instant no other version of the document has; claims come later. */
  ghost predicate Uploaded(s: System, s': System, d: nat, v: Version) {
    && v.claims == []
    && (forall w :: w in VersionsOf(s, d) ==> w.id != v.id && w.effectiveAt != v.effectiveAt)
    && s' == s.(docs := s.docs[d := VersionsOf(s, d) + [v]])
  }

  /** A claim is extracted from version `k`, at its place in the text: it starts active, asserted when the
      version took effect. */
  ghost predicate ClaimExtracted(s: System, s': System, d: nat, k: nat, place: nat, c: Claim) {
    && d in s.docs && k < |s.docs[d]| && place <= |s.docs[d][k].claims| && c.id !in s.lives
    && c.assertedAt == s.docs[d][k].effectiveAt
    && s' == System(s.docs[d := WithClaim(s.docs[d], k, place, c)], s.lives[c.id := FRESH], s.at[c.id := c.assertedAt])
  }

  /** What `Ledger.Reconcile` makes of one document. */
  ghost predicate DocReconciled(s: System, s': System, d: nat, j: Judge) {
    d in s.docs && s' == s.(lives := Settled(j, s.docs[d], s.lives))
  }

  /** What `Book.Judge` makes of a pair nobody has labelled, whatever relations are stored. */
  ghost predicate PairJudged(
      s: System, s': System, st: Relate.State, a: Relate.Claim, b: Relate.Claim, similarity: real, dupSim: real,
      now: int) {
    && Relate.Known(st, a, b) && st.lives == s.lives
    && a.id in s.at && b.id in s.at && a.assertedAt == Some(s.at[a.id]) && b.assertedAt == Some(s.at[b.id])
    && !Relate.Labelled(st.rows, Relate.PairOf(a.id, b.id))
    && s' == s.(lives := Relate.Judged(st, a, b, similarity, dupSim, now).lives)
  }

  ghost predicate Step(s: System, s': System) {
    || (exists d, v :: Uploaded(s, s', d, v))
    || (exists d, k, place, c :: ClaimExtracted(s, s', d, k, place, c))
    || (exists d, j :: DocReconciled(s, s', d, j))
    || (exists st, a, b, similarity, dupSim, now :: PairJudged(s, s', st, a, b, similarity, dupSim, now))
  }

  ghost predicate Run(ss: seq<System>) {
    ss != [] && ss[0] == EMPTY_SYSTEM && forall i :: 0 < i < |ss| ==> Step(ss[i - 1], ss[i])
  }

  // ---------------------------------------------------------------- the invariant

  /** A claim's bookkeeping is coherent: a link leads strictly later in time, and what was superseded
      ended when its successor was asserted. */
  ghost predicate Coherent(life: Life, own: int, at: map<nat, int>) {
    && (life.supersededBy.Some? ==> life.supersededBy.value in at && at[life.supersededBy.value] > own)
    && (life.supersededBy.Some? <==> life.status == Status.Carried || life.status == Status.Superseded)
    && (life.validTo.Some? <==> life.status == Status.Superseded || life.status == Status.Retracted)
    && (life.status == Status.Superseded ==> life.validTo.value == at[life.supersededBy.value])
    && (life.validTo.Some? ==> life.validTo.value > own)
  }

  ghost predicate DocOk(vs: seq<Version>, at: map<nat, int>) {
    && Keyed(vs) && DistinctTimes(vs)
    && forall v, c :: v in vs && c in v.claims ==> c.id in at && at[c.id] == v.effectiveAt
  }

  ghost predicate Inv(s: System) {
    && s.at.Keys == s.lives.Keys
    && (forall d :: d in s.docs ==> DocOk(s.docs[d], s.at))
    && (forall id :: id in s.lives ==> Coherent(s.lives[id], s.at[id], s.at))
  }

  lemma CoherentStays(life: Life, own: int, at: map<nat, int>, id: nat, t: int)
    requires Coherent(life, own, at) && id !in at
    ensures Coherent(life, own, at[id := t])
  {
  }

  lemma UploadKeepsInv(s: System, s': System, d: nat, v: Version)
    requires Inv(s) && Uploaded(s, s', d, v)
    ensures Inv(s')
  {
    hide Coherent;
    var vs := VersionsOf(s, d);
    assert forall w :: w in vs + [v] <==> w in vs || w == v;
    assert Keyed(vs + [v]) && DistinctTimes(vs + [v]);
  }

  lemma DocOkElsewhere(vs: seq<Version>, at: map<nat, int>, id: nat, t: int)
    requires DocOk(vs, at) && id !in at
    ensures DocOk(vs, at[id := t])
  {
    hide Keyed, DistinctTimes;
  }

  lemma ClaimKeepsDocOk(vs: seq<Version>, at: map<nat, int>, k: nat, place: nat, c: Claim)
    requires DocOk(vs, at) && k < |vs| && place <= |vs[k].claims| && c.id !in at && c.assertedAt == vs[k].effectiveAt
    ensures DocOk(WithClaim(vs, k, place, c), at[c.id := c.assertedAt])
  {
    hide Keyed, Inserted;
    var now, t := WithClaim(vs, k, place, c), at[c.id := c.assertedAt];
    forall id | id in OwnIds(vs) ensures id in at {
    }
    ClaimKeepsKeyed(vs, k, place, c, at.Keys);
    InsertedMembers(vs[k].claims, place, c);
    assert vs[k] in vs;
    forall v, d | v in now && d in v.claims ensures d.id in t && t[d.id] == v.effectiveAt {
      var i :| 0 <= i < |now| && now[i] == v;
      assert vs[i] in vs;
    }
  }

  lemma ClaimKeepsInv(s: System, s': System, d: nat, k: nat, place: nat, c: Claim)
    requires Inv(s) && ClaimExtracted(s, s', d, k, place, c)
    ensures Inv(s')
  {
    hide Coherent, DocOk, WithClaim;
    var t := c.assertedAt;
    ClaimKeepsDocOk(s.docs[d], s.at, k, place, c);
    forall e | e in s'.docs ensures DocOk(s'.docs[e], s'.at) {
      if e != d {
        DocOkElsewhere(s.docs[e], s.at, c.id, t);
      }
    }
    FreshIsCoherent(t, s'.at);
    forall id | id in s'.lives ensures Coherent(s'.lives[id], s'.at[id], s'.at) {
      if id != c.id {
        CoherentStays(s.lives[id], s.at[id], s.at, c.id, t);
      }
    }
  }

  lemma FreshIsCoherent(own: int, at: map<nat, int>)
    ensures Coherent(FRESH, own, at)
  {
  }

  /** A fate within the document is coherent: the next version is strictly later. */
  lemma LinkedIsCoherent(vs: seq<Version>, at: map<nat, int>, i: nat, c: Claim, life: Life)
    requires i < |vs| && c in vs[i].claims && WellLinked(vs, i, life) && Timely(vs)
    requires forall v, c :: v in vs && c in v.claims ==> c.id in at && at[c.id] == v.effectiveAt
    ensures c.id in at && Coherent(life, at[c.id], at)
  {
    assert vs[i] in vs;
    if i + 1 < |vs| {
      assert vs[i + 1] in vs && vs[i].effectiveAt < vs[i + 1].effectiveAt;
    }
    if life.supersededBy.Some? {
      var d :| d in vs[i + 1].claims && d.id == life.supersededBy.value;
      assert at[d.id] == vs[i + 1].effectiveAt;
    }
  }

  lemma ReconciledOwn(s: System, d: nat, j: Judge, id: nat)
    requires Inv(s) && d in s.docs && id in OwnIds(s.docs[d]) && id in s.lives
    ensures id in Settled(j, s.docs[d], s.lives) && Coherent(Settled(j, s.docs[d], s.lives)[id], s.at[id], s.at)
  {
    hide Keyed, DistinctTimes, Coherent, Fate, InOrder, Settled, OwnIds, WellLinked;
    var versions := s.docs[d];
    assert DocOk(versions, s.at);
    var i, c := OwnedInOrder(versions, id);
    SettledFate(j, versions, s.lives, i, c);
    var vs, external := InOrder(versions), External(OwnIds(versions), s.lives);
    if id !in external {
      OrderKeepsKeyed(versions);
      OrderKeepsMembers(versions);
      InOrderIsTimely(versions);
      FateIsWellLinked(j, vs, external, i, c, Settled(j, versions, s.lives)[id]);
      LinkedIsCoherent(vs, s.at, i, c, Settled(j, versions, s.lives)[id]);
    }
  }

  lemma ReconciledElsewhere(j: Judge, versions: seq<Version>, lives: Lives, id: nat)
    requires Keyed(versions) && id in lives && id !in OwnIds(versions)
    ensures id in Settled(j, versions, lives) && Settled(j, versions, lives)[id] == lives[id]
  {
    hide Keyed, InOrder, OwnIds, External, Walked, Reset;
    OrderKeepsKeyed(versions);
    OrderKeepsMembers(versions);
    var vs := InOrder(versions);
    if vs != [] {
      WalkedLeavesOthers(j, vs, External(OwnIds(vs), lives), |vs| - 1, lives, id);
    }
  }

  lemma ReconcileStepKeepsInv(s: System, s': System, d: nat, j: Judge)
    requires Inv(s) && DocReconciled(s, s', d, j)
    ensures Inv(s')
  {
    hide Coherent, Keyed, DistinctTimes, Settled, OwnIds;
    SettledKeys(j, s.docs[d], s.lives);
    assert DocOk(s.docs[d], s.at);
    forall id | id in s.lives ensures id in s'.lives && Coherent(s'.lives[id], s.at[id], s.at) {
      if id in OwnIds(s.docs[d]) {
        ReconciledOwn(s, d, j, id);
      } else {
        ReconciledElsewhere(j, s.docs[d], s.lives, id);
      }
    }
  }

  /** A judgement changes the bookkeeping of at most one claim, and links it to the strictly later one. */
  lemma JudgementLinksForward(
      st: Relate.State, a: Relate.Claim, b: Relate.Claim, similarity: real, dupSim: real, now: int)
    requires Relate.Known(st, a, b) && !Relate.Labelled(st.rows, Relate.PairOf(a.id, b.id))
    ensures var lives, newer, older := Relate.Judged(st, a, b, similarity, dupSim, now).lives, Relate.Newer(a, b),
      Relate.Older(a, b);
      || lives == st.lives
      || (&& newer.assertedAt.value > older.assertedAt.value && !older.note
          && lives == st.lives[older.id := Life(Status.Superseded, newer.assertedAt, Some(newer.id))])
  {
    hide Relate.HeuristicRelation, Relate.IsNewer;
    var d := Relate.HeuristicRelation(a, b, similarity, dupSim);
    if d.Some? && d.value.relation == Relate.Supersedes {
      Relate.SupersedesIsLater(a, b, similarity, dupSim);
    }
  }

  lemma JudgeKeepsInv(s: System, s': System, st: Relate.State, a: Relate.Claim, b: Relate.Claim, similarity: real,
      dupSim: real, now: int)
    requires Inv(s) && PairJudged(s, s', st, a, b, similarity, dupSim, now)
    ensures Inv(s')
  {
    hide DocOk, Relate.Judged, Relate.Labelled;
    JudgementLinksForward(st, a, b, similarity, dupSim, now);
  }

  lemma StepKeepsInv(s: System, s': System)
    requires Inv(s) && Step(s, s')
    ensures Inv(s')
  {
    hide Inv, Uploaded, ClaimExtracted, DocReconciled, PairJudged;
    if d, v :| Uploaded(s, s', d, v) {
      UploadKeepsInv(s, s', d, v);
    } else if d, k, place, c :| ClaimExtracted(s, s', d, k, place, c) {
      ClaimKeepsInv(s, s', d, k, place, c);
    } else if d, j :| DocReconciled(s, s', d, j) {
      ReconcileStepKeepsInv(s, s', d, j);
    } else {
      var st, a, b, similarity, dupSim, now :| PairJudged(s, s', st, a, b, similarity, dupSim, now);
      JudgeKeepsInv(s, s', st, a, b, similarity, dupSim, now);
    }
  }

  /** In every state of every run, each claim's bookkeeping is coherent. */
  lemma {:induction false} RunKeepsInv(ss: seq<System>, i: nat)
    requires Run(ss) && i < |ss|
    ensures Inv(ss[i])
  {
    if i > 0 {
      RunKeepsInv(ss, i - 1);
      StepKeepsInv(ss[i - 1], ss[i]);
    }
  }

  // ---------------------------------------------------------------- no cycles

  ghost predicate LinkAt(lives: Lives, path: seq<nat>, k: int) {
    0 <= k && k + 1 < |path| && path[k] in lives && lives[path[k]].supersededBy == Some(path[k + 1])
  }

  /** Each claim of the path is superseded by the next. */
  ghost predicate Follows(lives: Lives, path: seq<nat>) {
    forall k :: 0 <= k < |path| - 1 ==> LinkAt(lives, path, k)
  }

  lemma {:induction false} PathsGoForward(s: System, path: seq<nat>, x: nat, y: nat)
    requires Inv(s) && Follows(s.lives, path) && x < y < |path|
    ensures path[x] in s.at && path[y] in s.at && s.at[path[x]] < s.at[path[y]]
  {
    assert LinkAt(s.lives, path, y - 1);
    assert Coherent(s.lives[path[y - 1]], s.at[path[y - 1]], s.at);
    if x < y - 1 {
      PathsGoForward(s, path, x, y - 1);
    }
  }

  /** Following successors never comes back: supersession is acyclic in every reachable state. */
  lemma SupersessionIsAcyclic(ss: seq<System>, i: nat, path: seq<nat>)
    requires Run(ss) && i < |ss| && Follows(ss[i].lives, path)
    ensures Distinct(path)
  {
    hide Inv, Run, Follows;
    RunKeepsInv(ss, i);
    forall x, y | 0 <= x < y < |path| ensures path[x] != path[y] {
      PathsGoForward(ss[i], path, x, y);
    }
  }
}
