/** What reconciliation guarantees: each claim's fate in closed form, chains that step one version at
    a time, idempotence, and a lifecycle that depends on the set of versions and not on history. */
module ReconcileTheorems {
  import opened Common
  import opened Matching
  import opened MatchingTheorems
  import opened Reconcile
  import ConflictEvents

  // ----- each claim's fate --------------------------------------------------------------------

  lemma {:induction false} ApplyElsewhere(ms: seq<Match>, at: int, lives: Lives, id: nat)
    requires id in lives && forall m :: m in ms ==> m.previous.id != id
    ensures Apply(ms, at, lives).Keys == lives.Keys && Apply(ms, at, lives)[id] == lives[id]
  {
    if ms != [] {
      var n := |ms| - 1;
      assert forall m :: m in ms[..n] ==> m in ms;
      assert ms[n] in ms;
      ApplyElsewhere(ms[..n], at, lives, id);
    }
  }

  lemma {:induction false} ApplyKeepsKeys(ms: seq<Match>, at: int, lives: Lives)
    ensures Apply(ms, at, lives).Keys == lives.Keys
  {
    if ms != [] {
      ApplyKeepsKeys(ms[..|ms| - 1], at, lives);
    }
  }

  lemma {:induction false} ApplyHere(ms: seq<Match>, at: int, lives: Lives, m: Match)
    requires OneToOne(ms) && m in ms && m.previous.id in lives
    ensures Apply(ms, at, lives).Keys == lives.Keys
    ensures Apply(ms, at, lives)[m.previous.id] == NewLife(m, at, lives[m.previous.id])
  {
    var n := |ms| - 1;
    if ms[n] == m {
      forall x | x in ms[..n] ensures x.previous.id != m.previous.id {
        var i :| 0 <= i < n && ms[i] == x;
      }
      ApplyElsewhere(ms[..n], at, lives, m.previous.id);
    } else {
      assert m in ms[..n];
      var i :| 0 <= i < n && ms[i] == m;
      ApplyHere(ms[..n], at, lives, m);
    }
  }

  lemma {:induction false} WalkedKeys(j: Judge, vs: seq<Version>, external: set<nat>, n: nat, lives: Lives)
    requires n == 0 || n < |vs|
    ensures Walked(j, vs, external, n, lives).Keys == lives.Keys
  {
    hide MatchesAt, Apply, OwnIds;
    if n > 0 {
      WalkedKeys(j, vs, external, n - 1, lives);
      ApplyKeepsKeys(MatchesAt(j, vs, external, n - 1), vs[n].effectiveAt, Walked(j, vs, external, n - 1, lives));
    }
  }

  /** The walk over one pair leaves every claim alone that is not of the pair's earlier version. */
  lemma PairElsewhere(j: Judge, vs: seq<Version>, external: set<nat>, i: nat, lives: Lives, id: nat)
    requires i + 1 < |vs| && Keyed(vs) && id in lives
      && (id in external || forall c :: c in vs[i].claims ==> c.id != id)
    ensures id in Apply(MatchesAt(j, vs, external, i), vs[i + 1].effectiveAt, lives)
    ensures Apply(MatchesAt(j, vs, external, i), vs[i + 1].effectiveAt, lives)[id] == lives[id]
  {
    MatchesAreOfPrevious(j, vs, external, i);
    ApplyElsewhere(MatchesAt(j, vs, external, i), vs[i + 1].effectiveAt, lives, id);
  }

  lemma {:induction false} WalkedElsewhere(
      j: Judge, vs: seq<Version>, external: set<nat>, n: nat, lives: Lives, id: nat)
    requires (n == 0 || n < |vs|) && Keyed(vs) && id in lives
    requires id in external || forall i, c :: 0 <= i < n && c in vs[i].claims ==> c.id != id
    ensures id in Walked(j, vs, external, n, lives)
    ensures Walked(j, vs, external, n, lives)[id] == Reset(OwnIds(vs), external, lives)[id]
  {
    hide Keyed, MatchesAt, Reset, OwnIds, Apply;
    if n > 0 {
      WalkedElsewhere(j, vs, external, n - 1, lives, id);
      PairElsewhere(j, vs, external, n - 1, Walked(j, vs, external, n - 1, lives), id);
    }
  }

  /** What the matching at version `i` decides for the claim `c` of that version. */
  ghost predicate Fate(j: Judge, vs: seq<Version>, external: set<nat>, i: nat, c: Claim, life: Life)
    requires i < |vs|
  {
    if i + 1 == |vs| then life == FRESH
    else
      exists m ::
        m in MatchesAt(j, vs, external, i) && m.previous == c && life == NewLife(m, vs[i + 1].effectiveAt, FRESH)
  }

  lemma MatchOf(j: Judge, vs: seq<Version>, external: set<nat>, i: nat, c: Claim) returns (m: Match)
    requires i + 1 < |vs| && Keyed(vs) && c in vs[i].claims && c.id !in external
    ensures m in MatchesAt(j, vs, external, i) && m.previous == c
  {
    var prevClaims := Without(vs[i].claims, external);
    assert vs[i] in vs && vs[i + 1] in vs;
    WithoutKeepsDistinct(vs[i].claims, external);
    WithoutFacts(vs[i].claims, external, c);
    MatchingIsOneToOne(j, prevClaims, vs[i + 1].claims, SuspectAt(vs, external, i));
    m :| m in MatchesAt(j, vs, external, i) && m.previous == c;
  }

  lemma ClaimsOfOthersDiffer(vs: seq<Version>, i: nat, k: nat, c: Claim)
    requires Keyed(vs) && i < |vs| && k < |vs| && i != k && c in vs[i].claims
    ensures forall d :: d in vs[k].claims ==> d.id != c.id
  {
    assert vs[i] in vs && vs[k] in vs && vs[i].id != vs[k].id;
  }

  lemma ResetMakesFresh(vs: seq<Version>, external: set<nat>, lives: Lives, i: nat, c: Claim)
    requires i < |vs| && c in vs[i].claims && c.id in lives && c.id !in external
    ensures Reset(OwnIds(vs), external, lives)[c.id] == FRESH
  {
    assert vs[i] in vs && c.id in OwnIds(vs);
  }

  lemma PairHere(j: Judge, vs: seq<Version>, external: set<nat>, i: nat, lives: Lives, c: Claim)
    requires i + 1 < |vs| && Keyed(vs) && c in vs[i].claims && c.id !in external && c.id in lives
      && lives[c.id] == FRESH
    ensures c.id in Apply(MatchesAt(j, vs, external, i), vs[i + 1].effectiveAt, lives)
    ensures Fate(j, vs, external, i, c, Apply(MatchesAt(j, vs, external, i), vs[i + 1].effectiveAt, lives)[c.id])
  {
    hide Keyed, MatchesAt, Apply, OneToOne;
    var m := MatchOf(j, vs, external, i, c);
    MatchesAreOfPrevious(j, vs, external, i);
    ApplyHere(MatchesAt(j, vs, external, i), vs[i + 1].effectiveAt, lives, m);
  }

  lemma {:induction false} WalkedFate(
      j: Judge, vs: seq<Version>, external: set<nat>, n: nat, lives: Lives, i: nat, c: Claim)
    requires n < |vs| && i < |vs| && Keyed(vs) && c in vs[i].claims && c.id in lives && c.id !in external
    ensures c.id in Walked(j, vs, external, n, lives)
    ensures n <= i ==> Walked(j, vs, external, n, lives)[c.id] == FRESH
    ensures i < n ==> Fate(j, vs, external, i, c, Walked(j, vs, external, n, lives)[c.id])
  {
    hide Keyed, MatchesAt, Reset, OwnIds, Apply;
    ResetMakesFresh(vs, external, lives, i, c);
    if n > 0 {
      WalkedFate(j, vs, external, n - 1, lives, i, c);
      var before := Walked(j, vs, external, n - 1, lives);
      if i == n - 1 {
        PairHere(j, vs, external, i, before, c);
      } else {
        ClaimsOfOthersDiffer(vs, i, n - 1, c);
        PairElsewhere(j, vs, external, n - 1, before, c.id);
      }
    }
  }

  lemma ResetKeepsExternal(own: set<nat>, external: set<nat>, lives: Lives, id: nat)
    requires id in external ==> id in lives
    ensures id in external ==> Reset(own, external, lives)[id] == lives[id]
  {
  }

  /** After a reconcile a claim of the document is what its own match with the next version says: active in
      the last version, otherwise carried, superseded, retracted or retained. External claims stay as they were. */
  lemma SettledFate(j: Judge, versions: seq<Version>, lives: Lives, i: nat, c: Claim)
    requires Keyed(versions) && i < |InOrder(versions)| && c in InOrder(versions)[i].claims && c.id in lives
    ensures var vs, external := InOrder(versions), External(OwnIds(versions), lives);
      && c.id in Settled(j, versions, lives)
      && (c.id !in external ==> Fate(j, vs, external, i, c, Settled(j, versions, lives)[c.id]))
      && (c.id in external ==> Settled(j, versions, lives)[c.id] == lives[c.id])
  {
    hide Keyed, InOrder, OwnIds, External, Walked, MatchesAt, Reset;
    OrderKeepsMembers(versions);
    OrderKeepsKeyed(versions);
    ResetKeepsExternal(OwnIds(versions), External(OwnIds(versions), lives), lives, c.id);
    var vs, external := InOrder(versions), External(OwnIds(versions), lives);
    if c.id in external {
      WalkedElsewhere(j, vs, external, |vs| - 1, lives, c.id);
    } else {
      WalkedFate(j, vs, external, |vs| - 1, lives, i, c);
    }
  }

  // ----- chains -------------------------------------------------------------------------------

  /** A link goes to a claim of the very next version; what ended is closed at that version's time. */
  ghost predicate WellLinked(vs: seq<Version>, i: nat, life: Life)
    requires i < |vs|
  {
    && (life.supersededBy.Some? ==> i + 1 < |vs| && life.supersededBy.value in IdsOf(vs[i + 1].claims))
    && (life.supersededBy.Some? <==> life.status == Status.Carried || life.status == Status.Superseded)
    && (life.validTo.Some? <==> life.status == Status.Superseded || life.status == Status.Retracted)
    && (life.validTo.Some? ==> i + 1 < |vs| && life.validTo.value == vs[i + 1].effectiveAt)
  }

  lemma FateIsWellLinked(j: Judge, vs: seq<Version>, external: set<nat>, i: nat, c: Claim, life: Life)
    requires Keyed(vs) && i < |vs| && Fate(j, vs, external, i, c, life)
    ensures WellLinked(vs, i, life)
  {
    if i + 1 < |vs| {
      MatchesAreOfPrevious(j, vs, external, i);
    }
  }

  /** Two claims never share a successor: the links inside a document form disjoint chains. */
  lemma ChainsAreDisjoint(j: Judge, vs: seq<Version>, external: set<nat>, i: nat, c: Claim, l: Life, k: nat, d: Claim,
      r: Life)
    requires Keyed(vs) && i < |vs| && k < |vs| && c in vs[i].claims && d in vs[k].claims && c.id != d.id
    requires Fate(j, vs, external, i, c, l) && Fate(j, vs, external, k, d, r) && l.supersededBy.Some?
    ensures l.supersededBy != r.supersededBy
  {
    hide Keyed, MatchesAt, Fate;
    FateIsWellLinked(j, vs, external, i, c, l);
    FateIsWellLinked(j, vs, external, k, d, r);
    if r.supersededBy.Some? {
      if i == k {
        PairSuccessorsDiffer(j, vs, external, i, c, l, d, r);
      } else {
        var s :| s in vs[i + 1].claims && s.id == l.supersededBy.value;
        ClaimsOfOthersDiffer(vs, i + 1, k + 1, s);
      }
    }
  }

  lemma PairSuccessorsDiffer(
      j: Judge, vs: seq<Version>, external: set<nat>, i: nat, c: Claim, l: Life, d: Claim, r: Life)
    requires Keyed(vs) && i + 1 < |vs| && c.id != d.id && l.supersededBy.Some?
    requires Fate(j, vs, external, i, c, l) && Fate(j, vs, external, i, d, r)
    ensures l.supersededBy != r.supersededBy
  {
    hide Keyed, MatchesAt;
    var ms := MatchesAt(j, vs, external, i);
    MatchesAreOfPrevious(j, vs, external, i);
    var m :| m in ms && m.previous == c && l == NewLife(m, vs[i + 1].effectiveAt, FRESH);
    var w :| w in ms && w.previous == d && r == NewLife(w, vs[i + 1].effectiveAt, FRESH);
    var x :| 0 <= x < |ms| && ms[x] == m;
    var y :| 0 <= y < |ms| && ms[y] == w;
    assert !SameSuccessor(ms[if x < y then x else y], ms[if x < y then y else x]);
  }

  // ----- external claims, and idempotence -----------------------------------------------------

  lemma OwnedInOrder(versions: seq<Version>, id: nat) returns (i: nat, c: Claim)
    requires id in OwnIds(versions)
    ensures i < |InOrder(versions)| && c in InOrder(versions)[i].claims && c.id == id
  {
    OrderKeepsMembers(versions);
    var vs := InOrder(versions);
    var v, d :| v in vs && d in v.claims && d.id == id;
    i :| 0 <= i < |vs| && vs[i] == v;
    c := d;
  }

  lemma SuccessorsAreOwn(j: Judge, versions: seq<Version>, lives: Lives, id: nat)
    requires Keyed(versions) && id in OwnIds(versions) && id in lives && id !in External(OwnIds(versions), lives)
    ensures id in Settled(j, versions, lives)
    ensures Settled(j, versions, lives)[id].supersededBy.Some? ==>
      Settled(j, versions, lives)[id].supersededBy.value in OwnIds(versions)
  {
    var i, c := OwnedInOrder(versions, id);
    var vs := InOrder(versions);
    SettledFate(j, versions, lives, i, c);
    OrderKeepsKeyed(versions);
    FateIsWellLinked(j, vs, External(OwnIds(versions), lives), i, c, Settled(j, versions, lives)[id]);
    OrderKeepsMembers(versions);
    if i + 1 < |vs| {
      assert vs[i + 1] in vs;
      assert IdsOf(vs[i + 1].claims) <= OwnIds(vs);
    }
  }

  /** A reconcile does not change which claims are superseded from outside the document. */
  lemma ExternalKept(j: Judge, versions: seq<Version>, lives: Lives)
    requires Keyed(versions) && OwnIds(versions) <= lives.Keys
    ensures External(OwnIds(versions), Settled(j, versions, lives)) == External(OwnIds(versions), lives)
  {
    var own, after := OwnIds(versions), Settled(j, versions, lives);
    forall id | id in own
      ensures id in after && (id in External(own, after) <==> id in External(own, lives))
    {
      var i, c := OwnedInOrder(versions, id);
      SettledFate(j, versions, lives, i, c);
      if id !in External(own, lives) {
        SuccessorsAreOwn(j, versions, lives, id);
      }
    }
    assert forall id :: id in External(own, after) ==> id in own;
    assert forall id :: id in External(own, lives) ==> id in own;
  }

  lemma ResetForgets(own: set<nat>, external: set<nat>, lives: Lives, lives': Lives, id: nat)
    requires id in lives && id in lives' && id in own && (id in external ==> lives[id] == lives'[id])
    ensures Reset(own, external, lives)[id] == Reset(own, external, lives')[id]
  {
  }

  /** What a reconcile leaves on a claim of the document does not depend on what the claim carried before. */
  lemma {:induction false} WalkedForgets(
      j: Judge, vs: seq<Version>, external: set<nat>, n: nat, lives: Lives, lives': Lives, id: nat)
    requires (n == 0 || n < |vs|) && id in lives && id in lives'
    requires id in OwnIds(vs) && (id in external ==> lives[id] == lives'[id])
    ensures id in Walked(j, vs, external, n, lives) && id in Walked(j, vs, external, n, lives')
    ensures Walked(j, vs, external, n, lives)[id] == Walked(j, vs, external, n, lives')[id]
  {
    hide MatchesAt, Reset, OwnIds, Apply;
    ResetForgets(OwnIds(vs), external, lives, lives', id);
    if n > 0 {
      WalkedForgets(j, vs, external, n - 1, lives, lives', id);
      ApplyAgrees(MatchesAt(j, vs, external, n - 1), vs[n].effectiveAt, Walked(j, vs, external, n - 1, lives),
                  Walked(j, vs, external, n - 1, lives'), id);
    }
  }

  lemma {:induction false} ApplyAgrees(ms: seq<Match>, at: int, lives: Lives, lives': Lives, id: nat)
    requires id in lives && id in lives' && lives[id] == lives'[id]
    ensures id in Apply(ms, at, lives) && id in Apply(ms, at, lives')
      && Apply(ms, at, lives)[id] == Apply(ms, at, lives')[id]
  {
    if ms != [] {
      ApplyAgrees(ms[..|ms| - 1], at, lives, lives', id);
    }
  }

  lemma {:induction false} WalkedLeavesOthers(
      j: Judge, vs: seq<Version>, external: set<nat>, n: nat, lives: Lives, id: nat)
    requires (n == 0 || n < |vs|) && Keyed(vs) && id in lives && id !in OwnIds(vs)
    ensures id in Walked(j, vs, external, n, lives) && Walked(j, vs, external, n, lives)[id] == lives[id]
  {
    forall i, c | 0 <= i < n && c in vs[i].claims ensures c.id != id {
      assert vs[i] in vs && c.id in OwnIds(vs);
    }
    WalkedElsewhere(j, vs, external, n, lives, id);
  }

  /** Idempotence: a second reconcile changes no claim's bookkeeping and needs the same events. */
  lemma SettledTwice(j: Judge, versions: seq<Version>, lives: Lives)
    requires Keyed(versions) && OwnIds(versions) <= lives.Keys
    ensures Settled(j, versions, Settled(j, versions, lives)) == Settled(j, versions, lives)
    ensures NeededFacts(j, versions, Settled(j, versions, lives)) == NeededFacts(j, versions, lives)
  {
    hide Keyed, Walked, FactsUpTo, Fate, MatchesAt;
    ExternalKept(j, versions, lives);
    OrderKeepsMembers(versions);
    OrderKeepsKeyed(versions);
    var vs, once := InOrder(versions), Settled(j, versions, lives);
    if vs != [] {
      var external, n := External(OwnIds(vs), lives), |vs| - 1;
      var twice := Walked(j, vs, external, n, once);
      WalkedKeys(j, vs, external, n, lives);
      WalkedKeys(j, vs, external, n, once);
      forall id | id in once ensures twice[id] == once[id] {
        if id in OwnIds(vs) {
          if id in external {
            WalkedElsewhere(j, vs, external, n, lives, id);
          }
          WalkedForgets(j, vs, external, n, lives, once, id);
        } else {
          WalkedLeavesOthers(j, vs, external, n, once, id);
        }
      }
    }
  }

  /** Row-level idempotence of the events: reconciling again keeps every row, its id and its observation time. */
  lemma SameRowsAgain(events: set<Event>, events': set<Event>)
    requires UniqueKeys(events) && UniqueKeys(events') && Facts(events') == Facts(events)
    requires forall e, f :: e in events && f in Facts(events) && KeyOf(f) == KeyOf(e.fact) ==> Renewed(e, events')
    ensures events' == events
  {
    forall e | e in events ensures e in events' {
      assert e.fact in Facts(events);
      var f :| KeyOf(f) == KeyOf(e.fact) && Event(e.id, f, e.observedAt) in events';
      assert f in Facts(events');
      var x :| x in events && x.fact == f;
      assert x == e;
    }
    forall e | e in events' ensures e in events {
      assert e.fact in Facts(events');
      var x :| x in events && x.fact == e.fact;
      assert x in events';
    }
  }

  // ----- contradictions -----------------------------------------------------------------------

  lemma SettledKeys(j: Judge, versions: seq<Version>, lives: Lives)
    ensures Settled(j, versions, lives).Keys == lives.Keys
  {
    var vs := InOrder(versions);
    if vs != [] {
      WalkedKeys(j, vs, External(OwnIds(vs), lives), |vs| - 1, lives);
    }
  }

  lemma ReviewedTwice(own: set<nat>, lives: Lives, now: int, later: int, r: Contradiction)
    ensures Reviewed(own, lives, later, Reviewed(own, lives, now, r)) == Reviewed(own, lives, now, r)
    ensures !r.rejected && (r.a in own || r.b in own) && r.a in lives && r.b in lives ==>
              (Reviewed(own, lives, now, r).resolvedAt.None? <==> Live(lives, r.a) && Live(lives, r.b))
  {
  }

  /** After a reconcile a contradiction that was not rejected, touches the document and whose claims
      exist is open exactly when both are active or carried; a later reconcile leaves it alone. */
  lemma OpenIffBothLive(j: Judge, versions: seq<Version>, lives: Lives, now: int, later: int, r: Contradiction)
    requires Keyed(versions) && OwnIds(versions) <= lives.Keys
    ensures var own, after := OwnIds(versions), Settled(j, versions, lives);
            var once := Reviewed(own, after, now, r);
      && (!r.rejected && (r.a in own || r.b in own) && r.a in lives && r.b in lives ==>
           (once.resolvedAt.None? <==> Live(after, r.a) && Live(after, r.b)))
      && Reviewed(own, Settled(j, versions, after), later, once) == once
  {
    hide Keyed, OwnIds, Settled, Reviewed, Live;
    SettledTwice(j, versions, lives);
    SettledKeys(j, versions, lives);
    ReviewedTwice(OwnIds(versions), Settled(j, versions, lives), now, later, r);
  }

  // ----- reconciling twice --------------------------------------------------------------------

  lemma {:induction false} ClosingsAgain(
      own: set<nat>, lives: Lives, assertedAt: map<nat, int>, rs: seq<Contradiction>, rs': seq<Contradiction>,
      now: int, later: int)
    requires lives.Keys <= assertedAt.Keys && |rs'| == |rs|
    requires forall i :: 0 <= i < |rs| ==> rs'[i] == Reviewed(own, lives, now, rs[i])
    ensures Closings(own, lives, assertedAt, rs', later) == Closings(own, lives, assertedAt, rs, now)
  {
    hide NameOf;
    if rs != [] {
      var n := |rs| - 1;
      ClosingsAgain(own, lives, assertedAt, rs[..n], rs'[..n], now, later);
      assert rs'[n] == Reviewed(own, lives, now, rs[n]);
    }
  }

  /** The closings' inactive sides are all the document's own claims iff every touching contradiction
      that does not stand has its first side that is no longer current in the document. */
  lemma {:induction false} AllOwnMeans(
      own: set<nat>, lives: Lives, assertedAt: map<nat, int>, rs: seq<Contradiction>, now: int)
    ensures ConflictEvents.AllOwn(own, Closings(own, lives, assertedAt, rs, now)) <==>
      forall i :: 0 <= i < |rs| && ClosesNow(own, lives, rs[i]) ==> InactiveSide(lives, rs[i]) in own
  {
    hide ClosesNow, InactiveSide, NameOf, WorldTime;
    if rs != [] {
      var n := |rs| - 1;
      AllOwnMeans(own, lives, assertedAt, rs[..n], now);
      var before, all := Closings(own, lives, assertedAt, rs[..n], now), Closings(own, lives, assertedAt, rs, now);
      assert forall k :: 0 <= k < |before| ==> all[k] == before[k];
      assert ClosesNow(own, lives, rs[n]) ==> all[|before|].inactive == InactiveSide(lives, rs[n]);
      assert forall i :: 0 <= i < n ==> rs[..n][i] == rs[i];
    }
  }

  /** Everything a reconcile writes. */
  datatype Snapshot = Snapshot(
      lives: Lives, events: set<Event>, contradictions: seq<Contradiction>, suspects: set<nat>,
      resolutions: ConflictEvents.Log)

  /** The `conflict_resolved` rows a second reconcile starts from, in the order a query returns them. */
  ghost predicate Selects(order: ConflictEvents.Log -> seq<nat>, own: set<nat>) {
    forall l, id :: id in order(l) <==> ConflictEvents.IsOwn(l, own, id)
  }

  /** A second reconcile changes no bookkeeping, no event row, no contradiction and no mark. It changes no
      `conflict_resolved` row exactly when the rows it loads record each closing already and are no others;
      where rows are selected by id, exactly when each contradiction closed has its inactive side in the
      document and is the only kind that several of its rows are about; in any order, it changes none where
      moreover those rows record what is written, and some where an inactive side is another document's. */
  method ReconcileTwice(ledger: Ledger, j: Judge, now: int, later: int, order: ConflictEvents.Log -> seq<nat>)
      returns (ghost once: Snapshot)
    requires ledger.Valid() && Selects(order, OwnIds(ledger.versions))
    modifies ledger
    ensures ledger.Valid() && ledger.versions == old(ledger.versions)
    ensures once.lives == Settled(j, ledger.versions, old(ledger.lives))
    ensures ledger.lives == once.lives && ledger.events == once.events
    ensures ledger.contradictions == once.contradictions && ledger.suspects == once.suspects
    ensures SecondPass(old(ledger.resolutions), OwnIds(ledger.versions), order,
                       Closings(OwnIds(ledger.versions), ledger.lives, ledger.assertedAt, ledger.contradictions, now),
                       once.resolutions, ledger.resolutions)
  {
    hide Settled, NeededFacts, UniqueKeys, Facts, Keyed, Closings, SuspectsOf, Renewed, OnePerRelation, Resolved,
      Reviewed, OwnIds, KeyOf, SecondPass;
    ghost var own, log, lives0, rs := OwnIds(ledger.versions), ledger.resolutions, ledger.lives, ledger.contradictions;
    ledger.Reconcile(j, now, order(ledger.resolutions));
    once := Snapshot(ledger.lives, ledger.events, ledger.contradictions, ledger.suspects, ledger.resolutions);
    ledger.Reconcile(j, later, order(ledger.resolutions));
    SettledTwice(j, ledger.versions, lives0);
    SameSuspects(j, ledger.versions, lives0);
    SameRowsAgain(once.events, ledger.events);
    ReviewedAgain(own, once.lives, now, later, rs, once.contradictions, ledger.contradictions);
    ClosingsAgain(own, once.lives, ledger.assertedAt, rs, once.contradictions, now, later);
    ClosingsAgain(own, once.lives, ledger.assertedAt, rs, once.contradictions, now, now);
    ClosingsArePerPair(own, once.lives, ledger.assertedAt, once.contradictions, now);
    ResolvedTwice(log, own, order, Closings(own, once.lives, ledger.assertedAt, once.contradictions, now),
      once.resolutions, ledger.resolutions);
  }

  /** When a second pass over the `conflict_resolved` rows, with the same closings, changes them. */
  ghost predicate SecondPass(
      l: ConflictEvents.Log, own: set<nat>, order: ConflictEvents.Log -> seq<nat>, cs: seq<Closing>,
                             once: ConflictEvents.Log, twice: ConflictEvents.Log) {
    && (twice.rows == once.rows <==> ConflictEvents.Still(once, ConflictEvents.Fill(once, order(once)), cs))
    && ((forall log :: ConflictEvents.Ascending(order(log))) ==>
         (twice.rows == once.rows <==> ConflictEvents.AllOwn(own, cs) && ConflictEvents.TwinsAreClosed(l, own, cs)))
    && (ConflictEvents.AllOwn(own, cs) && ConflictEvents.HarmlessTwins(l, own, cs) ==> twice.rows == once.rows)
    && (!ConflictEvents.AllOwn(own, cs) ==> twice.rows != once.rows)
  }

  lemma SameSuspects(j: Judge, versions: seq<Version>, lives: Lives)
    requires Keyed(versions) && OwnIds(versions) <= lives.Keys
    ensures SuspectsOf(versions, Settled(j, versions, lives)) == SuspectsOf(versions, lives)
  {
    hide Keyed, Settled, SuspectIds, OwnIds;
    OrderKeepsMembers(versions);
    ExternalKept(j, versions, lives);
  }

  lemma ReviewedAgain(own: set<nat>, lives: Lives, now: int, later: int, rs: seq<Contradiction>,
      once: seq<Contradiction>, twice: seq<Contradiction>)
    requires |once| == |rs| && |twice| == |rs|
    requires forall i :: 0 <= i < |rs| ==> once[i] == Reviewed(own, lives, now, rs[i])
    requires forall i :: 0 <= i < |rs| ==> twice[i] == Reviewed(own, lives, later, once[i])
    ensures twice == once
  {
    hide Reviewed;
    forall i | 0 <= i < |rs| ensures twice[i] == once[i] {
      ReviewedTwice(own, lives, now, later, rs[i]);
    }
  }

  lemma ResolvedTwice(l: ConflictEvents.Log, own: set<nat>, order: ConflictEvents.Log -> seq<nat>, cs: seq<Closing>,
                      once: ConflictEvents.Log, twice: ConflictEvents.Log)
    requires Selects(order, own) && ConflictEvents.Numbered(l) && ConflictEvents.OnePerPair(cs)
    requires Resolved(l, own, order(l), cs, once) && Resolved(once, own, order(once), cs, twice)
    ensures SecondPass(l, own, order, cs, once, twice)
  {
    hide ConflictEvents.Passed, ConflictEvents.AllOwn, ConflictEvents.HarmlessTwins, ConflictEvents.OnePerPair,
      ConflictEvents.Fill;
    hide ConflictEvents.Ascending, ConflictEvents.LoadedByAge, ConflictEvents.TwinsAreClosed, ConflictEvents.Still,
      ConflictEvents.Numbered;
    var loaded, again := ConflictEvents.Fill(l, order(l)), ConflictEvents.Fill(once, order(once));
    ConflictEvents.PassKeepsNumbers(l, own, loaded, cs, once);
    ConflictEvents.PassChangesNothingIff(once, own, again, cs, twice);
    if !ConflictEvents.AllOwn(own, cs) {
      ConflictEvents.ForeignClosingIsRewritten(once, own, again, cs, twice);
    } else if ConflictEvents.HarmlessTwins(l, own, cs) {
      ConflictEvents.SecondPassKeeps(l, own, cs, loaded, once, again, twice);
    }
    if forall log :: ConflictEvents.Ascending(order(log)) {
      ConflictEvents.AscendingIsByAge(l, own, order(l));
      ConflictEvents.AscendingIsByAge(once, own, order(once));
      ConflictEvents.SecondPassByAgeIff(l, own, cs, loaded, once, again, twice);
    }
  }
}
