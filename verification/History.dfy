/** History independence: the lifecycle of a document's claims is a function of its set of versions. */
module History {
  import opened Common
  import opened Matching
  import opened Reconcile
  import opened ReconcileTheorems
  import opened Renaming
  import ConflictEvents

  ghost predicate DistinctTimes(vs: seq<Version>) {
    forall i, k :: 0 <= i < k < |vs| ==> vs[i].effectiveAt != vs[k].effectiveAt
  }

  ghost predicate Timely(vs: seq<Version>) {
    forall i, k :: 0 <= i < k < |vs| ==> vs[i].effectiveAt < vs[k].effectiveAt
  }

  lemma {:induction false} PlaceIsTimely(v: Version, vs: seq<Version>)
    requires Timely(vs) && forall w :: w in vs ==> w.effectiveAt != v.effectiveAt
    ensures Timely(Place(v, vs))
  {
    if vs != [] && !Earlier(v, vs[0]) {
      PlaceIsTimely(v, vs[1..]);
      PlaceKeeps(v, vs[1..]);
      var placed := Place(v, vs[1..]);
      forall k | 0 <= k < |placed| ensures vs[0].effectiveAt < placed[k].effectiveAt {
        assert placed[k] in multiset(placed);
        assert placed[k] == v || placed[k] in vs[1..];
      }
    }
  }

  lemma {:induction false} InOrderIsTimely(vs: seq<Version>)
    requires DistinctTimes(vs)
    ensures Timely(InOrder(vs))
  {
    if vs != [] {
      InOrderIsTimely(vs[1..]);
      OrderKeepsMembers(vs[1..]);
      PlaceIsTimely(vs[0], InOrder(vs[1..]));
    }
  }

  lemma {:induction false} TimelyIsUnique(a: seq<Version>, b: seq<Version>)
    requires Timely(a) && Timely(b) && forall v :: v in a <==> v in b
    ensures a == b
  {
    if a == [] {
      assert forall i :: 0 <= i < |b| ==> b[i] in a;
    } else {
      assert a[0] in b && b[0] in a;
      forall v ensures v in a[1..] <==> v in b[1..] {
        assert v in a <==> v == a[0] || v in a[1..];
        assert v in b <==> v == b[0] || v in b[1..];
      }
      TimelyIsUnique(a[1..], b[1..]);
    }
  }

  /** A document's rows. */
  datatype Doc = Doc(versions: seq<Version>, lives: Lives, events: set<Event>, suspects: set<nat>)

  const EMPTY := Doc([], map[], {}, {})

  ghost predicate DocInv(d: Doc) {
    && Keyed(d.versions) && DistinctTimes(d.versions)
    && d.lives.Keys == OwnIds(d.versions)
    && UniqueKeys(d.events)
  }

  /** A new version arrives, at any point of the document's timeline, with any claims it already has. */
  ghost predicate Ingested(d: Doc, d': Doc) {
    exists v :: Fits(d, v) && d' == d.(versions := d.versions + [v], lives := d.lives + FreshLives(IdsOf(v.claims)))
  }

  ghost predicate Fits(d: Doc, v: Version) {
    && DistinctIds(v.claims) && (forall c :: c in v.claims ==> c.id !in d.lives)
    && (forall w :: w in d.versions ==> w.id != v.id && w.effectiveAt != v.effectiveAt)
  }

  /** A claim is extracted from a version that is there, and takes its place in the version's text. */
  ghost predicate Extracted(d: Doc, d': Doc) {
    exists i, place, c :: ExtractedAt(d, d', i, place, c)
  }

  ghost predicate ExtractedAt(d: Doc, d': Doc, i: nat, place: nat, c: Claim) {
    && i < |d.versions| && place <= |d.versions[i].claims| && c.id !in d.lives
    && d' == d.(versions := WithClaim(d.versions, i, place, c), lives := d.lives[c.id := FRESH])
  }

  /** A claim of another document is judged to supersede one of this document's. */
  ghost predicate Overtaken(d: Doc, d': Doc) {
    exists id, successor, at :: OvertakenBy(d, d', id, successor, at)
  }

  ghost predicate OvertakenBy(d: Doc, d': Doc, id: nat, successor: nat, at: int) {
    && id in d.lives && successor !in d.lives
    && d' == d.(lives := d.lives[id := Life(Status.Superseded, Some(at), Some(successor))])
  }

  /** What `Ledger.Reconcile` ensures of the rows. */
  ghost predicate Reconciled(j: Judge, d: Doc, d': Doc) {
    && d'.versions == d.versions && d'.lives == Settled(j, d.versions, d.lives)
    && UniqueKeys(d'.events) && Facts(d'.events) == NeededFacts(j, d.versions, d.lives)
    && d'.suspects == d.suspects + SuspectsOf(d.versions, d.lives)
  }

  ghost predicate Step(j: Judge, d: Doc, d': Doc) {
    Ingested(d, d') || Extracted(d, d') || Overtaken(d, d') || Reconciled(j, d, d')
  }

  /** Every ledger run: versions arrive in any order, their claims are extracted in any order, claims are
      overtaken by other documents' at any time, and reconciles happen at any points. */
  ghost predicate Timeline(j: Judge, ds: seq<Doc>) {
    && ds != [] && ds[0] == EMPTY
    && forall i, k :: 0 <= i && k == i + 1 < |ds| ==> Step(j, ds[i], ds[k])
  }

  ghost function Last(ds: seq<Doc>): Doc
    requires ds != []
  {
    ds[|ds| - 1]
  }

  ghost predicate EndsInReconcile(j: Judge, ds: seq<Doc>) {
    |ds| >= 2 && Reconciled(j, ds[|ds| - 2], Last(ds))
  }

  // ----- every state of every run is coherent -------------------------------------------------

  lemma IngestKeepsInv(d: Doc, d': Doc)
    requires DocInv(d) && Ingested(d, d')
    ensures DocInv(d')
  {
    hide Keyed, UniqueKeys, OwnIds;
    var v :| Fits(d, v) && d' == d.(versions := d.versions + [v], lives := d.lives + FreshLives(IdsOf(v.claims)));
    AddKeepsKeyed(d.versions, v, d.lives);
  }

  lemma ExtractKeepsInv(d: Doc, d': Doc)
    requires DocInv(d) && Extracted(d, d')
    ensures DocInv(d')
  {
    hide Keyed, UniqueKeys, OwnIds, Inserted;
    var i, place, c :| ExtractedAt(d, d', i, place, c);
    ClaimKeepsKeyed(d.versions, i, place, c, d.lives.Keys);
  }

  lemma OvertakeKeepsInv(d: Doc, d': Doc)
    requires DocInv(d) && Overtaken(d, d')
    ensures DocInv(d')
  {
    hide Keyed, UniqueKeys, OwnIds;
  }

  lemma ReconcileKeepsInv(j: Judge, d: Doc, d': Doc)
    requires DocInv(d) && Reconciled(j, d, d')
    ensures DocInv(d')
  {
    hide Keyed, UniqueKeys, Walked, OwnIds;
    SettledKeys(j, d.versions, d.lives);
  }

  lemma EmptyInv()
    ensures DocInv(EMPTY)
  {
  }

  lemma StepOf(j: Judge, ds: seq<Doc>, i: nat)
    requires Timeline(j, ds) && i + 1 < |ds|
    ensures Step(j, ds[i], ds[i + 1])
  {
    hide Step;
  }

  lemma {:induction false} TimelineInv(j: Judge, ds: seq<Doc>, i: nat)
    requires Timeline(j, ds) && i < |ds|
    ensures DocInv(ds[i])
  {
    hide DocInv, Ingested, Extracted, Overtaken, Reconciled, Timeline;
    if i == 0 {
      StartsEmpty(j, ds);
      EmptyInv();
    } else {
      TimelineInv(j, ds, i - 1);
      StepOf(j, ds, i - 1);
      if Ingested(ds[i - 1], ds[i]) {
        IngestKeepsInv(ds[i - 1], ds[i]);
      } else if Extracted(ds[i - 1], ds[i]) {
        ExtractKeepsInv(ds[i - 1], ds[i]);
      } else if Overtaken(ds[i - 1], ds[i]) {
        OvertakeKeepsInv(ds[i - 1], ds[i]);
      } else {
        ReconcileKeepsInv(j, ds[i - 1], ds[i]);
      }
    }
  }

  lemma StartsEmpty(j: Judge, ds: seq<Doc>)
    requires Timeline(j, ds)
    ensures ds != [] && ds[0] == EMPTY
  {
    hide Step;
  }

  // ----- history independence -----------------------------------------------------------------

  /** The two documents have the same versions with the same claims, up to the row numbers `f` gives to
      claims and `g` to versions. */
  ghost predicate SameUpTo(f: Names, g: Names, d: Doc, e: Doc) {
    forall v :: v in e.versions <==> exists w :: w in d.versions && v == NewVersion(f, g, w)
  }

  /** The claims that other documents' claims have superseded. */
  ghost function Outside(d: Doc): set<nat> {
    External(OwnIds(d.versions), d.lives)
  }

  /** The same claims are superseded from outside, by the same claims at the same instants. */
  ghost predicate SameOutside(f: Names, d: Doc, e: Doc) {
    && Outside(e) == NewIds(f, Outside(d))
    && forall id :: id in Outside(d) && id in d.lives ==>
      f(id) in e.lives && e.lives[f(id)] == RenamedLife(f, d.lives[id])
  }

  /** A reconcile leaves what came from outside alone. */
  lemma OutsideStays(j: Judge, d: Doc, d': Doc)
    requires DocInv(d) && Reconciled(j, d, d')
    ensures Outside(d') == Outside(d)
    ensures forall id :: id in Outside(d) ==> id in d.lives && id in d'.lives && d'.lives[id] == d.lives[id]
  {
    hide Keyed, UniqueKeys, OwnIds, Settled, Walked, InOrder, Fate;
    ExternalKept(j, d.versions, d.lives);
    OrderKeepsMembers(d.versions);
    forall id | id in Outside(d) ensures id in d.lives && id in d'.lives && d'.lives[id] == d.lives[id] {
      var i, c := OwnedInOrder(d.versions, id);
      SettledFate(j, d.versions, d.lives, i, c);
    }
  }

  /** Up to renaming, both list their versions in the same order. */
  lemma SameOrder(f: Names, g: Names, d: Doc, e: Doc)
    requires DistinctTimes(d.versions) && DistinctTimes(e.versions) && SameUpTo(f, g, d, e)
    ensures InOrder(e.versions) == NewVersions(f, g, InOrder(d.versions))
  {
    hide InOrder, NewClaims;
    InOrderIsTimely(d.versions);
    InOrderIsTimely(e.versions);
    OrderKeepsMembers(d.versions);
    OrderKeepsMembers(e.versions);
    var vs := InOrder(d.versions);
    var renamed := NewVersions(f, g, vs);
    forall v ensures v in renamed <==> v in InOrder(e.versions) {
      if v in renamed {
        var i :| 0 <= i < |renamed| && renamed[i] == v;
        assert vs[i] in vs;
      }
      if v in InOrder(e.versions) {
        var w :| w in d.versions && v == NewVersion(f, g, w);
        var i :| 0 <= i < |vs| && vs[i] == w;
        assert renamed[i] == v;
      }
    }
    TimelyIsUnique(renamed, InOrder(e.versions));
  }

  /** One claim of the one document ends, renamed, as its namesake of the other. */
  lemma SameFate(f: Names, g: Names, j: Judge, d: Doc, e: Doc, id: nat)
    requires Injective(f) && IgnoresIds(j) && DocInv(d) && DocInv(e) && SameUpTo(f, g, d, e) && SameOutside(f, d, e)
      && id in d.lives
    ensures id in Settled(j, d.versions, d.lives) && f(id) in Settled(j, e.versions, e.lives)
    ensures Settled(j, e.versions, e.lives)[f(id)] == RenamedLife(f, Settled(j, d.versions, d.lives)[id])
  {
    hide Keyed, UniqueKeys, InOrder, OwnIds, External, Settled, Fate, Injective, IgnoresIds, NewIds, NewClaims,
      SameUpTo;
    SameOrder(f, g, d, e);
    var i, c := OwnedInOrder(d.versions, id);
    var vs, ws := InOrder(d.versions), InOrder(e.versions);
    Namesake(f, g, vs, i, c);
    OwnsNamesake(e.versions, i, NewClaim(f, c));
    SettledFate(j, d.versions, d.lives, i, c);
    SettledFate(j, e.versions, e.lives, i, NewClaim(f, c));
    OrderKeepsMembers(d.versions);
    OrderKeepsMembers(e.versions);
    IdIsRenamed(f, Outside(d), id);
    if id !in Outside(d) {
      FateRenamed(f, g, j, vs, Outside(d), i, c, Settled(j, d.versions, d.lives)[id]);
      OrderKeepsKeyed(e.versions);
      FateIsUnique(j, ws, Outside(e), i, NewClaim(f, c), Settled(j, e.versions, e.lives)[f(id)],
        RenamedLife(f, Settled(j, d.versions, d.lives)[id]));
    }
  }

  lemma Namesake(f: Names, g: Names, vs: seq<Version>, i: nat, c: Claim)
    requires i < |vs| && c in vs[i].claims
    ensures NewClaim(f, c) in NewVersions(f, g, vs)[i].claims
  {
    var k :| 0 <= k < |vs[i].claims| && vs[i].claims[k] == c;
    assert NewClaims(f, vs[i].claims)[k] == NewClaim(f, c);
  }

  lemma OwnsNamesake(versions: seq<Version>, i: nat, c: Claim)
    requires i < |InOrder(versions)| && c in InOrder(versions)[i].claims
    ensures c.id in OwnIds(versions)
  {
    OrderKeepsMembers(versions);
    assert InOrder(versions)[i] in InOrder(versions);
  }

  lemma OldClaimHasNamesake(f: Names, g: Names, d: Doc, e: Doc, x: nat)
    requires SameUpTo(f, g, d, e) && x in OwnIds(d.versions)
    ensures f(x) in OwnIds(e.versions)
  {
    hide NewClaims;
    var w, c :| w in d.versions && c in w.claims && c.id == x;
    var v := NewVersion(f, g, w);
    assert v in e.versions;
    var k :| 0 <= k < |w.claims| && w.claims[k] == c;
    NewClaimAt(f, w.claims, k);
    assert NewClaim(f, c) in v.claims;
  }

  lemma NewClaimAt(f: Names, claims: seq<Claim>, k: nat)
    requires k < |claims|
    ensures |NewClaims(f, claims)| == |claims| && NewClaims(f, claims)[k] == NewClaim(f, claims[k])
  {
  }

  lemma NewClaimHasNamesake(f: Names, g: Names, d: Doc, e: Doc, id: nat)
    requires SameUpTo(f, g, d, e) && id in OwnIds(e.versions)
    ensures id in NewIds(f, OwnIds(d.versions))
  {
    var v, c :| v in e.versions && c in v.claims && c.id == id;
    var w :| w in d.versions && v == NewVersion(f, g, w);
    var k :| 0 <= k < |v.claims| && v.claims[k] == c;
    NewClaimAt(f, w.claims, k);
    assert w.claims[k] in w.claims;
    assert w.claims[k].id in OwnIds(d.versions);
  }

  /** No claim of either document is without a namesake in the other. */
  lemma EveryClaimHasNamesake(f: Names, g: Names, d: Doc, e: Doc)
    requires DocInv(d) && DocInv(e) && SameUpTo(f, g, d, e)
    ensures e.lives.Keys == NewIds(f, d.lives.Keys)
  {
    hide Keyed, UniqueKeys, OwnIds, SameUpTo;
    forall id ensures id in OwnIds(e.versions) <==> id in NewIds(f, OwnIds(d.versions)) {
      if id in OwnIds(e.versions) {
        NewClaimHasNamesake(f, g, d, e, id);
      }
      if id in NewIds(f, OwnIds(d.versions)) {
        var x :| x in OwnIds(d.versions) && id == f(x);
        OldClaimHasNamesake(f, g, d, e, x);
      }
    }
  }

  lemma SameFacts(f: Names, g: Names, j: Judge, d: Doc, e: Doc)
    requires Injective(f) && IgnoresIds(j) && DocInv(d) && DocInv(e) && SameUpTo(f, g, d, e) && SameOutside(f, d, e)
    ensures NeededFacts(j, e.versions, e.lives) == NewFacts(f, g, NeededFacts(j, d.versions, d.lives))
    ensures SuspectsOf(e.versions, e.lives) == NewIds(g, SuspectsOf(d.versions, d.lives))
  {
    hide Keyed, UniqueKeys, InOrder, External, FactsUpTo, SuspectIds, Injective, IgnoresIds, NewClaims, SameUpTo,
      NewFacts, NewIds, OwnIds;
    SameOrder(f, g, d, e);
    OrderKeepsMembers(d.versions);
    OrderKeepsMembers(e.versions);
    NoIds(g);
    NoFacts(f, g);
    var vs := InOrder(d.versions);
    if vs != [] {
      FactsUpToRenamed(f, g, j, vs, Outside(d), |vs| - 1);
      SuspectIdsRenamed(f, g, j, vs, Outside(d), |vs| - 1);
    }
  }

  /** History independence. Two runs that end in a reconcile over the same versions with the same claims, the
      same of them superseded from outside, up to the numbers rows were given, leave the same status, `valid_to`
      and successor on every claim and the same superseded and retracted events: whatever the order in which
      versions arrived, claims were extracted and other documents' claims superseded them, and wherever
      reconciles happened in between. */
  lemma HistoryIndependence(f: Names, g: Names, j: Judge, a: seq<Doc>, b: seq<Doc>)
    requires Timeline(j, a) && Timeline(j, b) && EndsInReconcile(j, a) && EndsInReconcile(j, b)
    requires Injective(f) && IgnoresIds(j) && SameUpTo(f, g, Last(a), Last(b)) && SameOutside(f, Last(a), Last(b))
    ensures Last(b).lives.Keys == NewIds(f, Last(a).lives.Keys)
    ensures forall id :: id in Last(a).lives ==>
      f(id) in Last(b).lives && Last(b).lives[f(id)] == RenamedLife(f, Last(a).lives[id])
    ensures Facts(Last(b).events) == NewFacts(f, g, Facts(Last(a).events))
  {
    hide Timeline, DocInv, Settled, NeededFacts, UniqueKeys, Facts, Injective, IgnoresIds, NewIds, NewFacts,
      SameOutside;
    var d, e := a[|a| - 2], b[|b| - 2];
    TimelineInv(j, a, |a| - 2);
    TimelineInv(j, b, |b| - 2);
    TimelineInv(j, a, |a| - 1);
    TimelineInv(j, b, |b| - 1);
    EveryClaimHasNamesake(f, g, Last(a), Last(b));
    SameKeys(j, d, Last(a));
    SameOutsideBefore(f, j, d, Last(a), e, Last(b));
    forall id | id in Last(a).lives
      ensures f(id) in Last(b).lives && Last(b).lives[f(id)] == RenamedLife(f, Last(a).lives[id]) {
      SameFate(f, g, j, d, e, id);
    }
    SameFacts(f, g, j, d, e);
  }

  lemma SameKeys(j: Judge, d: Doc, d': Doc)
    requires Reconciled(j, d, d')
    ensures d'.lives.Keys == d.lives.Keys
  {
    hide Settled, NeededFacts, UniqueKeys, Facts, SuspectsOf;
    SettledKeys(j, d.versions, d.lives);
  }

  /** What is the same from outside after the last reconciles was so before. */
  lemma SameOutsideBefore(f: Names, j: Judge, d: Doc, d': Doc, e: Doc, e': Doc)
    requires DocInv(d) && DocInv(e) && Reconciled(j, d, d') && Reconciled(j, e, e') && SameOutside(f, d', e')
    ensures SameOutside(f, d, e)
  {
    hide DocInv, Reconciled, Outside, NewIds;
    OutsideStays(j, d, d');
    OutsideStays(j, e, e');
    forall id | id in Outside(d)
      ensures id in d.lives && f(id) in e.lives && e.lives[f(id)] == RenamedLife(f, d.lives[id]) {
      IdIsRenamedTo(f, Outside(d), id);
    }
  }

  lemma IdIsRenamedTo(f: Names, ids: set<nat>, x: nat)
    requires x in ids
    ensures f(x) in NewIds(f, ids)
  {
  }

  // ----- marks on suspect versions ------------------------------------------------------------

  /** The marks the versions and claims of a state call for. */
  ghost function Marks(d: Doc): set<nat> {
    SuspectsOf(d.versions, d.lives)
  }

  lemma StepMarks(j: Judge, d: Doc, d': Doc)
    requires Step(j, d, d')
    ensures d.suspects <= d'.suspects
    ensures Reconciled(j, d, d') ==> d'.suspects == d.suspects + Marks(d)
    ensures !Reconciled(j, d, d') ==> d'.suspects == d.suspects
  {
    hide Settled, NeededFacts, SuspectsOf, UniqueKeys, Facts, Fits, WithClaim;
  }

  lemma {:induction false} MarksUpTo(j: Judge, ds: seq<Doc>, n: nat, all: set<nat>)
    requires Timeline(j, ds) && n < |ds|
    requires forall i, k :: 0 <= i && k == i + 1 <= n && Reconciled(j, ds[i], ds[k]) ==> Marks(ds[i]) <= all
    ensures ds[n].suspects <= all
  {
    hide Step, Reconciled, Marks;
    if n > 0 {
      MarksUpTo(j, ds, n - 1, all);
      StepOf(j, ds, n - 1);
      StepMarks(j, ds[n - 1], ds[n]);
    }
  }

  lemma {:induction false} MarksStay(j: Judge, ds: seq<Doc>, i: nat, n: nat)
    requires Timeline(j, ds) && i < n < |ds| && Reconciled(j, ds[i], ds[i + 1])
    ensures Marks(ds[i]) <= ds[n].suspects
  {
    hide Step, Reconciled, Marks;
    StepOf(j, ds, n - 1);
    StepMarks(j, ds[n - 1], ds[n]);
    if i < n - 1 {
      MarksStay(j, ds, i, n - 1);
    }
  }

  /** Marks are never taken back: after a run that ends in a reconcile they are what the final versions
      call for exactly when no earlier reconcile called for another. */
  lemma MarksAreFinalIff(j: Judge, ds: seq<Doc>)
    requires Timeline(j, ds) && EndsInReconcile(j, ds)
    ensures Last(ds).suspects == Marks(ds[|ds| - 2]) <==>
      forall i, k :: 0 <= i && k == i + 1 < |ds| && Reconciled(j, ds[i], ds[k]) ==> Marks(ds[i]) <= Marks(ds[|ds| - 2])
  {
    hide Timeline, Reconciled, Marks;
    var final := Marks(ds[|ds| - 2]);
    MarksStay(j, ds, |ds| - 2, |ds| - 1);
    if forall i, k :: 0 <= i && k == i + 1 < |ds| && Reconciled(j, ds[i], ds[k]) ==> Marks(ds[i]) <= final {
      MarksUpTo(j, ds, |ds| - 1, final);
    }
    if Last(ds).suspects == final {
      forall i, k | 0 <= i && k == i + 1 < |ds| && Reconciled(j, ds[i], ds[k]) ensures Marks(ds[i]) <= final {
        MarksStay(j, ds, i, |ds| - 1);
      }
    }
  }

  /** The class's own rows satisfy the relation the runs are made of. */
  method ReconcileRows(ledger: Ledger, j: Judge, now: int, selected: seq<nat>)
      returns (ghost before: Doc, ghost after: Doc)
    requires ledger.Valid() && forall id ::
      id in selected <==> ConflictEvents.IsOwn(ledger.resolutions, OwnIds(ledger.versions), id)
    modifies ledger
    ensures ledger.Valid() && before ==
      Doc(old(ledger.versions), old(ledger.lives), old(ledger.events), old(ledger.suspects))
    ensures after == Doc(ledger.versions, ledger.lives, ledger.events, ledger.suspects) && Reconciled(j, before, after)
  {
    before := Doc(ledger.versions, ledger.lives, ledger.events, ledger.suspects);
    hide Settled, NeededFacts, UniqueKeys, Facts, SuspectsOf, Closings, Resolved, OnePerRelation;
    ledger.Reconcile(j, now, selected);
    after := Doc(ledger.versions, ledger.lives, ledger.events, ledger.suspects);
  }

  // ----- two runs that differ in their marks ---------------------------------------------------

  const LONG := Version(1, 0, 100, [])
  const SHORT := Version(2, 10, 10, [])
  const MIDDLE := Version(3, 5, 25, [])

  /** The state of a document whose versions have no claims. */
  function Bare(vs: seq<Version>, suspects: set<nat>): Doc {
    Doc(vs, map[], {}, suspects)
  }

  ghost predicate Claimless(vs: seq<Version>) {
    forall v :: v in vs ==> v.claims == []
  }

  lemma NothingMatched(j: Judge, suspect: bool)
    ensures Matched(j, [], [], suspect) == []
  {
    assert ExactPass(j, [], []) == [] && Candidates(j, Without([], {}), Without([], {})) == [];
  }

  lemma {:induction false} NoFactsWithoutClaims(j: Judge, vs: seq<Version>, n: nat)
    requires (n == 0 || n < |vs|) && Claimless(vs)
    ensures FactsUpTo(j, vs, {}, n) == {}
  {
    if n > 0 {
      NoFactsWithoutClaims(j, vs, n - 1);
      assert vs[n - 1] in vs && vs[n] in vs;
      NothingMatched(j, SuspectAt(vs, {}, n - 1));
      assert MatchesAt(j, vs, {}, n - 1) == [];
    }
  }

  /** A reconcile of claimless versions only sets marks. */
  lemma BareReconciled(j: Judge, vs: seq<Version>, suspects: set<nat>)
    requires Claimless(vs)
    ensures Reconciled(j, Bare(vs, suspects), Bare(vs, suspects + SuspectsOf(vs, map[])))
  {
    OrderKeepsMembers(vs);
    SettledKeys(j, vs, map[]);
    assert Settled(j, vs, map[]) == map[];
    var ordered := InOrder(vs);
    assert OwnIds(ordered) == {} && External({}, map[]) == {};
    if ordered != [] {
      NoFactsWithoutClaims(j, ordered, |ordered| - 1);
    }
  }

  lemma BareIngested(vs: seq<Version>, v: Version, suspects: set<nat>)
    requires v.claims == [] && forall w :: w in vs ==> w.id != v.id && w.effectiveAt != v.effectiveAt
    ensures Ingested(Bare(vs, suspects), Bare(vs + [v], suspects))
  {
    var d := Bare(vs, suspects);
    assert FreshLives(IdsOf(v.claims)) == map[];
    assert Fits(d, v) && Bare(vs + [v], suspects) ==
      d.(versions := d.versions + [v], lives := d.lives + FreshLives(IdsOf(v.claims)));
  }

  /** The marks the two sets of versions call for. */
  lemma MarksOfThree()
    ensures SuspectsOf([LONG, SHORT], map[]) == {2} && SuspectsOf([LONG, SHORT, MIDDLE], map[]) == {3}
  {
    var a, b, c := LONG, SHORT, MIDDLE;
    assert InOrder([b]) == [b] && InOrder([c]) == [c];
    assert InOrder([a, b]) == [a, b] by { assert [a, b][1..] == [b]; }
    assert InOrder([b, c]) == [c, b] by { assert [b, c][1..] == [c]; assert Place(b, [c]) == [c] + Place(b, []); }
    assert InOrder([a, b, c]) == [a, c, b] by { assert [a, b, c][1..] == [b, c]; }
    assert OwnIds([a, b]) == {} && OwnIds([a, c, b]) == {};
    assert External({}, map[]) == {};
    var two, three := [a, b], [a, c, b];
    assert SuspectAt(two, {}, 0) && SuspectAt(three, {}, 0) && !SuspectAt(three, {}, 1);
    assert SuspectIds(two, {}, 1) == SuspectIds(two, {}, 0) + {2};
    assert SuspectIds(three, {}, 2) == SuspectIds(three, {}, 1)
      && SuspectIds(three, {}, 1) == SuspectIds(three, {}, 0) + {3};
  }

  lemma MarkedEarly(j: Judge) returns (a: seq<Doc>)
    ensures Timeline(j, a) && EndsInReconcile(j, a) && Last(a) == Bare([LONG, SHORT, MIDDLE], {2, 3})
  {
    hide Ingested, Extracted, Overtaken, Reconciled, SuspectsOf, Bare;
    var one, two, three := [LONG], [LONG, SHORT], [LONG, SHORT, MIDDLE];
    assert [] + [LONG] == one && one + [SHORT] == two && two + [MIDDLE] == three;
    assert {} + {2} == {2} && {2} + {3} == {2, 3};
    a := [Bare([], {}), Bare(one, {}), Bare(two, {}), Bare(two, {2}), Bare(three, {2}), Bare(three, {2, 3})];
    BareIsEmpty();
    BareIngested([], LONG, {});
    BareIngested(one, SHORT, {});
    BareIngested(two, MIDDLE, {2});
    MarksOfThree();
    BareReconciled(j, two, {});
    BareReconciled(j, three, {2});
    forall i, k | 0 <= i && k == i + 1 < |a| ensures Step(j, a[i], a[k]) {
    }
  }

  lemma MarkedLate(j: Judge) returns (b: seq<Doc>)
    ensures Timeline(j, b) && EndsInReconcile(j, b) && Last(b) == Bare([LONG, SHORT, MIDDLE], {3})
  {
    hide Ingested, Extracted, Overtaken, Reconciled, SuspectsOf, Bare;
    var one, two, three := [LONG], [LONG, SHORT], [LONG, SHORT, MIDDLE];
    assert [] + [LONG] == one && one + [SHORT] == two && two + [MIDDLE] == three;
    assert {} + {3} == {3};
    b := [Bare([], {}), Bare(one, {}), Bare(two, {}), Bare(three, {}), Bare(three, {3})];
    BareIsEmpty();
    BareIngested([], LONG, {});
    BareIngested(one, SHORT, {});
    BareIngested(two, MIDDLE, {});
    MarksOfThree();
    BareReconciled(j, three, {});
    forall i, k | 0 <= i && k == i + 1 < |b| ensures Step(j, b[i], b[k]) {
    }
  }

  lemma BareIsEmpty()
    ensures Bare([], {}) == EMPTY
  {
  }

  /** Two runs over the same versions whose marks differ: the first reconciles before a version arrives
      between two others that explains why the later one is short, the second does not. */
  lemma MarksDependOnHistory(j: Judge) returns (a: seq<Doc>, b: seq<Doc>)
    ensures Timeline(j, a) && Timeline(j, b) && EndsInReconcile(j, a) && EndsInReconcile(j, b)
    ensures Last(a).versions == Last(b).versions && Last(a).suspects == {2, 3} && Last(b).suspects == {3}
  {
    hide Timeline, EndsInReconcile;
    a := MarkedEarly(j);
    b := MarkedLate(j);
  }
}
