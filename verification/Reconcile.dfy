/** Whole-document reconciliation (app/temporal/reconcile.py): reset, walk the versions in order,
    rewrite each claim's lifecycle and the reconcile events, then open or close contradictions. */
module Reconcile {
  import opened Common
  import opened Matching
  import opened MatchingTheorems
  import ConflictEvents

  /** One version's immutable part: when it was true, how long its text is, its claims in text order. */
  datatype Version = Version(id: nat, effectiveAt: int, textLength: nat, claims: seq<Claim>)

  datatype Status = Active | Carried | Superseded | Retracted

  /** The mutable bookkeeping of a claim. */
  datatype Life = Life(status: Status, validTo: Option<int>, supersededBy: Option<nat>)

  type Lives = map<nat, Life>

  const FRESH := Life(Active, None, None)

  datatype Kind = WasSuperseded | WasRetracted

  datatype Fact = Fact(kind: Kind, claim: nat, successor: Option<nat>, version: nat, at: int)

  /** A claim event written by reconciliation; `id` and `observedAt` survive a recomputation that needs it again. */
  datatype Event = Event(id: nat, fact: Fact, observedAt: int)

  datatype Key = Key(kind: Kind, claim: nat, successor: Option<nat>, version: nat)

  function KeyOf(f: Fact): Key {
    Key(f.kind, f.claim, f.successor, f.version)
  }

  /** A contradiction between two claims, possibly of different documents. */
  datatype Contradiction = Contradiction(a: nat, b: nat, rejected: bool, resolvedAt: Option<int>)

  // ----- versions in time order ---------------------------------------------------------------

  predicate Earlier(v: Version, w: Version) {
    v.effectiveAt < w.effectiveAt || (v.effectiveAt == w.effectiveAt && v.id <= w.id)
  }

  function Place(v: Version, vs: seq<Version>): seq<Version> {
    if vs == [] || Earlier(v, vs[0]) then [v] + vs else [vs[0]] + Place(v, vs[1..])
  }

  /** ORDER BY effective_at, id */
  function InOrder(vs: seq<Version>): seq<Version> {
    if vs == [] then [] else Place(vs[0], InOrder(vs[1..]))
  }

  function IdsOf(claims: seq<Claim>): set<nat> {
    set c | c in claims :: c.id
  }

  /** When each claim was asserted. */
  function Dates(claims: seq<Claim>): (d: map<nat, int>)
    ensures d.Keys == IdsOf(claims)
  {
    if claims == [] then map[]
      else Dates(claims[..|claims| - 1])[claims[|claims| - 1].id := claims[|claims| - 1].assertedAt]
  }

  function FreshLives(ids: set<nat>): Lives {
    map c | c in ids :: FRESH
  }

  lemma FreshKeys(ids: set<nat>)
    ensures FreshLives(ids).Keys == ids
  {
  }

  lemma DatesKeys(claims: seq<Claim>)
    ensures Dates(claims).Keys == IdsOf(claims)
  {
  }

  function OwnIds(vs: seq<Version>): set<nat> {
    set v, c | v in vs && c in v.claims :: c.id
  }

  // ----- the recomputation as functions -------------------------------------------------------

  /** Own claims that a claim of another document has superseded. */
  function External(own: set<nat>, lives: Lives): set<nat> {
    set c | c in own && c in lives && lives[c].supersededBy.Some? && lives[c].supersededBy.value !in own
  }

  function Reset(own: set<nat>, external: set<nat>, lives: Lives): (r: Lives)
    ensures r.Keys == lives.Keys
  {
    map c | c in lives :: if c in own && c !in external then FRESH else lives[c]
  }

  /** A version much shorter than the one before it, or emptied of claims, is not believed to retract anything. */
  predicate Suspect(prev: Version, curr: Version, prevClaims: seq<Claim>) {
    (prev.textLength > 0 && 10 * curr.textLength < 3 * prev.textLength) || (|prevClaims| >= 5 && |curr.claims| == 0)
  }

  /** The matching between version `i` and the next. */
  function MatchesAt(j: Judge, vs: seq<Version>, external: set<nat>, i: nat): seq<Match>
    requires i + 1 < |vs|
  {
    var prevClaims := Without(vs[i].claims, external);
    Matched(j, prevClaims, vs[i + 1].claims, Suspect(vs[i], vs[i + 1], prevClaims))
  }

  function NewLife(m: Match, at: int, life: Life): Life {
    match m.outcome
    case SuspectRetained => life
    case Retracted => life.(status := Status.Retracted, validTo := Some(at))
    case Carried => life.(status := Status.Carried, supersededBy := SuccessorId(m, life))
    case Superseded => life.(status := Status.Superseded, supersededBy := SuccessorId(m, life), validTo := Some(at))
  }

  function SuccessorId(m: Match, life: Life): Option<nat> {
    if m.successor.Some? then Some(m.successor.value.id) else life.supersededBy
  }

  function ApplyOne(m: Match, at: int, lives: Lives): Lives {
    if m.previous.id in lives then lives[m.previous.id := NewLife(m, at, lives[m.previous.id])] else lives
  }

  function Apply(ms: seq<Match>, at: int, lives: Lives): Lives {
    if ms == [] then lives else ApplyOne(ms[|ms| - 1], at, Apply(ms[..|ms| - 1], at, lives))
  }

  /** The bookkeeping after the reset and the first `n` pairs of consecutive versions. */
  function Walked(j: Judge, vs: seq<Version>, external: set<nat>, n: nat, lives: Lives): Lives
    requires n == 0 || n < |vs|
  {
    if n == 0 then Reset(OwnIds(vs), external, lives)
    else Apply(MatchesAt(j, vs, external, n - 1), vs[n].effectiveAt, Walked(j, vs, external, n - 1, lives))
  }

  function Settled(j: Judge, versions: seq<Version>, lives: Lives): Lives {
    var vs := InOrder(versions);
    if vs == [] then lives else Walked(j, vs, External(OwnIds(vs), lives), |vs| - 1, lives)
  }

  /** The event a match calls for. */
  function FactOf(m: Match, version: nat, at: int): set<Fact> {
    match m.outcome
    case Retracted => {Fact(WasRetracted, m.previous.id, None, version, at)}
    case Superseded => {Fact(
      WasSuperseded, m.previous.id, if m.successor.Some? then Some(m.successor.value.id) else None, version, at)}
    case _ => {}
  }

  function FactsOf(ms: seq<Match>, version: nat, at: int): set<Fact> {
    if ms == [] then {} else FactsOf(ms[..|ms| - 1], version, at) + FactOf(ms[|ms| - 1], version, at)
  }

  function FactsUpTo(j: Judge, vs: seq<Version>, external: set<nat>, n: nat): set<Fact>
    requires n == 0 || n < |vs|
  {
    if n == 0 then {}
    else
      FactsUpTo(j, vs, external, n - 1) + FactsOf(MatchesAt(j, vs, external, n - 1), vs[n].id, vs[n].effectiveAt)
  }

  function NeededFacts(j: Judge, versions: seq<Version>, lives: Lives): set<Fact> {
    var vs := InOrder(versions);
    if vs == [] then {} else FactsUpTo(j, vs, External(OwnIds(vs), lives), |vs| - 1)
  }

  predicate Live(lives: Lives, c: nat) {
    c in lives && (lives[c].status == Active || lives[c].status == Status.Carried)
  }

  /** What the conflict pass makes of one contradiction. */
  function Reviewed(own: set<nat>, lives: Lives, now: int, r: Contradiction): Contradiction {
    if r.rejected || !(r.a in own || r.b in own) || r.a !in lives || r.b !in lives then r
    else if Live(lives, r.a) && Live(lives, r.b) then r.(resolvedAt := None)
    else if r.resolvedAt.None? then r.(resolvedAt := Some(now))
    else r
  }

  // ----- closing a contradiction --------------------------------------------------------------

  type Closing = ConflictEvents.Closing

  /** The contradiction touches the document and does not stand. */
  predicate ClosesNow(own: set<nat>, lives: Lives, r: Contradiction) {
    && !r.rejected && (r.a in own || r.b in own) && r.a in lives && r.b in lives
    && !(Live(lives, r.a) && Live(lives, r.b))
  }

  /** The first side that is no longer current. */
  function InactiveSide(lives: Lives, r: Contradiction): nat {
    if !Live(lives, r.a) then r.a else r.b
  }

  /** When a claim stopped being current: its successor's instant, else its own end, else its beginning. */
  function WorldTime(lives: Lives, assertedAt: map<nat, int>, c: nat, now: int): int
    requires c in lives
  {
    if lives[c].supersededBy.Some? && lives[c].supersededBy.value in assertedAt
      then assertedAt[lives[c].supersededBy.value]
    else if lives[c].validTo.Some? then lives[c].validTo.value
    else if c in assertedAt then assertedAt[c]
    else now
  }

  function NameOf(s: Status): string {
    match s
    case Active => "active"
    case Carried => "carried"
    case Superseded => "superseded"
    case Retracted => "retracted"
  }

  function ClosingOf(lives: Lives, assertedAt: map<nat, int>, r: Contradiction, now: int): Closing
    requires r.a in lives && r.b in lives
  {
    var c := InactiveSide(lives, r);
    ConflictEvents.Closing(c, if c == r.a then r.b else r.a, WorldTime(lives, assertedAt, c, now),
                           "claim " + NameOf(lives[r.a].status) + "/" + NameOf(lives[r.b].status))
  }

  /** What the conflict pass closes, in the order of the relations. */
  function Closings(own: set<nat>, lives: Lives, assertedAt: map<nat, int>, rs: seq<Contradiction>,
      now: int): seq<Closing> {
    if rs == [] then []
    else
      var r := rs[|rs| - 1];
      Closings(own, lives, assertedAt, rs[..|rs| - 1], now) + if ClosesNow(own, lives, r)
        then [ClosingOf(lives, assertedAt, r, now)] else []
  }

  /** There is one relation per pair of claims. */
  ghost predicate OnePerRelation(rs: seq<Contradiction>) {
    forall i, k :: 0 <= i < k < |rs| ==> Sides(rs[i]) != Sides(rs[k])
  }

  function Sides(r: Contradiction): set<nat> {
    {r.a, r.b}
  }

  lemma {:induction false} ClosingsCome(
      own: set<nat>, lives: Lives, assertedAt: map<nat, int>, rs: seq<Contradiction>, now: int, x: nat)
    requires x < |Closings(own, lives, assertedAt, rs, now)|
    ensures exists k ::
      0 <= k < |rs| && ClosesNow(own, lives, rs[k])
      && ConflictEvents.PairOf(Closings(own, lives, assertedAt, rs, now)[x]) == Sides(rs[k])
  {
    var init := rs[..|rs| - 1];
    if x < |Closings(own, lives, assertedAt, init, now)| {
      ClosingsCome(own, lives, assertedAt, init, now, x);
      var k :| 0 <= k < |init| && ClosesNow(own, lives, init[k])
        && ConflictEvents.PairOf(Closings(own, lives, assertedAt, init, now)[x]) == Sides(init[k]);
      assert rs[k] == init[k];
    }
  }

  lemma {:induction false} ClosingsArePerPair(
      own: set<nat>, lives: Lives, assertedAt: map<nat, int>, rs: seq<Contradiction>, now: int)
    requires OnePerRelation(rs)
    ensures ConflictEvents.OnePerPair(Closings(own, lives, assertedAt, rs, now))
  {
    hide ClosesNow;
    if rs != [] {
      var n := |rs| - 1;
      ClosingsArePerPair(own, lives, assertedAt, rs[..n], now);
      var before := Closings(own, lives, assertedAt, rs[..n], now);
      forall x | 0 <= x < |before| ensures ConflictEvents.PairOf(before[x]) != Sides(rs[n]) {
        ClosingsCome(own, lives, assertedAt, rs[..n], now, x);
        var k :| 0 <= k < n && ConflictEvents.PairOf(before[x]) == Sides(rs[..n][k]);
        assert rs[..n][k] == rs[k];
      }
    }
  }

  // ----- event rows ---------------------------------------------------------------------------

  ghost predicate UniqueKeys(events: set<Event>) {
    forall e, f :: e in events && f in events && KeyOf(e.fact) == KeyOf(f.fact) ==> e == f
  }

  ghost function Facts(events: set<Event>): set<Fact> {
    set e | e in events :: e.fact
  }

  /** Midway from the rows `start`: each row is either still pending under its key, or records a fact found
      needed; a row of `start` whose key is needed again keeps its id and observation time. */
  ghost predicate Sorting(start: set<Event>, events: set<Event>, pending: map<Key, Event>, done: set<Fact>) {
    && UniqueKeys(events)
    && (forall k :: k in pending ==> pending[k] in events && KeyOf(pending[k].fact) == k)
    && (forall e :: e in events ==> (KeyOf(e.fact) in pending) != (e.fact in done))
    && (forall f :: f in done ==> f in Facts(events))
    && (forall e :: e in start ==> (KeyOf(e.fact) in pending && pending[KeyOf(e.fact)] == e) || Renewed(e, events))
  }

  ghost predicate Renewed(e: Event, events: set<Event>) {
    exists f :: KeyOf(f) == KeyOf(e.fact) && Event(e.id, f, e.observedAt) in events
  }

  lemma ReuseKeepsSorting(start: set<Event>, events: set<Event>, pending: map<Key, Event>, done: set<Fact>, fact: Fact)
    requires Sorting(start, events, pending, done) && KeyOf(fact) in pending
    ensures var row := pending[KeyOf(fact)];
            Sorting(start, events - {row} + {row.(fact := fact)}, pending - {KeyOf(fact)}, done + {fact})
  {
    var k := KeyOf(fact);
    var row := pending[k];
    var e := row.(fact := fact);
    var events', pending', done' := events - {row} + {e}, pending - {k}, done + {fact};
    forall x | x in events' ensures (KeyOf(x.fact) in pending') != (x.fact in done') {
      if x != e {
        assert x in events && x != row;
        assert KeyOf(x.fact) != k;
      }
    }
    forall f | f in done' ensures f in Facts(events') {
      if f == fact {
        assert e in events';
      } else {
        var x :| x in events && x.fact == f;
        assert x in events';
      }
    }
    forall x | x in start ensures (KeyOf(x.fact) in pending' && pending'[KeyOf(x.fact)] == x) || Renewed(x, events') {
      if x == row {
        assert Event(x.id, fact, x.observedAt) in events';
      } else if Renewed(x, events) {
        var f :| KeyOf(f) == KeyOf(x.fact) && Event(x.id, f, x.observedAt) in events;
        if Event(x.id, f, x.observedAt) == row {
          assert Event(x.id, fact, x.observedAt) == e;
        } else {
          assert Event(x.id, f, x.observedAt) in events';
        }
      }
    }
  }

  lemma AddKeepsSorting(start: set<Event>, events: set<Event>, pending: map<Key, Event>, done: set<Fact>, e: Event)
    requires Sorting(start, events, pending, done) && KeyOf(e.fact) !in pending
    requires forall f :: f in done ==> KeyOf(f) != KeyOf(e.fact)
    ensures Sorting(start, events + {e}, pending, done + {e.fact})
  {
    var events', done' := events + {e}, done + {e.fact};
    forall x | x in events ensures KeyOf(x.fact) != KeyOf(e.fact) {
      assert (KeyOf(x.fact) in pending) != (x.fact in done);
    }
    assert e in events';
    forall f | f in done' ensures f in Facts(events') {
      if f in done {
        var x :| x in events && x.fact == f;
        assert x in events';
      }
    }
    forall x | x in start && Renewed(x, events) ensures Renewed(x, events') {
      var f :| KeyOf(f) == KeyOf(x.fact) && Event(x.id, f, x.observedAt) in events;
      assert Event(x.id, f, x.observedAt) in events';
    }
  }

  /** Version ids and claim ids are primary keys. */
  ghost predicate Keyed(vs: seq<Version>) {
    && DistinctVersions(vs)
    && (forall v :: v in vs ==> DistinctIds(v.claims))
    && (forall v, w :: v in vs && w in vs && v.id != w.id ==> NoClaimShared(v, w))
  }

  ghost predicate NoClaimShared(v: Version, w: Version) {
    forall c, d :: c in v.claims && d in w.claims ==> c.id != d.id
  }

  ghost predicate DistinctVersions(vs: seq<Version>) {
    forall i, k :: 0 <= i < k < |vs| ==> vs[i].id != vs[k].id
  }

  function SuspectAt(vs: seq<Version>, external: set<nat>, i: nat): bool
    requires i + 1 < |vs|
  {
    Suspect(vs[i], vs[i + 1], Without(vs[i].claims, external))
  }

  function SuspectIds(vs: seq<Version>, external: set<nat>, n: nat): set<nat>
    requires n == 0 || n < |vs|
  {
    if n == 0 then {} else SuspectIds(vs, external, n - 1) + (if SuspectAt(vs, external, n - 1) then {vs[n].id} else {})
  }

  function SuspectsOf(versions: seq<Version>, lives: Lives): set<nat> {
    var vs := InOrder(versions);
    if vs == [] then {} else SuspectIds(vs, External(OwnIds(vs), lives), |vs| - 1)
  }

  // ----- which claims the matches and facts are about -----------------------------------------

  lemma MatchesAreOfPrevious(j: Judge, vs: seq<Version>, external: set<nat>, i: nat)
    requires i + 1 < |vs| && Keyed(vs)
    ensures OneToOne(MatchesAt(j, vs, external, i))
    ensures forall m :: m in MatchesAt(j, vs, external, i) ==>
      m.previous in vs[i].claims && m.previous.id !in external
        && (m.successor.Some? ==> m.successor.value in vs[i + 1].claims)
    ensures forall m :: m in MatchesAt(j, vs, external, i) ==>
      (m.successor.Some? <==> m.outcome == Outcome.Carried || m.outcome == Outcome.Superseded)
  {
    var prevClaims := Without(vs[i].claims, external);
    assert vs[i] in vs && vs[i + 1] in vs;
    WithoutKeepsDistinct(vs[i].claims, external);
    MatchingIsOneToOne(j, prevClaims, vs[i + 1].claims, SuspectAt(vs, external, i));
    forall m | m in MatchesAt(j, vs, external, i) ensures m.previous in vs[i].claims && m.previous.id !in external {
      WithoutFacts(vs[i].claims, external, m.previous);
    }
  }

  lemma {:induction false} WithoutKeepsDistinct(claims: seq<Claim>, used: set<nat>)
    requires DistinctIds(claims)
    ensures DistinctIds(Without(claims, used))
  {
    if claims != [] {
      var n := |claims| - 1;
      WithoutKeepsDistinct(claims[..n], used);
      var rest := Without(claims[..n], used);
      forall i | 0 <= i < |rest| ensures rest[i].id != claims[n].id {
        WithoutFacts(claims[..n], used, rest[i]);
        assert rest[i] in claims[..n];
      }
    }
  }

  lemma {:induction false} FactsOfMatches(ms: seq<Match>, version: nat, at: int, f: Fact)
    requires f in FactsOf(ms, version, at)
    ensures exists i :: 0 <= i < |ms| && f.claim == ms[i].previous.id
  {
    var n := |ms| - 1;
    if f in FactsOf(ms[..n], version, at) {
      FactsOfMatches(ms[..n], version, at, f);
      var i :| 0 <= i < n && f.claim == ms[..n][i].previous.id;
      assert f.claim == ms[i].previous.id;
    } else {
      assert f.claim == ms[n].previous.id;
    }
  }

  ghost predicate ClaimOf(vs: seq<Version>, n: nat, id: nat) {
    exists i, c :: 0 <= i < n && i < |vs| && c in vs[i].claims && c.id == id
  }

  lemma {:induction false} FactsAreOfEarlier(j: Judge, vs: seq<Version>, external: set<nat>, n: nat, f: Fact)
    requires Keyed(vs) && (n == 0 || n < |vs|) && f in FactsUpTo(j, vs, external, n)
    ensures ClaimOf(vs, n, f.claim)
  {
    hide Keyed, FactsOf, MatchesAt, OneToOne;
    if f in FactsUpTo(j, vs, external, n - 1) {
      FactsAreOfEarlier(j, vs, external, n - 1, f);
      var i, c :| 0 <= i < n - 1 && i < |vs| && c in vs[i].claims && c.id == f.claim;
    } else {
      var ms := MatchesAt(j, vs, external, n - 1);
      FactsOfMatches(ms, vs[n].id, vs[n].effectiveAt, f);
      MatchesAreOfPrevious(j, vs, external, n - 1);
      var i :| 0 <= i < |ms| && f.claim == ms[i].previous.id;
      assert ms[i] in ms;
    }
  }

  /** The next match's claim has no event yet. */
  lemma NewKey(j: Judge, vs: seq<Version>, external: set<nat>, n: nat, i: nat)
    requires n + 1 < |vs| && Keyed(vs) && i < |MatchesAt(j, vs, external, n)|
    ensures var ms := MatchesAt(j, vs, external, n);
      && ms[i].previous.id in OwnIds(vs)
      && forall f :: f in FactsUpTo(j, vs, external, n) + FactsOf(ms[..i], vs[n + 1].id, vs[n + 1].effectiveAt) ==>
           f.claim != ms[i].previous.id
  {
    var ms := MatchesAt(j, vs, external, n);
    MatchesAreOfPrevious(j, vs, external, n);
    assert ms[i] in ms && vs[n] in vs;
    forall f | f in FactsUpTo(j, vs, external, n) ensures f.claim != ms[i].previous.id {
      FactsAreOfEarlier(j, vs, external, n, f);
      EarlierClaimsDiffer(vs, n, f.claim, ms[i].previous);
    }
    forall f | f in FactsOf(ms[..i], vs[n + 1].id, vs[n + 1].effectiveAt) ensures f.claim != ms[i].previous.id {
      FactsOfMatches(ms[..i], vs[n + 1].id, vs[n + 1].effectiveAt, f);
      var k :| 0 <= k < i && f.claim == ms[..i][k].previous.id;
      assert ms[k].previous.id != ms[i].previous.id;
    }
  }

  lemma EarlierClaimsDiffer(vs: seq<Version>, n: nat, id: nat, c: Claim)
    requires Keyed(vs) && n < |vs| && ClaimOf(vs, n, id) && c in vs[n].claims
    ensures c.id != id
  {
    var i, d :| 0 <= i < n && i < |vs| && d in vs[i].claims && d.id == id;
    assert vs[i] in vs && vs[n] in vs && vs[i].id != vs[n].id;
  }

  // ----- ordering keeps the rows --------------------------------------------------------------

  lemma {:induction false} PlaceKeeps(v: Version, vs: seq<Version>)
    ensures multiset(Place(v, vs)) == multiset(vs) + multiset{v}
  {
    if vs != [] && !Earlier(v, vs[0]) {
      PlaceKeeps(v, vs[1..]);
      assert vs == [vs[0]] + vs[1..];
    }
  }

  lemma {:induction false} OrderKeeps(vs: seq<Version>)
    ensures multiset(InOrder(vs)) == multiset(vs)
  {
    if vs != [] {
      OrderKeeps(vs[1..]);
      PlaceKeeps(vs[0], InOrder(vs[1..]));
      assert vs == [vs[0]] + vs[1..];
    }
  }

  lemma OrderKeepsMembers(vs: seq<Version>)
    ensures |InOrder(vs)| == |vs| && OwnIds(InOrder(vs)) == OwnIds(vs)
    ensures forall v :: v in InOrder(vs) <==> v in vs
  {
    OrderKeeps(vs);
    assert |multiset(InOrder(vs))| == |multiset(vs)|;
    forall v ensures v in InOrder(vs) <==> v in vs {
      assert v in multiset(InOrder(vs)) <==> v in multiset(vs);
    }
  }

  lemma {:induction false} PlaceKeepsDistinct(v: Version, vs: seq<Version>)
    requires DistinctVersions(vs) && forall w :: w in vs ==> w.id != v.id
    ensures DistinctVersions(Place(v, vs))
  {
    if vs != [] && !Earlier(v, vs[0]) {
      PlaceKeepsDistinct(v, vs[1..]);
      PlaceKeeps(v, vs[1..]);
      var placed := Place(v, vs[1..]);
      forall k | 0 <= k < |placed| ensures placed[k].id != vs[0].id {
        assert placed[k] in multiset(placed);
        assert placed[k] == v || placed[k] in vs[1..];
      }
    }
  }

  lemma {:induction false} OrderKeepsDistinct(vs: seq<Version>)
    requires DistinctVersions(vs)
    ensures DistinctVersions(InOrder(vs))
  {
    if vs != [] {
      OrderKeepsDistinct(vs[1..]);
      OrderKeepsMembers(vs[1..]);
      PlaceKeepsDistinct(vs[0], InOrder(vs[1..]));
    }
  }

  lemma OrderKeepsKeyed(vs: seq<Version>)
    requires Keyed(vs)
    ensures Keyed(InOrder(vs))
  {
    OrderKeepsDistinct(vs);
    OrderKeepsMembers(vs);
  }

  lemma AddKeepsKeyed(vs: seq<Version>, v: Version, lives: Lives)
    requires Keyed(vs) && OwnIds(vs) <= lives.Keys && DistinctIds(v.claims)
      && forall c :: c in v.claims ==> c.id !in lives
    requires forall w :: w in vs ==> w.id != v.id
    ensures Keyed(vs + [v]) && OwnIds(vs + [v]) == OwnIds(vs) + IdsOf(v.claims)
  {
    assert forall w :: w in vs + [v] <==> w in vs || w == v;
    forall w, c | w in vs && c in w.claims ensures c.id in lives {
      assert c.id in OwnIds(vs);
    }
  }

  function Inserted(claims: seq<Claim>, place: nat, c: Claim): seq<Claim>
    requires place <= |claims|
  {
    claims[..place] + [c] + claims[place..]
  }

  /** Claims are listed in the order of the text, whenever they were extracted. */
  function WithClaim(vs: seq<Version>, i: nat, place: nat, c: Claim): seq<Version>
    requires i < |vs| && place <= |vs[i].claims|
  {
    vs[i := vs[i].(claims := Inserted(vs[i].claims, place, c))]
  }

  lemma InsertedAt(claims: seq<Claim>, place: nat, c: Claim, k: nat)
    requires place <= |claims| && k <= |claims|
    ensures Inserted(claims, place, c)[k] == if k < place then claims[k] else if k == place then c else claims[k - 1]
  {
  }

  lemma InsertedMembers(claims: seq<Claim>, place: nat, c: Claim)
    requires place <= |claims|
    ensures forall d :: d in Inserted(claims, place, c) <==> d in claims || d == c
  {
    assert claims == claims[..place] + claims[place..];
  }

  lemma InsertedIsDistinct(claims: seq<Claim>, place: nat, c: Claim)
    requires place <= |claims| && DistinctIds(claims) && forall d :: d in claims ==> d.id != c.id
    ensures DistinctIds(Inserted(claims, place, c))
  {
    hide Inserted;
    InsertedLength(claims, place, c);
    forall x, y | 0 <= x < y < |claims| + 1
      ensures Inserted(claims, place, c)[x].id != Inserted(claims, place, c)[y].id {
      InsertedAt(claims, place, c, x);
      InsertedAt(claims, place, c, y);
    }
  }

  lemma InsertedLength(claims: seq<Claim>, place: nat, c: Claim)
    requires place <= |claims|
    ensures |Inserted(claims, place, c)| == |claims| + 1
  {
  }

  lemma ClaimKeepsKeyed(vs: seq<Version>, i: nat, place: nat, c: Claim, known: set<nat>)
    requires Keyed(vs) && OwnIds(vs) <= known && i < |vs| && place <= |vs[i].claims| && c.id !in known
    ensures Keyed(WithClaim(vs, i, place, c)) && OwnIds(WithClaim(vs, i, place, c)) == OwnIds(vs) + {c.id}
  {
    hide Inserted;
    var now, was := WithClaim(vs, i, place, c), vs[i];
    var v := was.(claims := Inserted(was.claims, place, c));
    assert was in vs && now[i] == v && v in now;
    InsertedMembers(was.claims, place, c);
    forall d | d in was.claims ensures d.id != c.id {
      assert d.id in OwnIds(vs);
    }
    InsertedIsDistinct(was.claims, place, c);
    forall w, d | w in vs && d in w.claims ensures d.id in known && d.id != c.id {
      assert d.id in OwnIds(vs);
    }
    forall w | w in now ensures w == v || (w in vs && w.id != v.id) {
      var k :| 0 <= k < |now| && now[k] == w;
      if k != i {
        assert w == vs[k];
      }
    }
    assert DistinctVersions(now);
    forall id ensures id in OwnIds(now) <==> id in OwnIds(vs) || id == c.id {
      if w, d :| w in vs && d in w.claims && d.id == id {
        var k :| 0 <= k < |vs| && vs[k] == w;
        assert now[k] in now && d in now[k].claims;
      }
      assert c in v.claims;
    }
  }

  /** The rows by key, all of them pending. */
  function ByKey(events: set<Event>): (pending: map<Key, Event>)
    requires UniqueKeys(events)
    ensures Sorting(events, events, pending, {})
  {
    map e | e in events :: KeyOf(e.fact) := e
  }

  // ----- the recomputation --------------------------------------------------------------------

  /** One document's rows, with the bookkeeping of every claim its contradictions may touch. */
  class Ledger {
    var versions: seq<Version>
    var lives: Lives
    var events: set<Event>
    var nextEvent: nat
    var contradictions: seq<Contradiction>
    var suspects: set<nat>
    var assertedAt: map<nat, int>
    var resolutions: ConflictEvents.Log

    ghost predicate Valid()
      reads this
    {
      && Keyed(versions) && OwnIds(versions) <= lives.Keys && lives.Keys <= assertedAt.Keys
      && OnePerRelation(contradictions) && ConflictEvents.Numbered(resolutions)
      && UniqueKeys(events) && (forall e :: e in events ==> e.fact.claim in OwnIds(versions))
    }

    constructor ()
      ensures Valid() && versions == [] && lives == map[] && events == {} && contradictions == [] && suspects == {}
    {
      versions, lives, events, nextEvent, contradictions, suspects := [], map[], {}, 0, [], {};
      assertedAt, resolutions := map[], ConflictEvents.Log(map[], 0);
    }

    /** Ingest a version, with any claims it already has: they start active. */
    method AddVersion(v: Version)
      requires Valid() && DistinctIds(v.claims) && forall c :: c in v.claims ==> c.id !in lives
      requires forall w :: w in versions ==> w.id != v.id
      modifies this`versions, this`lives, this`assertedAt
      ensures Valid() && versions == old(versions) + [v]
      ensures lives == old(lives) + FreshLives(IdsOf(v.claims)) && assertedAt == old(assertedAt) + Dates(v.claims)
    {
      hide Keyed, UniqueKeys, OwnIds, IdsOf, OnePerRelation, Dates, FreshLives;
      AddKeepsKeyed(versions, v, lives);
      FreshKeys(IdsOf(v.claims));
      DatesKeys(v.claims);
      versions := versions + [v];
      lives := lives + FreshLives(IdsOf(v.claims));
      assertedAt := assertedAt + Dates(v.claims);
    }

    /** A claim is extracted from a version that is already there: it takes its place in the text and starts active. */
    method AddClaim(i: nat, place: nat, c: Claim)
      requires Valid() && i < |versions| && place <= |versions[i].claims| && c.id !in lives
      modifies this`versions, this`lives, this`assertedAt
      ensures Valid() && versions == WithClaim(old(versions), i, place, c)
      ensures lives == old(lives)[c.id := FRESH] && assertedAt == old(assertedAt)[c.id := c.assertedAt]
    {
      hide OnePerRelation, UniqueKeys;
      ClaimKeepsKeyed(versions, i, place, c, lives.Keys);
      versions := WithClaim(versions, i, place, c);
      lives := lives[c.id := FRESH];
      assertedAt := assertedAt[c.id := c.assertedAt];
    }

    /** An event is needed: reuse the row pending under its key, else add one. */
    method Note(fact: Fact, now: int, pending: map<Key, Event>, ghost start: set<Event>, ghost done: set<Fact>)
      returns (pending': map<Key, Event>)
      requires Sorting(start, events, pending, done) && forall f :: f in done ==> KeyOf(f) != KeyOf(fact)
      modifies this`events, this`nextEvent
      ensures Sorting(start, events, pending', done + {fact})
    {
      hide Sorting;
      var key := KeyOf(fact);
      if key in pending {
        ReuseKeepsSorting(start, events, pending, done, fact);
        var row := pending[key];
        pending' := pending - {key};
        events := events - {row} + {row.(fact := fact)};
      } else {
        pending' := pending;
        var row := Event(nextEvent, fact, now);
        AddKeepsSorting(start, events, pending, done, row);
        nextEvent := nextEvent + 1;
        events := events + {row};
      }
    }

    /** The outcomes of one pair of consecutive versions. */
    method WalkPair(j: Judge, vs: seq<Version>, external: set<nat>, n: nat, now: int, pending: map<Key, Event>,
        ghost start: set<Event>)
      returns (pending': map<Key, Event>)
      requires n + 1 < |vs| && Keyed(vs) && OwnIds(vs) <= lives.Keys
      requires Sorting(start, events, pending, FactsUpTo(j, vs, external, n))
      modifies this`lives, this`events, this`nextEvent, this`suspects
      ensures lives == Apply(MatchesAt(j, vs, external, n), vs[n + 1].effectiveAt, old(lives))
        && lives.Keys == old(lives.Keys)
      ensures suspects == old(suspects) + (if SuspectAt(vs, external, n) then {vs[n + 1].id} else {})
      ensures Sorting(start, events, pending', FactsUpTo(j, vs, external, n + 1))
    {
      var prevVersion, currVersion := vs[n], vs[n + 1];
      var prevClaims := Without(prevVersion.claims, external);
      var suspect := Suspect(prevVersion, currVersion, prevClaims);
      if suspect {
        suspects := suspects + {currVersion.id};
      }
      var ms := MatchClaims(j, prevClaims, currVersion.claims, suspect);
      pending' := RecordAll(j, vs, external, n, ms, now, pending, start);
    }

    /** The inner loop over the matches of one pair. */
    method RecordAll(j: Judge, vs: seq<Version>, external: set<nat>, n: nat, ms: seq<Match>, now: int,
                     pending: map<Key, Event>, ghost start: set<Event>)
      returns (pending': map<Key, Event>)
      requires n + 1 < |vs| && Keyed(vs) && OwnIds(vs) <= lives.Keys && ms == MatchesAt(j, vs, external, n)
      requires Sorting(start, events, pending, FactsUpTo(j, vs, external, n))
      modifies this`lives, this`events, this`nextEvent
      ensures lives == Apply(ms, vs[n + 1].effectiveAt, old(lives)) && lives.Keys == old(lives.Keys)
      ensures Sorting(start, events, pending', FactsUpTo(j, vs, external, n + 1))
    {
      hide Sorting, Keyed, MatchesAt, OwnIds, ApplyOne, FactOf;
      pending' := pending;
      ghost var earlier := FactsUpTo(j, vs, external, n);
      var version, at := vs[n + 1].id, vs[n + 1].effectiveAt;
      assert earlier + FactsOf(ms[..0], version, at) == earlier;
      for i := 0 to |ms|
        invariant lives == Apply(ms[..i], at, old(lives)) && lives.Keys == old(lives.Keys)
        invariant Sorting(start, events, pending', earlier + FactsOf(ms[..i], version, at))
      {
        assert ms[..i + 1][..i] == ms[..i];
        NewKey(j, vs, external, n, i);
        pending' := Record(ms[i], version, at, now, pending', start, earlier + FactsOf(ms[..i], version, at));
        assert earlier + FactsOf(ms[..i + 1], version, at) ==
          earlier + FactsOf(ms[..i], version, at) + FactOf(ms[i], version, at);
      }
      assert ms[..|ms|] == ms;
      assert FactsUpTo(j, vs, external, n + 1) == earlier + FactsOf(ms, version, at);
    }

    /** One match: the previous claim's bookkeeping, and the event it calls for. */
    method Record(m: Match, version: nat, at: int, now: int, pending: map<Key, Event>, ghost start: set<Event>,
        ghost done: set<Fact>)
      returns (pending': map<Key, Event>)
      requires m.previous.id in lives && Sorting(start, events, pending, done)
        && forall f :: f in done ==> f.claim != m.previous.id
      modifies this`lives, this`events, this`nextEvent
      ensures lives == ApplyOne(m, at, old(lives)) && lives.Keys == old(lives.Keys)
      ensures Sorting(start, events, pending', done + FactOf(m, version, at))
    {
      hide Sorting;
      pending' := pending;
      var id := m.previous.id;
      match m.outcome {
        case SuspectRetained =>
          assert done + FactOf(m, version, at) == done;
        case Retracted =>
          lives := lives[id := lives[id].(status := Status.Retracted, validTo := Some(at))];
          pending' := Note(Fact(WasRetracted, id, None, version, at), now, pending, start, done);
        case Carried =>
          if m.successor.Some? {
            lives := lives[id := lives[id].(status := Status.Carried, supersededBy := Some(m.successor.value.id))];
          } else {
            lives := lives[id := lives[id].(status := Status.Carried)];
          }
          assert done + FactOf(m, version, at) == done;
        case Superseded =>
          var successor := if m.successor.Some? then Some(m.successor.value.id) else None;
          if successor.Some? {
            lives := lives[id := lives[id].(supersededBy := successor)];
          }
          lives := lives[id := lives[id].(status := Status.Superseded, validTo := Some(at))];
          pending' := Note(Fact(WasSuperseded, id, successor, version, at), now, pending, start, done);
      }
    }

    /** The walk over the first `last` pairs of consecutive versions. */
    method Walk(j: Judge, vs: seq<Version>, external: set<nat>, last: nat, now: int, pending: map<Key, Event>,
                ghost start: set<Event>, ghost lives0: Lives)
      returns (pending': map<Key, Event>)
      requires last < |vs| && Keyed(vs) && OwnIds(vs) <= lives.Keys && lives == Reset(OwnIds(vs), external, lives0)
      requires Sorting(start, events, pending, {})
      modifies this`lives, this`events, this`nextEvent, this`suspects
      ensures lives == Walked(j, vs, external, last, lives0) && lives.Keys == old(lives.Keys)
      ensures suspects == old(suspects) + SuspectIds(vs, external, last)
      ensures Sorting(start, events, pending', FactsUpTo(j, vs, external, last))
    {
      hide Sorting, Keyed, MatchesAt, OwnIds, Reset, SuspectAt;
      pending' := pending;
      for n := 0 to last
        invariant lives == Walked(j, vs, external, n, lives0) && lives.Keys == old(lives.Keys)
        invariant suspects == old(suspects) + SuspectIds(vs, external, n)
        invariant Sorting(start, events, pending', FactsUpTo(j, vs, external, n))
      {
        pending' := WalkPair(j, vs, external, n, now, pending', start);
      }
    }

    /** Open or close each contradiction that touches the document, and see to the event of each that
        does not stand: the row loaded for its pair, else a new one. */
    method ReconcileConflicts(own: set<nat>, now: int, loaded: map<ConflictEvents.Key, nat>)
      returns (pending: map<ConflictEvents.Key, nat>, ghost ids: seq<nat>)
      requires OnePerRelation(contradictions) && ConflictEvents.Numbered(resolutions)
        && ConflictEvents.IsLoaded(resolutions, own, loaded)
      modifies this`contradictions, this`resolutions
      ensures |contradictions| == |old(contradictions)|
      ensures forall i :: 0 <= i < |contradictions| ==>
        contradictions[i] == Reviewed(own, lives, now, old(contradictions[i]))
      ensures ConflictEvents.Written(
        old(resolutions), loaded, Closings(own, lives, assertedAt, old(contradictions), now), resolutions, ids)
      ensures ConflictEvents.Pending(loaded, Closings(own, lives, assertedAt, old(contradictions), now), pending)
    {
      hide ConflictEvents.Written, ConflictEvents.Pending, ConflictEvents.IsLoaded, OnePerRelation, Closings,
        WorldTime, NameOf;
      ghost var rs := contradictions;
      pending, ids := loaded, [];
      ConflictEvents.NothingWritten(resolutions, loaded);
      NoRelations(own, lives, assertedAt, rs, now);
      for i := 0 to |contradictions|
        invariant |contradictions| == |rs|
        invariant forall k :: 0 <= k < i ==> contradictions[k] == Reviewed(own, lives, now, rs[k])
        invariant forall k :: i <= k < |contradictions| ==> contradictions[k] == rs[k]
        invariant ConflictEvents.Written(
          old(resolutions), loaded, Closings(own, lives, assertedAt, rs[..i], now), resolutions, ids)
        invariant ConflictEvents.Pending(loaded, Closings(own, lives, assertedAt, rs[..i], now), pending)
      {
        var r := contradictions[i];
        if !ClosesNow(own, lives, r) {
          NotClosing(own, lives, assertedAt, rs, i, now);
        }
        if !(r.a in own || r.b in own) || r.rejected {
          continue;
        }
        if r.a !in lives || r.b !in lives {
          continue;
        }
        var stillOpen := Live(lives, r.a) && Live(lives, r.b);
        if stillOpen {
          if r.resolvedAt.Some? {
            contradictions := contradictions[i := r.(resolvedAt := None)];
          }
        } else {
          var inactive, other := if !Live(lives, r.a) then r.a else r.b, if !Live(lives, r.a) then r.b else r.a;
          var worldTime := WorldTime(lives, assertedAt, inactive, now);
          if r.resolvedAt.None? {
            contradictions := contradictions[i := r.(resolvedAt := Some(now))];
          }
          var c := ConflictEvents.Closing(
            inactive, other, worldTime, "claim " + NameOf(lives[r.a].status) + "/" + NameOf(lives[r.b].status));
          NextClosing(own, lives, assertedAt, rs, i, now, c);
          ghost var id;
          resolutions, pending, id := ConflictEvents.RecordClosing(resolutions, pending, c, now,
                                                                   old(resolutions), own, loaded,
                                                                     Closings(own, lives, assertedAt, rs[..i], now),
                                                                     ids);
          ids := ids + [id];
        }
      }
      assert rs[..|rs|] == rs;
    }

    /** Recompute the lifecycle of every claim of the document. `selected` is the order in which the query
        returned the document's own `conflict_resolved` rows. */
    method Reconcile(j: Judge, now: int, selected: seq<nat>)
      requires Valid() && forall id :: id in selected <==> ConflictEvents.IsOwn(resolutions, OwnIds(versions), id)
      modifies this
      ensures Valid() && versions == old(versions) && assertedAt == old(assertedAt)
      ensures lives == Settled(j, versions, old(lives))
      ensures Facts(events) == NeededFacts(j, versions, old(lives))
      ensures forall e, f ::
        e in old(events) && f in NeededFacts(j, versions, old(lives)) && KeyOf(f) == KeyOf(e.fact) ==>
        Renewed(e, events)
      ensures |contradictions| == |old(contradictions)|
      ensures forall i :: 0 <= i < |contradictions| ==>
        contradictions[i] == Reviewed(OwnIds(versions), lives, now, old(contradictions[i]))
      ensures suspects == old(suspects) + SuspectsOf(versions, old(lives))
      ensures Resolved(old(resolutions), OwnIds(versions), selected,
        Closings(OwnIds(versions), lives, assertedAt, old(contradictions), now), resolutions)
    {
      hide Keyed, Sorting, UniqueKeys, Reviewed, External, OwnIds, InOrder, Reset, Renewed, Facts, FactsUpTo, Walked,
        SuspectIds, KeyOf, ByKey;
      hide OnePerRelation, Closings, ConflictEvents.Written, ConflictEvents.Pending, ConflictEvents.IsLoaded,
        ConflictEvents.Passed, ConflictEvents.Fill, Resolved;
      var vs := InOrder(versions);
      OrderKeepsMembers(versions);
      OrderKeepsKeyed(versions);
      var own := OwnIds(vs);
      if vs == [] {
        NothingToDo(vs, lives, events, contradictions, now);
        NothingResolved(vs, selected, resolutions, lives, assertedAt, contradictions, now);
        return;
      }
      var external := External(own, lives);
      ghost var start, lives0, rs := events, lives, contradictions;
      // 1. Reset this document's own bookkeeping.
      lives := Reset(own, external, lives);
      // Load the reconcile-origin events by key.
      var pending := ByKey(events);
      var loaded := ConflictEvents.Load(resolutions, own, selected);
      // 2. Walk consecutive version pairs.
      var last := |vs| - 1;
      pending := Walk(j, vs, external, last, now, pending, start, lives0);
      // 3. Re-evaluate every contradiction that touches this document.
      ghost var log := resolutions;
      var unused, ids := ReconcileConflicts(own, now, loaded);
      // Whatever was not needed again is stale.
      FinishSorting(start, events, pending, FactsUpTo(j, vs, external, last));
      events := events - pending.Values;
      ghost var cs := Closings(own, lives, assertedAt, rs, now);
      resolutions := ConflictEvents.Sweep(resolutions, unused, log, own, loaded, cs, ids);
      IsResolved(log, own, selected, cs, resolutions);
      ReviewKeepsPairs(own, lives, now, rs, contradictions);
      forall e | e in events ensures e.fact.claim in own {
        NeededAreOwn(j, vs, external, last, e.fact);
      }
    }
  }

  /** One pass over the `conflict_resolved` rows, loaded in the order `selected`. */
  ghost predicate Resolved(
      l: ConflictEvents.Log, own: set<nat>, selected: seq<nat>, cs: seq<Closing>, l': ConflictEvents.Log) {
    ConflictEvents.Passed(l, own, ConflictEvents.Fill(l, selected), cs, l')
  }

  lemma IsResolved(l: ConflictEvents.Log, own: set<nat>, selected: seq<nat>, cs: seq<Closing>, l': ConflictEvents.Log)
    requires ConflictEvents.Passed(l, own, ConflictEvents.Fill(l, selected), cs, l')
    ensures Resolved(l, own, selected, cs, l') && ConflictEvents.Numbered(l')
  {
    hide ConflictEvents.Passed;
    ConflictEvents.PassKeepsNumbers(l, own, ConflictEvents.Fill(l, selected), cs, l');
  }

  lemma NoRelations(own: set<nat>, lives: Lives, assertedAt: map<nat, int>, rs: seq<Contradiction>, now: int)
    ensures Closings(own, lives, assertedAt, rs[..0], now) == []
  {
  }

  lemma NotClosing(own: set<nat>, lives: Lives, assertedAt: map<nat, int>, rs: seq<Contradiction>, i: nat, now: int)
    requires i < |rs| && !ClosesNow(own, lives, rs[i])
    ensures Closings(own, lives, assertedAt, rs[..i + 1], now) == Closings(own, lives, assertedAt, rs[..i], now)
  {
    hide ClosesNow, ClosingOf;
    assert rs[..i + 1][..i] == rs[..i] && rs[..i + 1][i] == rs[i];
  }

  lemma NextClosing(own: set<nat>, lives: Lives, assertedAt: map<nat, int>, rs: seq<Contradiction>, i: nat, now: int,
      c: Closing)
    requires i < |rs| && OnePerRelation(rs) && ClosesNow(own, lives, rs[i])
      && c == ClosingOf(lives, assertedAt, rs[i], now)
    ensures Closings(own, lives, assertedAt, rs[..i + 1], now) == Closings(own, lives, assertedAt, rs[..i], now) + [c]
    ensures ConflictEvents.OnePerPair(Closings(own, lives, assertedAt, rs[..i], now) + [c])
  {
    hide ClosesNow, ClosingOf, Sides;
    assert rs[..i + 1][..i] == rs[..i] && rs[..i + 1][i] == rs[i];
    ClosingsArePerPair(own, lives, assertedAt, rs[..i + 1], now);
  }

  lemma ReviewKeepsPairs(own: set<nat>, lives: Lives, now: int, rs: seq<Contradiction>, rs': seq<Contradiction>)
    requires OnePerRelation(rs) && |rs'| == |rs|
      && forall i :: 0 <= i < |rs| ==> rs'[i] == Reviewed(own, lives, now, rs[i])
    ensures OnePerRelation(rs')
  {
    assert forall i :: 0 <= i < |rs| ==> rs'[i].a == rs[i].a && rs'[i].b == rs[i].b;
  }

  lemma NothingResolved(vs: seq<Version>, selected: seq<nat>, l: ConflictEvents.Log, lives: Lives,
      assertedAt: map<nat, int>, rs: seq<Contradiction>, now: int)
    requires vs == [] && ConflictEvents.Numbered(l)
      && forall id :: id in selected <==> ConflictEvents.IsOwn(l, OwnIds(vs), id)
    ensures Resolved(l, OwnIds(vs), selected, Closings(OwnIds(vs), lives, assertedAt, rs, now), l)
  {
    assert OwnIds(vs) == {};
    NothingCloses(lives, assertedAt, rs, now);
    ConflictEvents.NothingWritten(l, map[]);
    ConflictEvents.FillLoads(l, {}, selected);
    assert ConflictEvents.Fill(l, selected) == map[];
    assert ConflictEvents.Swept(map[], [], l, l);
    assert ConflictEvents.Passed(l, {}, map[], [], l);
  }

  lemma {:induction false} NothingCloses(lives: Lives, assertedAt: map<nat, int>, rs: seq<Contradiction>, now: int)
    ensures Closings({}, lives, assertedAt, rs, now) == []
  {
    if rs != [] {
      NothingCloses(lives, assertedAt, rs[..|rs| - 1], now);
    }
  }

  lemma NothingToDo(vs: seq<Version>, lives: Lives, events: set<Event>, contradictions: seq<Contradiction>, now: int)
    requires vs == [] && forall e :: e in events ==> e.fact.claim in OwnIds(vs)
    ensures Facts(events) == {}
    ensures forall i :: 0 <= i < |contradictions| ==>
      contradictions[i] == Reviewed(OwnIds(vs), lives, now, contradictions[i])
  {
  }

  lemma NeededAreOwn(j: Judge, vs: seq<Version>, external: set<nat>, n: nat, f: Fact)
    requires Keyed(vs) && (n == 0 || n < |vs|) && f in FactsUpTo(j, vs, external, n)
    ensures f.claim in OwnIds(vs)
  {
    FactsAreOfEarlier(j, vs, external, n, f);
    var i, c :| 0 <= i < n && i < |vs| && c in vs[i].claims && c.id == f.claim;
    assert vs[i] in vs;
  }

  /** Deleting what is still pending leaves exactly the facts found needed, one row each. */
  lemma FinishSorting(start: set<Event>, events: set<Event>, pending: map<Key, Event>, done: set<Fact>)
    requires Sorting(start, events, pending, done)
    ensures UniqueKeys(events - pending.Values) && Facts(events - pending.Values) == done
    ensures forall e :: e in events - pending.Values ==> e.fact in done
    ensures forall e, f :: e in start && f in done && KeyOf(f) == KeyOf(e.fact) ==> Renewed(e, events - pending.Values)
  {
    var rest := events - pending.Values;
    forall e | e in events ensures e in rest <==> e.fact in done {
      if KeyOf(e.fact) in pending {
        assert pending[KeyOf(e.fact)] in events && KeyOf(pending[KeyOf(e.fact)].fact) == KeyOf(e.fact);
        assert pending[KeyOf(e.fact)] == e;
      }
    }
    forall f | f in done ensures f in Facts(rest) {
      var e :| e in events && e.fact == f;
      assert e in rest;
    }
    forall e, f | e in start && f in done && KeyOf(f) == KeyOf(e.fact) ensures Renewed(e, rest) {
      var x :| x in events && x.fact == f;
      assert KeyOf(e.fact) !in pending;
      var g :| KeyOf(g) == KeyOf(e.fact) && Event(e.id, g, e.observedAt) in events;
      assert Event(e.id, g, e.observedAt) == x;
    }
  }
}
