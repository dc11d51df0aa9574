/** What a camp report says about the signed graph: structural balance and canonicity. */
module CampTheorems {
  import opened Common
  import opened SignedGraph
  import opened Camps

  // ----- membership is connectedness --------------------------------------------------------

  lemma MembersAreReached(g: set<Arc>, c: Component, x: int)
    requires IsComponent(g, c) && Has(c, x)
    ensures Reaches(g, Root(c), x, Side(c, x)) && Root(c) <= x
  {
    if x in c.campA {
      var i :| 0 <= i < |c.campA| && c.campA[i] == x;
    }
  }

  /** The members of a component are exactly the claims that kept edges connect to its root. */
  lemma MembersAreConnected(g: set<Arc>, c: Component, x: int)
    requires IsComponent(g, c)
    ensures Has(c, x) <==> Connected(g, Root(c), x)
  {
    if Has(c, x) {
      MembersAreReached(g, c, x);
    }
    if Connected(g, Root(c), x) {
      var p :| Walk(g, Root(c), p, x);
      ClosedUnderWalks(g, Elems(c.campA) + Elems(c.campB), Root(c), p, x);
    }
  }

  /** Two aligned claims are in one component iff kept edges connect them. */
  lemma SameComponentIffConnected(ids: set<int>, g: set<Arc>, r: Report, x: int, y: int)
    requires Signed(g) && IsReport(ids, g, r) && Listed(r.components, x)
    ensures (exists i :: 0 <= i < |r.components| && Has(r.components[i], x) && Has(r.components[i], y)) <==>
      Connected(g, x, y)
  {
    var i :| 0 <= i < |r.components| && Has(r.components[i], x);
    var root := Root(r.components[i]);
    MembersAreConnected(g, r.components[i], x);
    MembersAreConnected(g, r.components[i], y);
    ConnectedSym(g, root, x);
    if Connected(g, x, y) {
      ConnectedTrans(g, root, x, y);
    }
    forall j | 0 <= j < |r.components| && Has(r.components[j], x) && Has(r.components[j], y)
      ensures Connected(g, x, y)
    {
      EveryClaimInOnePlace(ids, g, r, x);
      assert j == i;
      ConnectedTrans(g, x, root, y);
    }
  }

  /** Every claim is in exactly one place: unaligned, or one camp of one component. */
  lemma EveryClaimInOnePlace(ids: set<int>, g: set<Arc>, r: Report, x: int)
    requires IsReport(ids, g, r)
    ensures x in ids <==> x in r.unaligned || Listed(r.components, x)
    ensures !(x in r.unaligned && Listed(r.components, x))
    ensures forall i, j ::
      0 <= i < |r.components| && 0 <= j < |r.components| && Has(r.components[i], x) && Has(r.components[j], x) ==>
        i == j
    ensures forall i :: 0 <= i < |r.components| ==> !(x in r.components[i].campA && x in r.components[i].campB)
  {
    forall i, j | 0 <= i < j < |r.components| ensures !(Has(r.components[i], x) && Has(r.components[j], x)) {
      assert Apart(r.components[i], r.components[j]);
    }
  }

  // ----- structural balance -----------------------------------------------------------------

  ghost predicate NegativeCycle(g: set<Arc>, x: int) {
    exists p :: Walk(g, x, p, x) && SignOf(p) == -1
  }

  lemma OppositeWalksMakeNegativeCycle(g: set<Arc>, x: int, y: int)
    requires Signed(g) && Reaches(g, x, y, 1) && Reaches(g, x, y, -1)
    ensures NegativeCycle(g, x)
  {
    var p :| Walk(g, x, p, y) && SignOf(p) == 1;
    var q :| Walk(g, x, q, y) && SignOf(q) == -1;
    WalkBack(g, x, q, y);
    WalkJoin(g, x, p, y, Backwards(q), x);
  }

  /** An edge that a component's split violates closes a walk of negative sign. */
  lemma FrustrationMakesNegativeCycle(g: set<Arc>, c: Component)
    requires Signed(g) && IsComponent(g, c) && !c.balanced
    ensures NegativeCycle(g, Root(c))
  {
    var q :| q in Frustrated(g, c);
    var e :| e in g && Violates(c, e) && q == Ordered(e.src, e.dst);
    MembersAreReached(g, c, e.src);
    MembersAreReached(g, c, e.dst);
    ReachesStep(g, Root(c), e, Side(c, e.src));
    OppositeWalksMakeNegativeCycle(g, Root(c), e.dst);
  }

  /** In a balanced component the split's sides satisfy every edge. */
  lemma BalancedSplitSatisfies(g: set<Arc>, c: Component, e: Arc)
    requires IsComponent(g, c) && c.balanced && e in g && Has(c, e.src)
    ensures Side(c, e.dst) == Side(c, e.src) * e.sign
  {
    assert Violates(c, e) ==> Ordered(e.src, e.dst) in Frustrated(g, c);
  }

  lemma SidesFollowWalk(g: set<Arc>, c: Component, x: int, p: seq<Arc>, y: int)
    requires IsComponent(g, c) && c.balanced && Has(c, x) && Walk(g, x, p, y)
    ensures Side(c, y) == Side(c, x) * SignOf(p)
  {
    var inside, f := (z: int) => Has(c, z), (z: int) => Side(c, z);
    forall e | e in g && inside(e.src) ensures inside(e.dst) && f(e.dst) == f(e.src) * e.sign {
      BalancedSplitSatisfies(g, c, e);
    }
    LabelsFollowWalk(g, inside, f, x, p, y);
  }

  /** Balance of one component: no frustrated edge iff no closed walk in it has a negative sign. */
  lemma ComponentBalance(g: set<Arc>, c: Component)
    requires Signed(g) && IsComponent(g, c)
    ensures c.balanced <==> forall x :: Has(c, x) ==> !NegativeCycle(g, x)
  {
    if !c.balanced {
      FrustrationMakesNegativeCycle(g, c);
    } else {
      forall x | Has(c, x) ensures !NegativeCycle(g, x) {
        forall p | Walk(g, x, p, x) ensures SignOf(p) != -1 {
          SidesFollowWalk(g, c, x, p, x);
        }
      }
    }
  }

  /** The colouring a report displays: -1 for the members of a B camp, +1 for everything else. */
  ghost function Shown(r: Report, x: int): int {
    if exists i :: 0 <= i < |r.components| && x in r.components[i].campB then -1 else 1
  }

  lemma ShownIsSide(ids: set<int>, g: set<Arc>, r: Report, i: int, x: int)
    requires IsReport(ids, g, r) && 0 <= i < |r.components| && Has(r.components[i], x)
    ensures Shown(r, x) == Side(r.components[i], x)
  {
    EveryClaimInOnePlace(ids, g, r, x);
    if j :| 0 <= j < |r.components| && x in r.components[j].campB {
      assert Has(r.components[j], x);
    }
  }

  ghost predicate AtOdds(r: Report, e: Arc) {
    Shown(r, e.dst) != Shown(r, e.src) * e.sign
  }

  lemma ViolatedIsAtOdds(ids: set<int>, g: set<Arc>, r: Report, i: int, e: Arc)
    requires IsReport(ids, g, r) && 0 <= i < |r.components| && e in g && Has(r.components[i], e.src)
    ensures Violates(r.components[i], e) <==> AtOdds(r, e)
  {
    assert IsComponent(g, r.components[i]);
    ShownIsSide(ids, g, r, i, e.src);
    ShownIsSide(ids, g, r, i, e.dst);
  }

  /** The frustrated pairs are exactly the edges whose ends the displayed colouring sets at odds. */
  lemma FrustratedAreTheViolatedEdges(ids: set<int>, g: set<Arc>, r: Report, q: (int, int))
    requires IsReport(ids, g, r) && forall e :: e in g ==> e.src in ids
    ensures q in r.frustrated <==> exists e :: e in g && AtOdds(r, e) && q == Ordered(e.src, e.dst)
  {
    hide AtOdds, IsReport, Violates, Ordered;
    if q in r.frustrated {
      var i := FrustratedIn(ids, g, r, q);
      var e :| e in g && Violates(r.components[i], e) && q == Ordered(e.src, e.dst);
      ViolatedSource(r.components[i], e);
      ViolatedIsAtOdds(ids, g, r, i, e);
    }
    if e :| e in g && AtOdds(r, e) && q == Ordered(e.src, e.dst) {
      var i := ComponentOfArc(ids, g, r, e);
      ViolatedIsAtOdds(ids, g, r, i, e);
      assert q in Frustrated(g, r.components[i]);
      ReportedOnce(ids, g, r, i, q);
    }
  }

  lemma ViolatedSource(c: Component, e: Arc)
    requires Violates(c, e)
    ensures Has(c, e.src)
  {
  }

  lemma FrustratedIn(ids: set<int>, g: set<Arc>, r: Report, q: (int, int)) returns (i: nat)
    requires IsReport(ids, g, r) && q in r.frustrated
    ensures i < |r.components| && q in Frustrated(g, r.components[i])
  {
    hide Frustrated;
    assert ListedFrustrated(r.components, q);
    i :| 0 <= i < |r.components| && q in r.components[i].frustrated;
    assert IsComponent(g, r.components[i]);
  }

  lemma ReportedOnce(ids: set<int>, g: set<Arc>, r: Report, i: nat, q: (int, int))
    requires IsReport(ids, g, r) && i < |r.components| && q in Frustrated(g, r.components[i])
    ensures q in r.frustrated
  {
    hide Frustrated;
    assert IsComponent(g, r.components[i]);
    assert ListedFrustrated(r.components, q);
  }

  lemma ComponentOfArc(ids: set<int>, g: set<Arc>, r: Report, e: Arc) returns (i: nat)
    requires IsReport(ids, g, r) && e in g && e.src in ids
    ensures i < |r.components| && Has(r.components[i], e.src)
  {
    assert !Isolated(g, e.src);
    assert Listed(r.components, e.src);
    i :| 0 <= i < |r.components| && Has(r.components[i], e.src);
  }

  lemma ColouringForbidsNegativeCycles(g: set<Arc>, c: int -> int, x: int)
    requires Colouring(g, c)
    ensures !NegativeCycle(g, x)
  {
    forall p | Walk(g, x, p, x) ensures SignOf(p) != -1 {
      LabelsFollowWalk(g, _ => true, c, x, p, x);
    }
  }

  lemma ShownColours(ids: set<int>, g: set<Arc>, r: Report)
    requires IsReport(ids, g, r) && r.balanced && forall e :: e in g ==> e.src in ids
    ensures Colouring(g, x => Shown(r, x))
  {
    forall e | e in g ensures Shown(r, e.dst) == Shown(r, e.src) * e.sign {
      FrustratedAreTheViolatedEdges(ids, g, r, Ordered(e.src, e.dst));
      assert !AtOdds(r, e);
    }
  }

  lemma ReportParts(ids: set<int>, g: set<Arc>, r: Report)
    requires IsReport(ids, g, r)
    ensures AreComponents(g, r.components) && (r.balanced <==> r.frustrated == {})
  {
  }

  lemma UnbalancedHasNegativeCycle(ids: set<int>, g: set<Arc>, r: Report)
    requires Signed(g) && IsReport(ids, g, r) && !r.balanced
    ensures exists x :: NegativeCycle(g, x)
  {
    var q :| q in r.frustrated;
    var i :| 0 <= i < |r.components| && q in r.components[i].frustrated;
    FrustrationMakesNegativeCycle(g, r.components[i]);
  }

  lemma BalancedIffNoNegativeCycle(ids: set<int>, g: set<Arc>, r: Report)
    requires Signed(g) && IsReport(ids, g, r) && forall e :: e in g ==> e.src in ids
    ensures r.balanced <==> forall x :: !NegativeCycle(g, x)
  {
    hide IsReport, NegativeCycle, Colouring;
    if r.balanced {
      ShownColours(ids, g, r);
      forall x ensures !NegativeCycle(g, x) {
        ColouringForbidsNegativeCycles(g, x => Shown(r, x), x);
      }
    } else {
      UnbalancedHasNegativeCycle(ids, g, r);
    }
  }

  /** Structural balance: the report shows no frustrated edge iff some two-colouring satisfies every
      kept edge, iff no closed walk of kept edges has a negative sign product. */
  lemma StructuralBalance(ids: set<int>, g: set<Arc>, r: Report)
    requires Signed(g) && IsReport(ids, g, r) && forall e :: e in g ==> e.src in ids
    ensures r.frustrated == {} <==> exists c: int -> int :: Colouring(g, c)
    ensures r.frustrated == {} <==> forall x :: !NegativeCycle(g, x)
  {
    hide IsReport, NegativeCycle, Colouring, Signed;
    ReportParts(ids, g, r);
    BalancedIffNoNegativeCycle(ids, g, r);
    if r.balanced {
      ShownColours(ids, g, r);
    }
    forall c: int -> int, x | Colouring(g, c) ensures !NegativeCycle(g, x) {
      ColouringForbidsNegativeCycles(g, c, x);
    }
  }

  // ----- canonicity -------------------------------------------------------------------------

  /** Any colouring that satisfies the edges of a component gives its split, up to swapping the
      two camps; with its smallest id coloured +1 it gives exactly the split. */
  lemma SplitIsUnique(g: set<Arc>, c: Component, f: int -> int, x: int)
    requires Signed(g) && IsComponent(g, c) && Has(c, x)
    requires forall y :: f(y) == 1 || f(y) == -1
    requires forall e :: e in g && Has(c, e.src) ==> f(e.dst) == f(e.src) * e.sign
    ensures f(x) == f(Root(c)) * Side(c, x)
  {
    MembersAreReached(g, c, x);
    var p :| Walk(g, Root(c), p, x) && SignOf(p) == Side(c, x);
    LabelsFollowWalk(g, (z: int) => Has(c, z), f, Root(c), p, x);
  }

  ghost function Roots(cs: seq<Component>): seq<int> {
    seq(|cs|, i requires 0 <= i < |cs| => Root(cs[i]))
  }

  /** The roots are the claims with an edge that are smallest among everything connected to them. */
  lemma RootsAreLeast(ids: set<int>, g: set<Arc>, r: Report, x: int)
    requires Signed(g) && IsReport(ids, g, r)
    ensures x in Roots(r.components) <==> x in ids && !Isolated(g, x) && forall y :: Connected(g, x, y) ==> x <= y
  {
    var roots := Roots(r.components);
    if x in roots {
      var i :| 0 <= i < |roots| && roots[i] == x;
      var c := r.components[i];
      assert Listed(r.components, x);
      forall y | Connected(g, x, y) ensures x <= y {
        MembersAreConnected(g, c, y);
        MembersAreReached(g, c, y);
      }
    }
    if x in ids && !Isolated(g, x) && forall y :: Connected(g, x, y) ==> x <= y {
      assert Listed(r.components, x);
      var i :| 0 <= i < |r.components| && Has(r.components[i], x);
      var c := r.components[i];
      MembersAreReached(g, c, x);
      MembersAreConnected(g, c, x);
      ConnectedSym(g, Root(c), x);
      assert roots[i] == x;
    }
  }

  lemma SameRootSameComponent(g: set<Arc>, c: Component, d: Component)
    requires Signed(g) && IsComponent(g, c) && IsComponent(g, d) && Root(c) == Root(d)
    ensures forall x :: Has(c, x) <==> Has(d, x)
    ensures c.balanced == d.balanced
    ensures c.balanced ==> c == d
  {
    forall x ensures Has(c, x) <==> Has(d, x) {
      MembersAreConnected(g, c, x);
      MembersAreConnected(g, d, x);
    }
    ComponentBalance(g, c);
    ComponentBalance(g, d);
    if c.balanced {
      forall x | Has(c, x) ensures Side(c, x) == Side(d, x) {
        MembersAreReached(g, c, x);
        MembersAreReached(g, d, x);
        if Side(c, x) != Side(d, x) {
          OppositeWalksMakeNegativeCycle(g, Root(c), x);
        }
      }
      assert forall x :: x in c.campA <==> Has(c, x) && Side(c, x) == 1;
      assert forall x :: x in d.campA <==> Has(d, x) && Side(d, x) == 1;
      IncreasingIsUnique(c.campA, d.campA);
      IncreasingIsUnique(c.campB, d.campB);
    }
  }

  /** Same claims and same signed graph: same components in the same order, same balance flags,
      and the same camps wherever a component is balanced. */
  ghost predicate Agree(r: Report, s: Report) {
    && r.unaligned == s.unaligned
    && r.balanced == s.balanced
    && |r.components| == |s.components|
    && forall i :: 0 <= i < |r.components| ==>
         && (forall x :: Has(r.components[i], x) <==> Has(s.components[i], x))
         && r.components[i].balanced == s.components[i].balanced
         && (r.components[i].balanced ==> r.components[i] == s.components[i])
  }

  lemma RootsAgree(ids: set<int>, g: set<Arc>, r: Report, s: Report)
    requires Signed(g) && IsReport(ids, g, r) && IsReport(ids, g, s)
    ensures Roots(r.components) == Roots(s.components) && |r.components| == |s.components|
  {
    var rr, ss := Roots(r.components), Roots(s.components);
    assert Increasing(rr) && Increasing(ss);
    forall x ensures x in rr <==> x in ss {
      hide Increasing, IsReport, Roots;
      RootsAreLeast(ids, g, r, x);
      RootsAreLeast(ids, g, s, x);
    }
    IncreasingIsUnique(rr, ss);
    assert |rr| == |ss|;
  }

  lemma UnalignedAgree(ids: set<int>, g: set<Arc>, r: Report, s: Report)
    requires IsReport(ids, g, r) && IsReport(ids, g, s)
    ensures r.unaligned == s.unaligned
  {
    hide AreComponents, Isolated, Listed, ListedFrustrated;
    IncreasingIsUnique(r.unaligned, s.unaligned);
  }

  lemma ComponentsAgree(g: set<Arc>, cs: seq<Component>, ds: seq<Component>, i: int)
    requires Signed(g) && AreComponents(g, cs) && AreComponents(g, ds) && Roots(cs) == Roots(ds)
      && 0 <= i < |cs| == |ds|
    ensures (forall x :: Has(cs[i], x) <==> Has(ds[i], x)) && cs[i].balanced == ds[i].balanced
    ensures cs[i].balanced ==> cs[i] == ds[i]
  {
    assert Roots(cs)[i] == Roots(ds)[i];
    assert IsComponent(g, cs[i]) && IsComponent(g, ds[i]);
    hide AreComponents, IsComponent;
    SameRootSameComponent(g, cs[i], ds[i]);
  }

  lemma ReportsAgree(ids: set<int>, g: set<Arc>, r: Report, s: Report)
    requires Signed(g) && IsReport(ids, g, r) && IsReport(ids, g, s) && forall e :: e in g ==> e.src in ids
    ensures Agree(r, s)
  {
    hide IsReport, AreComponents, NegativeCycle, Signed, Has, Roots;
    ReportParts(ids, g, r);
    ReportParts(ids, g, s);
    UnalignedAgree(ids, g, r, s);
    BalancedIffNoNegativeCycle(ids, g, r);
    BalancedIffNoNegativeCycle(ids, g, s);
    RootsAgree(ids, g, r, s);
    forall i | 0 <= i < |r.components|
      ensures (forall x :: Has(r.components[i], x) <==> Has(s.components[i], x))
      ensures r.components[i].balanced == s.components[i].balanced
      ensures r.components[i].balanced ==> r.components[i] == s.components[i]
    {
      ComponentsAgree(g, r.components, s.components, i);
    }
  }

  function Swapped(r: Relation): Relation {
    r.(a := r.b, b := r.a)
  }

  /** Each relation of `before` is in `after`, possibly with its ends swapped. */
  ghost predicate Covers(before: seq<Relation>, after: seq<Relation>) {
    forall r :: r in before ==> r in after || Swapped(r) in after
  }

  lemma CoveredArcs(ids: set<int>, before: seq<Relation>, after: seq<Relation>)
    requires Covers(before, after)
    ensures ArcsOf(ids, before) <= ArcsOf(ids, after)
  {
    hide KeptSign;
    forall e | e in ArcsOf(ids, before) ensures e in ArcsOf(ids, after) {
      var r :| r in before && Kept(ids, r) &&
        (e == Arc(r.a, r.b, KeptSign(r).value) || e == Arc(r.b, r.a, KeptSign(r).value));
      SwappedSign(r);
    }
  }

  lemma SwappedSign(r: Relation)
    ensures KeptSign(Swapped(r)) == KeptSign(r)
  {
  }

  /** The order of the claims, the order of the relations and the order of each relation's ends do
      not change the components, the balance flags or the camps of balanced components. */
  lemma InputOrderDoesNotMatter(
      claims: seq<int>, relations: seq<Relation>, claims': seq<int>, relations': seq<Relation>,
                                r: Report, r': Report)
    requires (forall x :: x in claims <==> x in claims') && Covers(relations, relations')
      && Covers(relations', relations)
    requires IsReport(Elems(claims), ArcsOf(Elems(claims), relations), r)
    requires IsReport(Elems(claims'), ArcsOf(Elems(claims'), relations'), r')
    ensures Agree(r, r')
  {
    hide Covers, IsReport, Signed;
    var ids := Elems(claims);
    assert forall x :: x in ids <==> x in Elems(claims');
    assert ids == Elems(claims');
    CoveredArcs(ids, relations, relations');
    CoveredArcs(ids, relations', relations);
    ArcsAreSigned(ids, relations);
    hide ArcsOf;
    var g := ArcsOf(ids, relations);
    assert g == ArcsOf(ids, relations');
    ReportsAgree(ids, g, r, r');
  }
}
