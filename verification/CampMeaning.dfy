/** What the report of the camps says about the relations themselves (app/claims/camps.py:27-28, 83-203):
    which ones oppose, which agree, which do not count, and how a user's label decides. */
module CampMeaning {
  import opened Common
  import opened SignedGraph
  import opened Camps
  import opened CampTheorems
  import Carried

  /** The relation stands and is of this kind: by the user's label, or as judged where the user has given no
      label or has confirmed it. */
  predicate Says(m: Relation, kind: string) {
    && !m.resolved
    && (m.userLabel == Some(kind)
      || (m.kind == kind && (m.userLabel == None || m.userLabel == Some("confirmed") || m.userLabel == Some(""))))
  }

  predicate Opposes(m: Relation) {
    Says(m, "contradicts")
  }

  predicate Agrees(m: Relation) {
    Says(m, "supports") || Says(m, "duplicate") || Says(m, "refines")
  }

  /** Exactly the standing contradictions oppose, exactly the standing supports, duplicates and refinements agree. */
  lemma SignMeans(m: Relation)
    ensures KeptSign(m) == Some(-1) <==> Opposes(m)
    ensures KeptSign(m) == Some(1) <==> Agrees(m)
    ensures KeptSign(m).None? <==> !Opposes(m) && !Agrees(m)
  {
    OneKind(m.kind);
    if m.userLabel.Some? {
      OneKind(m.userLabel.value);
    }
    assert "confirmed"[0] == 'c' && |"confirmed"| == 9 && |"contradicts"| == 11 && |"supports"| == 8;
    assert |"duplicate"| == 9 && "duplicate"[0] == 'd' && |"refines"| == 7 && |"rejected"| == 8 && "rejected"[0] == 'r';
  }

  lemma OneKind(kind: string)
    ensures kind == "contradicts" ==> kind !in ["supports", "duplicate", "refines"]
    ensures kind in ["supports", "duplicate", "refines", "contradicts"] ==>
      kind != "rejected" && kind != "confirmed" && kind != ""
  {
    assert "rejected"[0] == 'r' && "supports"[0] == 's' && "confirmed"[0] == 'c' && "duplicate"[0] == 'd';
  }

  ghost predicate SameCamp(r: Report, x: int, y: int) {
    exists i :: 0 <= i < |r.components| &&
      ((x in r.components[i].campA && y in r.components[i].campA)
        || (x in r.components[i].campB && y in r.components[i].campB))
  }

  ghost predicate OtherCamp(r: Report, x: int, y: int) {
    exists i :: 0 <= i < |r.components| &&
      ((x in r.components[i].campA && y in r.components[i].campB)
        || (x in r.components[i].campB && y in r.components[i].campA))
  }

  ghost predicate Between(claims: seq<int>, relations: seq<Relation>, m: Relation) {
    m in relations && m.a in claims && m.b in claims
  }

  ghost predicate Reports(claims: seq<int>, relations: seq<Relation>, r: Report) {
    IsReport(Elems(claims), ArcsOf(Elems(claims), relations), r)
  }

  /** The ends of an edge are shown on one side of a component, or on two. */
  lemma EdgeIsShown(claims: seq<int>, relations: seq<Relation>, r: Report, e: Arc)
    requires Reports(claims, relations, r) && e in ArcsOf(Elems(claims), relations)
    ensures SameCamp(r, e.src, e.dst) <==> Shown(r, e.src) == Shown(r, e.dst)
    ensures OtherCamp(r, e.src, e.dst) <==> Shown(r, e.src) != Shown(r, e.dst)
  {
    hide ArcsOf;
    var ids, g := Elems(claims), ArcsOf(Elems(claims), relations);
    ArcsAreSigned(ids, relations);
    var k := ComponentOfArc(ids, g, r, e);
    var c := r.components[k];
    assert IsComponent(g, c);
    ShownIsSide(ids, g, r, k, e.src);
    ShownIsSide(ids, g, r, k, e.dst);
    forall i | 0 <= i < |r.components| && Has(r.components[i], e.src) ensures i == k {
      assert !Apart(r.components[i], c) && !Apart(c, r.components[i]);
    }
  }

  /** In every report a contradiction has its ends in different camps of one component and an agreement in the
      same camp, unless the pair is reported as frustrated. */
  lemma RelationPlacesItsEnds(claims: seq<int>, relations: seq<Relation>, r: Report, m: Relation)
    requires Reports(claims, relations, r) && Between(claims, relations, m)
    ensures Opposes(m) ==> OtherCamp(r, m.a, m.b) || (SameCamp(r, m.a, m.b) && Ordered(m.a, m.b) in r.frustrated)
    ensures Agrees(m) ==> SameCamp(r, m.a, m.b) || (OtherCamp(r, m.a, m.b) && Ordered(m.a, m.b) in r.frustrated)
  {
    hide IsReport, SameCamp, OtherCamp, Ordered, Says, KeptSign;
    SignMeans(m);
    if Opposes(m) || Agrees(m) {
      var e := Arc(m.a, m.b, KeptSign(m).value);
      assert Kept(Elems(claims), m) && e in ArcsOf(Elems(claims), relations);
      EdgeIsShown(claims, relations, r, e);
      ArcsAreSigned(Elems(claims), relations);
      FrustratedAreTheViolatedEdges(Elems(claims), ArcsOf(Elems(claims), relations), r, Ordered(m.a, m.b));
      ShownIsUnit(r, m.a);
      ShownIsUnit(r, m.b);
    }
  }

  lemma ShownIsUnit(r: Report, x: int)
    ensures Shown(r, x) == 1 || Shown(r, x) == -1
  {
  }

  /** The relation is at odds with the camps its ends are shown in. */
  ghost predicate AgainstCamps(r: Report, m: Relation) {
    (Opposes(m) && SameCamp(r, m.a, m.b)) || (Agrees(m) && OtherCamp(r, m.a, m.b))
  }

  /** The frustrated pairs are exactly the ends of contradictions within a camp and of agreements across camps. */
  lemma FrustratedMeans(claims: seq<int>, relations: seq<Relation>, r: Report, q: (int, int))
    requires Reports(claims, relations, r)
    ensures q in r.frustrated <==>
      exists m :: Between(claims, relations, m) && q == Ordered(m.a, m.b) && AgainstCamps(r, m)
  {
    hide IsReport, SameCamp, OtherCamp, Ordered, Says, KeptSign;
    var ids, g := Elems(claims), ArcsOf(Elems(claims), relations);
    ArcsAreSigned(ids, relations);
    FrustratedAreTheViolatedEdges(ids, g, r, q);
    if q in r.frustrated {
      var e :| e in g && AtOdds(r, e) && q == Ordered(e.src, e.dst);
      var m :| m in relations && Kept(ids, m) &&
        (e == Arc(m.a, m.b, KeptSign(m).value) || e == Arc(m.b, m.a, KeptSign(m).value));
      SignMeans(m);
      EdgeIsShown(claims, relations, r, e);
      Symmetric(r, e.src, e.dst);
      assert Between(claims, relations, m) && AgainstCamps(r, m);
    }
    if m :| Between(claims, relations, m) && q == Ordered(m.a, m.b) && AgainstCamps(r, m) {
      SignMeans(m);
      var e := Arc(m.a, m.b, KeptSign(m).value);
      assert Kept(ids, m) && e in g;
      EdgeIsShown(claims, relations, r, e);
      ShownIsUnit(r, m.a);
      ShownIsUnit(r, m.b);
    }
  }

  lemma Symmetric(r: Report, x: int, y: int)
    ensures SameCamp(r, x, y) <==> SameCamp(r, y, x)
    ensures OtherCamp(r, x, y) <==> OtherCamp(r, y, x)
    ensures Ordered(x, y) == Ordered(y, x)
  {
  }

  /** The unaligned claims are exactly those that no standing agreement or contradiction ties to another of the
      claims, or to themselves. */
  lemma UnalignedMeans(claims: seq<int>, relations: seq<Relation>, r: Report, x: int)
    requires Reports(claims, relations, r)
    ensures x in r.unaligned <==>
      x in claims && !exists m ::
        Between(claims, relations, m) && (Opposes(m) || Agrees(m)) && (m.a == x || m.b == x)
  {
    hide KeptSign, Says, AreComponents, Listed, ListedFrustrated;
    var ids, g := Elems(claims), ArcsOf(Elems(claims), relations);
    if m :| Between(claims, relations, m) && (Opposes(m) || Agrees(m)) && (m.a == x || m.b == x) {
      SignMeans(m);
      assert Kept(ids, m) && Arc(m.a, m.b, KeptSign(m).value) in g && Arc(m.b, m.a, KeptSign(m).value) in g;
      assert !Isolated(g, x);
    } else {
      forall e | e in g ensures e.src != x {
        var m :| m in relations && Kept(ids, m) &&
          (e == Arc(m.a, m.b, KeptSign(m).value) || e == Arc(m.b, m.a, KeptSign(m).value));
        SignMeans(m);
        assert Between(claims, relations, m);
      }
    }
  }

  /** A relation that is resolved, rejected or of another kind leaves the report as it is without it. */
  lemma IdleRelationDoesNotCount(claims: seq<int>, relations: seq<Relation>, k: nat, r: Report)
    requires k < |relations| && !Opposes(relations[k]) && !Agrees(relations[k])
    ensures Reports(claims, relations, r) <==> Reports(claims, relations[..k] + relations[k + 1..], r)
  {
    hide KeptSign, Says, IsReport;
    var fewer, ids := relations[..k] + relations[k + 1..], Elems(claims);
    SignMeans(relations[k]);
    assert relations == relations[..k] + [relations[k]] + relations[k + 1..];
    forall m | Kept(ids, m) ensures m in relations <==> m in fewer {
    }
    assert ArcsOf(ids, relations) == ArcsOf(ids, fewer);
  }

  /** Two claims in contradiction are two camps; two claims of which one supports the other are one. */
  lemma TwoClaims(m: Relation, r: Report)
    requires m.a == 1 && m.b == 2 && !m.resolved && m.userLabel == None && Reports([1, 2], [m], r)
    ensures m.kind == "contradicts" ==> OtherCamp(r, 1, 2) && r.frustrated == {}
    ensures m.kind == "supports" ==> SameCamp(r, 1, 2) && r.frustrated == {}
  {
    hide Reports, SameCamp, OtherCamp;
    SignMeans(m);
    if Opposes(m) || Agrees(m) {
      var e := Arc(1, 2, KeptSign(m).value);
      assert [m][0] == m && [1, 2][0] == 1 && [1, 2][1] == 2;
      assert Kept(Elems([1, 2]), m) && e in ArcsOf(Elems([1, 2]), [m]);
      OneEdgeIsBalanced(m, r, e);
    }
  }

  lemma OneEdgeIsBalanced(m: Relation, r: Report, e: Arc)
    requires m.a == 1 && m.b == 2 && Reports([1, 2], [m], r) && (Opposes(m) || Agrees(m))
    requires e == Arc(1, 2, KeptSign(m).value) && e in ArcsOf(Elems([1, 2]), [m])
    ensures r.frustrated == {} && (Opposes(m) ==> OtherCamp(r, 1, 2)) && (Agrees(m) ==> SameCamp(r, 1, 2))
  {
    hide IsReport, SameCamp, OtherCamp, KeptSign, Says;
    var ids, g := Elems([1, 2]), ArcsOf(Elems([1, 2]), [m]);
    SignMeans(m);
    ArcsAreSigned(ids, [m]);
    StructuralBalance(ids, g, r);
    var s := KeptSign(m).value;
    var colouring := (x: int) => if x == 2 then s else 1;
    assert Colouring(g, colouring) by {
      forall d | d in g ensures colouring(d.dst) == colouring(d.src) * d.sign {
        assert d == Arc(1, 2, s) || d == Arc(2, 1, s);
      }
    }
    assert Between([1, 2], [m], m) by { assert [m][0] == m && [1, 2][0] == 1 && [1, 2][1] == 2; }
    RelationPlacesItsEnds([1, 2], [m], r, m);
  }

  // ----- relations recorded on carried claims ---------------------------------------------------

  /** `t` is the claim that `id` is shown as: its successor where that is active, else itself. */
  predicate ShownAs(successor: map<int, int>, active: set<int>, id: int, t: int) {
    if id in successor && successor[id] in active then t == successor[id] else t == id
  }

  /** The followed relations are the recorded ones between claims shown as two different active claims, put on those
      two, and otherwise as they were. */
  lemma FollowedMeans(relations: seq<Relation>, successor: map<int, int>, active: set<int>, out: seq<Relation>,
      m: Relation)
    requires Carried.IsFollowed(relations, successor, active, out)
    ensures m in out <==>
      m.a != m.b && m.a in active && m.b in active
      && exists r ::
        r in relations && ShownAs(successor, active, r.a, m.a) && ShownAs(successor, active, r.b, m.b)
        && m == Relation(m.a, m.b, r.kind, r.userLabel, r.resolved)
  {
    if r :|
      r in relations && ShownAs(successor, active, r.a, m.a) && ShownAs(successor, active, r.b, m.b)
      && m == Relation(m.a, m.b, r.kind, r.userLabel, r.resolved) && m.a != m.b && m.a in active && m.b in active
    {
      assert Carried.Followable(successor, active, r) && m == Carried.Repointed(successor, active, r);
    }
    if m in out {
      var r :| r in relations && Carried.Followable(successor, active, r)
        && m == Carried.Repointed(successor, active, r);
    }
  }
}
