/** Relations recorded on a carried claim follow it to its successor before camps are computed
    (app/claims/camps.py:325-348). Following is contracting each carried link to a point. */
module Carried {
  import opened Common
  import opened SignedGraph
  import opened Camps

  /** The claim that stands for `id`: its successor, when it was carried and the successor is active. */
  function Target(successor: map<int, int>, active: set<int>, id: int): int {
    if id in successor && successor[id] in active then successor[id] else id
  }

  /** The relation can be followed to two different active claims. */
  predicate Followable(successor: map<int, int>, active: set<int>, r: Relation) {
    var a, b := Target(successor, active, r.a), Target(successor, active, r.b);
    a != b && a in active && b in active
  }

  function Repointed(successor: map<int, int>, active: set<int>, r: Relation): Relation {
    r.(a := Target(successor, active, r.a), b := Target(successor, active, r.b))
  }

  /** `follow_carried`. */
  method FollowCarried(relations: seq<Relation>, successor: map<int, int>, active: set<int>)
      returns (out: seq<Relation>)
    ensures forall m :: m in out <==>
      exists r :: r in relations && Followable(successor, active, r) && m == Repointed(successor, active, r)
  {
    out := [];
    for i := 0 to |relations|
      invariant forall m :: m in out <==>
        exists r :: r in relations[..i] && Followable(successor, active, r) && m == Repointed(successor, active, r)
    {
      hide Followable, Repointed;
      var relation := relations[i];
      assert relations[..i + 1] == relations[..i] + [relation];
      if Followable(successor, active, relation) {
        out := out + [Repointed(successor, active, relation)];
      }
    }
    assert relations[..|relations|] == relations;
  }

  ghost predicate IsFollowed(relations: seq<Relation>, successor: map<int, int>, active: set<int>, out: seq<Relation>) {
    forall m :: m in out <==>
      exists r :: r in relations && Followable(successor, active, r) && m == Repointed(successor, active, r)
  }

  // ---------------------------------------------------------------- following is contraction

  /** The graph as recorded: kept relations where they are, and an agreeing link from each carried
      claim to the successor it is the same statement as. */
  ghost predicate Recorded(relations: seq<Relation>, successor: map<int, int>, active: set<int>, e: Arc) {
    || (exists r ::
         r in relations && Followable(successor, active, r) && KeptSign(r).Some?
         && e in Both(r.a, r.b, KeptSign(r).value))
    || (exists p :: p in successor && successor[p] in active && e in Both(p, successor[p], 1))
  }

  ghost predicate IsRecorded(relations: seq<Relation>, successor: map<int, int>, active: set<int>, g: set<Arc>) {
    forall e :: e in g <==> Recorded(relations, successor, active, e)
  }

  /** Carried claims are not active. */
  ghost predicate CarriedOnly(successor: map<int, int>, active: set<int>) {
    forall p :: p in successor ==> p !in active
  }

  /** The arc comes from relation `r`, followed. */
  ghost predicate Follows(relations: seq<Relation>, successor: map<int, int>, active: set<int>, r: Relation, e: Arc) {
    && r in relations && Followable(successor, active, r) && KeptSign(r).Some?
    && e in Both(Target(successor, active, r.a), Target(successor, active, r.b), KeptSign(r).value)
  }

  lemma FollowedArc(relations: seq<Relation>, successor: map<int, int>, active: set<int>, out: seq<Relation>, e: Arc)
    requires IsFollowed(relations, successor, active, out)
    ensures e in ArcsOf(active, out) <==> exists r :: Follows(relations, successor, active, r, e)
  {
    hide ArcsOf, KeptSign, Followable, Target, IsFollowed;
    if e in ArcsOf(active, out) {
      var r := SourceOfArc(relations, successor, active, out, e);
    }
    if r :| Follows(relations, successor, active, r, e) {
      ArcOfSource(relations, successor, active, out, e, r);
    }
  }

  lemma SourceOfArc(relations: seq<Relation>, successor: map<int, int>, active: set<int>, out: seq<Relation>, e: Arc)
      returns (r: Relation)
    requires IsFollowed(relations, successor, active, out) && e in ArcsOf(active, out)
    ensures Follows(relations, successor, active, r, e)
  {
    var m :| m in out && Kept(active, m)
      && (e == Arc(m.a, m.b, KeptSign(m).value) || e == Arc(m.b, m.a, KeptSign(m).value));
    r :| r in relations && Followable(successor, active, r) && m == Repointed(successor, active, r);
    assert KeptSign(r) == KeptSign(m);
  }

  lemma ArcOfSource(relations: seq<Relation>, successor: map<int, int>, active: set<int>, out: seq<Relation>, e: Arc,
      r: Relation)
    requires IsFollowed(relations, successor, active, out) && Follows(relations, successor, active, r, e)
    ensures e in ArcsOf(active, out)
  {
    var m := Repointed(successor, active, r);
    assert m in out && Kept(active, m) && KeptSign(m) == KeptSign(r);
  }

  /** One arc as recorded is, between the claims that stand for its ends, one followed arc or nothing. */
  lemma ContractArc(relations: seq<Relation>, successor: map<int, int>, active: set<int>, out: seq<Relation>, e: Arc)
    requires IsFollowed(relations, successor, active, out) && CarriedOnly(successor, active)
      && Recorded(relations, successor, active, e)
    ensures var x, y := Target(successor, active, e.src), Target(successor, active, e.dst);
            Arc(x, y, e.sign) in ArcsOf(active, out) || (x == y && e.sign == 1)
  {
    hide ArcsOf, KeptSign, Followable;
    var x, y := Target(successor, active, e.src), Target(successor, active, e.dst);
    FollowedArc(relations, successor, active, out, Arc(x, y, e.sign));
    if r :|
      r in relations && Followable(successor, active, r) && KeptSign(r).Some?
      && e in Both(r.a, r.b, KeptSign(r).value)
    {
      assert Follows(relations, successor, active, r, Arc(x, y, e.sign));
    }
  }

  lemma {:induction false} ContractWalk(
      relations: seq<Relation>, successor: map<int, int>, active: set<int>, out: seq<Relation>,
                                        g: set<Arc>, x: int, p: seq<Arc>, y: int)
    requires IsFollowed(relations, successor, active, out) && CarriedOnly(successor, active)
      && IsRecorded(relations, successor, active, g)
    requires Walk(g, x, p, y)
    ensures Reaches(ArcsOf(active, out), Target(successor, active, x), Target(successor, active, y), SignOf(p))
    decreases p
  {
    hide ArcsOf, IsFollowed, CarriedOnly, Recorded, Target;
    var f := ArcsOf(active, out);
    if p == [] {
      ReachesSelf(f, Target(successor, active, x));
    } else {
      ContractWalk(relations, successor, active, out, g, p[0].dst, p[1..], y);
      ContractArc(relations, successor, active, out, p[0]);
      Prepend(f, Target(successor, active, x), Target(successor, active, p[0].dst), p[0].sign,
        Target(successor, active, y), SignOf(p[1..]));
    }
  }

  lemma Prepend(g: set<Arc>, x: int, y: int, sign: int, z: int, s: int)
    requires Arc(x, y, sign) in g || (x == y && sign == 1)
    requires Reaches(g, y, z, s)
    ensures Reaches(g, x, z, sign * s)
  {
    var p :| Walk(g, y, p, z) && SignOf(p) == s;
    if !(x == y && sign == 1) {
      var q := [Arc(x, y, sign)] + p;
      assert q[1..] == p && Walk(g, x, q, z) && SignOf(q) == sign * s;
    }
  }

  lemma TargetIsLinked(relations: seq<Relation>, successor: map<int, int>, active: set<int>, g: set<Arc>, id: int)
    requires IsRecorded(relations, successor, active, g)
    ensures var t := Target(successor, active, id);
            t == id || (Arc(id, t, 1) in g && Arc(t, id, 1) in g)
  {
    var t := Target(successor, active, id);
    if t != id {
      assert Arc(id, t, 1) in Both(id, successor[id], 1) && Arc(t, id, 1) in Both(id, successor[id], 1);
      assert Recorded(relations, successor, active, Arc(id, t, 1))
        && Recorded(relations, successor, active, Arc(t, id, 1));
    }
  }

  /** One followed arc is a walk as recorded: back to the predecessor, across, and forward again. */
  lemma ExpandArc(relations: seq<Relation>, successor: map<int, int>, active: set<int>, out: seq<Relation>,
      g: set<Arc>, e: Arc, z: int, s: int)
    requires IsFollowed(relations, successor, active, out) && IsRecorded(relations, successor, active, g)
    requires e in ArcsOf(active, out) && Reaches(g, e.dst, z, s)
    ensures Reaches(g, e.src, z, e.sign * s)
  {
    hide ArcsOf, KeptSign, Followable, IsFollowed, IsRecorded, Reaches;
    FollowedArc(relations, successor, active, out, e);
    var r :| Follows(relations, successor, active, r, e);
    var x, y := if e.src == Target(successor, active, r.a) && e.dst == Target(successor, active, r.b) then r.a else r.b,
                if e.src == Target(successor, active, r.a) && e.dst == Target(successor, active, r.b) then r.b else r.a;
    RelationIsRecorded(relations, successor, active, g, r, Arc(x, y, e.sign));
    TargetIsLinked(relations, successor, active, g, x);
    TargetIsLinked(relations, successor, active, g, y);
    Prepend(g, y, e.dst, 1, z, s);
    Prepend(g, x, y, e.sign, z, s);
    Prepend(g, e.src, x, 1, z, e.sign * s);
  }

  lemma RelationIsRecorded(
      relations: seq<Relation>, successor: map<int, int>, active: set<int>, g: set<Arc>, r: Relation, e: Arc)
    requires IsRecorded(relations, successor, active, g)
    requires r in relations && Followable(successor, active, r) && KeptSign(r).Some?
      && e in Both(r.a, r.b, KeptSign(r).value)
    ensures e in g
  {
    assert Recorded(relations, successor, active, e);
  }

  lemma {:induction false} ExpandWalk(
      relations: seq<Relation>, successor: map<int, int>, active: set<int>, out: seq<Relation>,
                                      g: set<Arc>, x: int, p: seq<Arc>, y: int)
    requires IsFollowed(relations, successor, active, out) && IsRecorded(relations, successor, active, g)
    requires Walk(ArcsOf(active, out), x, p, y)
    ensures Reaches(g, x, y, SignOf(p))
    decreases p
  {
    hide ArcsOf, IsFollowed, IsRecorded;
    if p == [] {
      ReachesSelf(g, x);
    } else {
      ExpandWalk(relations, successor, active, out, g, p[0].dst, p[1..], y);
      ExpandArc(relations, successor, active, out, g, p[0], y, SignOf(p[1..]));
    }
  }

  /** Between active claims, the followed relations carry exactly the agreements and disagreements of
      the relations as recorded, each carried claim being one with its successor: nothing that can be
      followed is lost, and nothing is made up. */
  lemma FollowingIsContraction(relations: seq<Relation>, successor: map<int, int>, active: set<int>, out: seq<Relation>,
                               g: set<Arc>, x: int, y: int, s: int)
    requires IsFollowed(relations, successor, active, out) && CarriedOnly(successor, active)
      && IsRecorded(relations, successor, active, g)
    requires x in active && y in active
    ensures Reaches(ArcsOf(active, out), x, y, s) <==> Reaches(g, x, y, s)
  {
    hide ArcsOf, IsFollowed, IsRecorded;
    if p :| Walk(ArcsOf(active, out), x, p, y) && SignOf(p) == s {
      ExpandWalk(relations, successor, active, out, g, x, p, y);
    }
    if p :| Walk(g, x, p, y) && SignOf(p) == s {
      ContractWalk(relations, successor, active, out, g, x, p, y);
    }
  }
}
