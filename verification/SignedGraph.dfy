/** Signed graphs: symmetric sets of signed arcs, walks through them, and what the sign of a
    walk says about two-colourings. */
module SignedGraph {

  datatype Arc = Arc(src: int, dst: int, sign: int)

  /** An undirected graph whose edges are labelled +1 or -1: each edge appears in both directions. */
  ghost predicate Signed(g: set<Arc>) {
    forall e :: e in g ==> (e.sign == 1 || e.sign == -1) && Arc(e.dst, e.src, e.sign) in g
  }

  /** Both directions of one edge. */
  function Both(x: int, y: int, sign: int): set<Arc> {
    {Arc(x, y, sign), Arc(y, x, sign)}
  }

  /** `p` leads from `x` to `y` along arcs of `g`. */
  ghost predicate Walk(g: set<Arc>, x: int, p: seq<Arc>, y: int)
    decreases p
  {
    if p == [] then x == y
    else p[0] in g && p[0].src == x && Walk(g, p[0].dst, p[1..], y)
  }

  ghost function SignOf(p: seq<Arc>): int {
    if p == [] then 1 else p[0].sign * SignOf(p[1..])
  }

  ghost predicate Connected(g: set<Arc>, x: int, y: int) {
    exists p :: Walk(g, x, p, y)
  }

  /** Some walk from `x` to `y` has sign product `s`. */
  ghost predicate Reaches(g: set<Arc>, x: int, y: int, s: int) {
    exists p :: Walk(g, x, p, y) && SignOf(p) == s
  }

  ghost predicate Colouring(g: set<Arc>, c: int -> int) {
    && (forall x :: c(x) == 1 || c(x) == -1)
    && (forall e :: e in g ==> c(e.dst) == c(e.src) * e.sign)
  }

  lemma {:induction false} SignIsUnit(g: set<Arc>, x: int, p: seq<Arc>, y: int)
    requires Signed(g) && Walk(g, x, p, y)
    ensures SignOf(p) == 1 || SignOf(p) == -1
    decreases p
  {
    if p != [] {
      SignIsUnit(g, p[0].dst, p[1..], y);
    }
  }

  lemma {:induction false} WalkJoin(g: set<Arc>, x: int, p: seq<Arc>, y: int, q: seq<Arc>, z: int)
    requires Walk(g, x, p, y) && Walk(g, y, q, z)
    ensures Walk(g, x, p + q, z) && SignOf(p + q) == SignOf(p) * SignOf(q)
    decreases p
  {
    if p == [] {
      assert p + q == q;
    } else {
      WalkJoin(g, p[0].dst, p[1..], y, q, z);
      assert (p + q)[1..] == p[1..] + q;
    }
  }

  ghost function Backwards(p: seq<Arc>): seq<Arc> {
    if p == [] then [] else Backwards(p[1..]) + [Arc(p[0].dst, p[0].src, p[0].sign)]
  }

  lemma {:induction false} WalkBack(g: set<Arc>, x: int, p: seq<Arc>, y: int)
    requires Signed(g) && Walk(g, x, p, y)
    ensures Walk(g, y, Backwards(p), x) && SignOf(Backwards(p)) == SignOf(p)
    decreases p
  {
    if p != [] {
      WalkBack(g, p[0].dst, p[1..], y);
      var back := Arc(p[0].dst, p[0].src, p[0].sign);
      assert Walk(g, back.src, [back], back.dst);
      assert SignOf([back]) == back.sign * SignOf([]);
      WalkJoin(g, y, Backwards(p[1..]), p[0].dst, [back], x);
    }
  }

  lemma ReachesSelf(g: set<Arc>, x: int)
    ensures Reaches(g, x, x, 1)
  {
    assert Walk(g, x, [], x) && SignOf([]) == 1;
  }

  lemma ReachesStep(g: set<Arc>, x: int, e: Arc, s: int)
    requires e in g && Reaches(g, x, e.src, s)
    ensures Reaches(g, x, e.dst, s * e.sign)
  {
    var p :| Walk(g, x, p, e.src) && SignOf(p) == s;
    assert SignOf([e]) == e.sign * SignOf([]);
    assert Walk(g, e.src, [e], e.dst);
    WalkJoin(g, x, p, e.src, [e], e.dst);
  }

  lemma ConnectedSym(g: set<Arc>, x: int, y: int)
    requires Signed(g) && Connected(g, x, y)
    ensures Connected(g, y, x)
  {
    var p :| Walk(g, x, p, y);
    WalkBack(g, x, p, y);
  }

  lemma ConnectedTrans(g: set<Arc>, x: int, y: int, z: int)
    requires Connected(g, x, y) && Connected(g, y, z)
    ensures Connected(g, x, z)
  {
    var p :| Walk(g, x, p, y);
    var q :| Walk(g, y, q, z);
    WalkJoin(g, x, p, y, q, z);
  }

  /** A set that no arc leaves contains everything connected to any of its members. */
  lemma {:induction false} ClosedUnderWalks(g: set<Arc>, inside: set<int>, x: int, p: seq<Arc>, y: int)
    requires forall e :: e in g && e.src in inside ==> e.dst in inside
    requires x in inside && Walk(g, x, p, y)
    ensures y in inside
    decreases p
  {
    if p != [] {
      ClosedUnderWalks(g, inside, p[0].dst, p[1..], y);
    }
  }

  /** Labels that every arc leaving `inside` multiplies by its sign follow the sign of whole walks. */
  lemma {:induction false} LabelsFollowWalk(
      g: set<Arc>, inside: int -> bool, f: int -> int, x: int, p: seq<Arc>, y: int)
    requires forall e :: e in g && inside(e.src) ==> inside(e.dst) && f(e.dst) == f(e.src) * e.sign
    requires inside(x) && Walk(g, x, p, y)
    ensures inside(y) && f(y) == f(x) * SignOf(p)
    decreases p
  {
    if p != [] {
      LabelsFollowWalk(g, inside, f, p[0].dst, p[1..], y);
    }
  }

}
