/** Camps: two-colouring the signed graph of claims (app/claims/camps.py). */
module Camps {
  import opened Common
  import opened SignedGraph

  datatype Relation = Relation(a: int, b: int, kind: string, userLabel: Option<string>, resolved: bool)

  datatype Edge = Edge(a: int, b: int, sign: int)

  /** `campB == []` stands for the missing "B" key. Frustrated edges are kept as a set of ordered pairs. */
  datatype Component = Component(campA: seq<int>, campB: seq<int>, balanced: bool, frustrated: set<(int, int)>)

  datatype Report = Report(components: seq<Component>, unaligned: seq<int>, balanced: bool, frustrated: set<(int, int)>)

  // ----- which relations become edges -------------------------------------------------------

  /** A user label replaces the judged kind, except that "confirmed" (or an empty label) keeps it. */
  function EffectiveKind(r: Relation): string {
    if r.userLabel.Some? && r.userLabel.value != "confirmed" && r.userLabel.value != ""
    then r.userLabel.value else r.kind
  }

  /** +1 for an agreeing relation, -1 for an opposing one, None when it forms no edge. */
  function KeptSign(r: Relation): Option<int> {
    if r.resolved || r.userLabel == Some("rejected") then None
    else if EffectiveKind(r) in ["supports", "duplicate", "refines"] then Some(1)
    else if EffectiveKind(r) == "contradicts" then Some(-1)
    else None
  }

  ghost predicate Kept(ids: set<int>, r: Relation) {
    KeptSign(r).Some? && r.a in ids && r.b in ids
  }

  /** The signed graph on the claims `ids`: every kept relation between two of them, both ways round. */
  ghost function ArcsOf(ids: set<int>, relations: seq<Relation>): set<Arc> {
    (set r | r in relations && Kept(ids, r) :: Arc(r.a, r.b, KeptSign(r).value)) +
    (set r | r in relations && Kept(ids, r) :: Arc(r.b, r.a, KeptSign(r).value))
  }

  lemma ArcsAreSigned(ids: set<int>, relations: seq<Relation>)
    ensures Signed(ArcsOf(ids, relations))
    ensures forall e :: e in ArcsOf(ids, relations) ==> e.src in ids && e.dst in ids
  {
  }

  method Edges(relations: seq<Relation>) returns (out: seq<Edge>)
    ensures forall e :: e in out <==>
      exists r :: r in relations && KeptSign(r) == Some(e.sign) && r.a == e.a && r.b == e.b
  {
    out := [];
    for i := 0 to |relations|
      invariant forall e :: e in out <==>
        exists r :: r in relations[..i] && KeptSign(r) == Some(e.sign) && r.a == e.a && r.b == e.b
    {
      var relation := relations[i];
      assert relations[..i + 1] == relations[..i] + [relation];
      if relation.resolved || relation.userLabel == Some("rejected") {
        continue;
      }
      var kind :=
        if relation.userLabel == Some("confirmed") then relation.kind
        else if relation.userLabel.Some? && relation.userLabel.value != "" then relation.userLabel.value
        else relation.kind;
      var sign := 0;
      if kind in ["supports", "duplicate", "refines"] {
        sign := 1;
      } else if kind in ["contradicts"] {
        sign := -1;
      } else {
        continue;
      }
      assert KeptSign(relation) == Some(sign);
      out := out + [Edge(relation.a, relation.b, sign)];
    }
    assert relations[..|relations|] == relations;
  }

  // ----- adjacency lists -------------------------------------------------------------------

  type Adjacency = map<int, seq<(int, int)>>

  function Neighbours(adjacency: Adjacency, x: int): seq<(int, int)> {
    if x in adjacency then adjacency[x] else []
  }

  /** Python's `adjacency.setdefault(x, []).append(n)`. */
  function Append(adjacency: Adjacency, x: int, n: (int, int)): (r: Adjacency)
    ensures forall y, m :: m in Neighbours(r, y) <==> m in Neighbours(adjacency, y) || (y == x && m == n)
  {
    adjacency[x := Neighbours(adjacency, x) + [n]]
  }

  ghost predicate Lists(adjacency: Adjacency, g: set<Arc>) {
    forall x, n :: n in Neighbours(adjacency, x) <==> Arc(x, n.0, n.1) in g
  }

  ghost function ArcsOfEdges(ids: set<int>, edges: seq<Edge>): set<Arc> {
    (set e | e in edges && e.a in ids && e.b in ids :: Arc(e.a, e.b, e.sign)) +
    (set e | e in edges && e.a in ids && e.b in ids :: Arc(e.b, e.a, e.sign))
  }

  ghost function BothWays(ids: set<int>, e: Edge): set<Arc> {
    if e.a in ids && e.b in ids then {Arc(e.a, e.b, e.sign), Arc(e.b, e.a, e.sign)} else {}
  }

  lemma OneMoreEdge(ids: set<int>, edges: seq<Edge>, i: nat)
    requires i < |edges|
    ensures ArcsOfEdges(ids, edges[..i + 1]) == ArcsOfEdges(ids, edges[..i]) + BothWays(ids, edges[i])
  {
    assert edges[..i + 1] == edges[..i] + [edges[i]];
  }

  method BuildAdjacency(ids: set<int>, edges: seq<Edge>) returns (adjacency: Adjacency)
    ensures Lists(adjacency, ArcsOfEdges(ids, edges))
  {
    adjacency := map[];
    assert Lists(adjacency, ArcsOfEdges(ids, edges[..0]));
    hide ArcsOfEdges, Append;
    for i := 0 to |edges|
      invariant Lists(adjacency, ArcsOfEdges(ids, edges[..i]))
    {
      var e := edges[i];
      OneMoreEdge(ids, edges, i);
      if e.a in ids && e.b in ids {
        adjacency := Append(adjacency, e.a, (e.b, e.sign));
        adjacency := Append(adjacency, e.b, (e.a, e.sign));
      }
    }
    assert edges[..|edges|] == edges;
  }

  // ----- what a report means ---------------------------------------------------------------

  function Ordered(x: int, y: int): (int, int) {
    if x <= y then (x, y) else (y, x)
  }

  ghost predicate Has(c: Component, x: int) {
    x in c.campA || x in c.campB
  }

  /** The claim a component was discovered from. */
  ghost function Root(c: Component): int {
    if c.campA == [] then 0 else c.campA[0]
  }

  /** The colour a component's split gives to a member. */
  ghost function Side(c: Component, x: int): int {
    if x in c.campA then 1 else -1
  }

  ghost predicate Violates(c: Component, e: Arc) {
    Has(c, e.src) && Side(c, e.dst) != Side(c, e.src) * e.sign
  }

  ghost function Frustrated(g: set<Arc>, c: Component): set<(int, int)> {
    set e | e in g && Violates(c, e) :: Ordered(e.src, e.dst)
  }

  /** One component: reached from its smallest id, each member on the side its walk's sign says,
      closed under edges, with exactly the edges its split violates reported as frustrated. */
  ghost predicate IsComponent(g: set<Arc>, c: Component) {
    && c.campA != [] && Increasing(c.campA) && Increasing(c.campB)
    && (forall x {:trigger Reaches(g, Root(c), x, 1)} :: x in c.campA ==> Reaches(g, Root(c), x, 1))
    && (forall x :: x in c.campB ==> x !in c.campA && Root(c) < x)
    && (forall x {:trigger Reaches(g, Root(c), x, -1)} :: x in c.campB ==> Reaches(g, Root(c), x, -1))
    && (forall e :: e in g && Has(c, e.src) ==> Has(c, e.dst))
    && c.frustrated == Frustrated(g, c)
    && (c.balanced <==> c.frustrated == {})
  }

  ghost predicate Isolated(g: set<Arc>, x: int) {
    forall e :: e in g ==> e.src != x
  }

  ghost predicate Listed(cs: seq<Component>, x: int) {
    exists i :: 0 <= i < |cs| && Has(cs[i], x)
  }

  ghost predicate ListedFrustrated(cs: seq<Component>, q: (int, int)) {
    exists i :: 0 <= i < |cs| && q in cs[i].frustrated
  }

  ghost predicate Apart(c: Component, d: Component) {
    forall x :: !(Has(c, x) && Has(d, x))
  }

  ghost predicate AreComponents(g: set<Arc>, cs: seq<Component>) {
    && (forall i :: 0 <= i < |cs| ==> IsComponent(g, cs[i]))
    && (forall i, j :: 0 <= i < j < |cs| ==> Root(cs[i]) < Root(cs[j]) && Apart(cs[i], cs[j]))
  }

  /** The whole report: the components in order of their smallest ids, everything else unaligned. */
  ghost predicate IsReport(ids: set<int>, g: set<Arc>, r: Report) {
    && AreComponents(g, r.components)
    && Increasing(r.unaligned)
    && (forall x {:trigger x in r.unaligned} {:trigger Isolated(g, x)} ::
      x in r.unaligned <==> x in ids && Isolated(g, x))
    && (forall x {:trigger Listed(r.components, x)} {:trigger Isolated(g, x)} ::
      Listed(r.components, x) <==> x in ids && !Isolated(g, x))
    && (forall q :: q in r.frustrated <==> ListedFrustrated(r.components, q))
    && (r.balanced <==> r.frustrated == {})
  }

  ghost predicate ClosedIn(g: set<Arc>, inside: set<int>) {
    forall e :: e in g && e.src in inside ==> e.dst in inside
  }

  // ----- the algorithm ---------------------------------------------------------------------

  /** Everything met so far: `visited` grew by exactly `comp` and `queue`, all of it connected to `node`. */
  ghost predicate Discovered(ids: set<int>, g: set<Arc>, node: int, before: set<int>,
                             comp: seq<int>, queue: seq<int>, visited: set<int>) {
    && Distinct(queue)
    && (forall x :: x in queue ==> x !in comp)
    && (forall x :: x in visited <==> x in before || x in comp || x in queue)
    && (forall x :: x in comp || x in queue ==> x in ids && x !in before)
    && (forall x {:trigger Connected(g, node, x)} :: x in comp || x in queue ==> Connected(g, node, x))
  }

  /** Breadth-first discovery of everything connected to `node`. */
  method Discover(ids: set<int>, ghost g: set<Arc>, adjacency: Adjacency, node: int, visited: set<int>)
    returns (comp: seq<int>, visited': set<int>)
    requires Signed(g) && Lists(adjacency, g) && forall e :: e in g ==> e.src in ids && e.dst in ids
    requires node in ids && node !in visited && ClosedIn(g, visited)
    ensures forall x :: x in visited' <==> x in visited || x in comp
    ensures node in comp && forall x :: x in comp ==> x in ids && x !in visited
    ensures forall x {:trigger Connected(g, node, x)} :: x in comp ==> Connected(g, node, x)
    ensures ClosedIn(g, Elems(comp)) && ClosedIn(g, visited')
  {
    comp := [];
    var queue := [node];
    visited' := visited + {node};
    ReachesSelf(g, node);
    while queue != []
      invariant Discovered(ids, g, node, visited, comp, queue, visited')
      invariant node in comp || node in queue
      invariant forall e :: e in g && e.src in comp ==> e.dst in visited'
      decreases ids - Elems(comp)
    {
      var curr := queue[0];
      assert curr in queue && curr !in Elems(comp);
      ghost var comp0 := comp;
      var nbrs := Neighbours(adjacency, curr);
      comp := comp + [curr];
      queue, visited' := Visit(ids, g, node, visited, comp, curr, nbrs, queue[1..], visited');
      forall e | e in g && e.src in comp ensures e.dst in visited' {
        if e.src == curr {
          assert (e.dst, e.sign) in nbrs;
        }
      }
      assert ids - Elems(comp) < ids - Elems(comp0) by {
        assert curr in Elems(comp);
        assert forall x :: x in Elems(comp0) ==> x in Elems(comp);
      }
    }
    forall e | e in g && e.src in comp ensures e.dst in comp {
      NeighbourStays(g, visited, e, node);
    }
  }

  /** One turn of the discovery loop: mark and queue the neighbours of `curr` not met before. */
  method Visit(ids: set<int>, ghost g: set<Arc>, ghost node: int, ghost before: set<int>, ghost comp: seq<int>,
               ghost curr: int, nbrs: seq<(int, int)>, queue0: seq<int>, visited0: set<int>)
    returns (queue: seq<int>, visited: set<int>)
    requires Signed(g) && ClosedIn(g, before) && forall e :: e in g ==> e.dst in ids
    requires forall n :: n in nbrs ==> Arc(curr, n.0, n.1) in g
    requires curr in comp && Discovered(ids, g, node, before, comp, queue0, visited0)
    ensures Discovered(ids, g, node, before, comp, queue, visited)
    ensures visited0 <= visited && forall n :: n in nbrs ==> n.0 in visited
  {
    queue, visited := queue0, visited0;
    for j := 0 to |nbrs|
      invariant Discovered(ids, g, node, before, comp, queue, visited)
      invariant visited0 <= visited && forall n :: n in nbrs[..j] ==> n.0 in visited
    {
      assert nbrs[j] in nbrs && nbrs[..j + 1] == nbrs[..j] + [nbrs[j]];
      var nbr := nbrs[j].0;
      NeighbourStays(g, before, Arc(curr, nbr, nbrs[j].1), node);
      if nbr !in visited && nbr in ids {
        visited := visited + {nbr};
        queue := queue + [nbr];
      }
    }
    assert nbrs[..|nbrs|] == nbrs;
  }

  lemma NeighbourStays(g: set<Arc>, visited: set<int>, e: Arc, node: int)
    requires Signed(g) && ClosedIn(g, visited) && e in g && e.src !in visited && Connected(g, node, e.src)
    ensures e.dst !in visited && Connected(g, node, e.dst)
  {
    assert Arc(e.dst, e.src, e.sign) in g;
    var p :| Walk(g, node, p, e.src);
    ReachesStep(g, node, e, SignOf(p));
  }

  type Colours = map<int, int>

  ghost predicate Clash(colour: Colours, e: Arc) {
    e.src in colour && e.dst in colour && colour[e.dst] != colour[e.src] * e.sign
  }

  /** Every coloured claim is reached from `node` by a walk whose sign is its colour. */
  ghost predicate WellColoured(ids: set<int>, g: set<Arc>, node: int, colour: Colours) {
    && (forall x :: x in colour ==> x in ids && (colour[x] == 1 || colour[x] == -1))
    && (forall x {:trigger Reaches(g, node, x, colour[x])} :: x in colour ==> Reaches(g, node, x, colour[x]))
  }

  /** The coloured claims are those finished and those still queued, without repetition. */
  ghost predicate Frontier(done: set<int>, queue: seq<int>, colour: Colours) {
    && Distinct(queue)
    && (forall x :: x in queue ==> x !in done)
    && (forall x :: x in colour <==> x in done || x in queue)
  }

  ghost function Clashes(g: set<Arc>, done: set<int>, colour: Colours): set<(int, int)> {
    set e | e in g && e.src in done && Clash(colour, e) :: Ordered(e.src, e.dst)
  }

  ghost function ClashesAt(colour: Colours, curr: int, nbrs: seq<(int, int)>): set<(int, int)> {
    set n | n in nbrs && Clash(colour, Arc(curr, n.0, n.1)) :: Ordered(curr, n.0)
  }

  lemma ClashesGrow(g: set<Arc>, done: set<int>, curr: int, nbrs: seq<(int, int)>, before: Colours, after: Colours)
    requires curr in before && forall n :: n in nbrs <==> Arc(curr, n.0, n.1) in g
    requires forall x :: x in before ==> x in after && after[x] == before[x]
    requires forall x :: x in done ==> x in before
    requires forall e :: e in g && e.src in done ==> e.dst in before
    ensures Clashes(g, done + {curr}, after) == Clashes(g, done, before) + ClashesAt(after, curr, nbrs)
  {
    forall q | q in Clashes(g, done + {curr}, after)
      ensures q in Clashes(g, done, before) + ClashesAt(after, curr, nbrs)
    {
      var e :| e in g && e.src in done + {curr} && Clash(after, e) && q == Ordered(e.src, e.dst);
      if e.src in done {
        assert Clash(before, e);
      } else {
        assert (e.dst, e.sign) in nbrs;
      }
    }
    forall q | q in Clashes(g, done, before)
      ensures q in Clashes(g, done + {curr}, after)
    {
      var e :| e in g && e.src in done && Clash(before, e) && q == Ordered(e.src, e.dst);
      assert Clash(after, e);
    }
    forall q | q in ClashesAt(after, curr, nbrs)
      ensures q in Clashes(g, done + {curr}, after)
    {
      var n :| n in nbrs && Clash(after, Arc(curr, n.0, n.1)) && q == Ordered(curr, n.0);
      assert Arc(curr, n.0, n.1) in g;
    }
  }

  /** Breadth-first two-colouring from `node`; `frustrated` collects the pairs whose colours clash. */
  method TwoColour(ids: set<int>, ghost g: set<Arc>, adjacency: Adjacency, node: int)
    returns (colour: Colours, frustrated: set<(int, int)>)
    requires Signed(g) && Lists(adjacency, g) && forall e :: e in g ==> e.src in ids && e.dst in ids
    requires node in ids
    ensures node in colour && colour[node] == 1 && WellColoured(ids, g, node, colour)
    ensures ClosedIn(g, colour.Keys)
    ensures frustrated == Clashes(g, colour.Keys, colour)
  {
    colour := map[node := 1];
    frustrated := {};
    var queue := [node];
    ghost var done := {};
    ReachesSelf(g, node);
    while queue != []
      invariant Frontier(done, queue, colour) && WellColoured(ids, g, node, colour)
      invariant node in colour && colour[node] == 1
      invariant forall e :: e in g && e.src in done ==> e.dst in colour
      invariant frustrated == Clashes(g, done, colour)
      decreases ids - done
    {
      var curr := queue[0];
      assert curr in ids && curr !in done;
      ghost var before := colour;
      var nbrs := Neighbours(adjacency, curr);
      var clashes;
      colour, queue, clashes := Relax(ids, g, node, curr, nbrs, done, colour, queue[1..]);
      forall e | e in g && e.src == curr ensures e.dst in colour {
        assert (e.dst, e.sign) in nbrs;
      }
      ClashesGrow(g, done, curr, nbrs, before, colour);
      frustrated := frustrated + clashes;
      done := done + {curr};
    }
    assert forall x :: x in done <==> x in colour.Keys;
    assert done == colour.Keys;
  }

  /** One turn of the colouring loop: colour the neighbours of `curr`, or notice that they clash. */
  method Relax(ids: set<int>, ghost g: set<Arc>, node: int, curr: int, nbrs: seq<(int, int)>, ghost done: set<int>,
               colour0: Colours, queue0: seq<int>)
    returns (colour: Colours, queue: seq<int>, frustrated: set<(int, int)>)
    requires forall n :: n in nbrs ==> Arc(curr, n.0, n.1) in g
    requires forall e :: e in g ==> e.dst in ids && (e.sign == 1 || e.sign == -1)
    requires curr in colour0 && Frontier(done + {curr}, queue0, colour0) && WellColoured(ids, g, node, colour0)
    ensures forall x :: x in colour0 ==> x in colour && colour[x] == colour0[x]
    ensures Frontier(done + {curr}, queue, colour) && WellColoured(ids, g, node, colour)
    ensures forall n :: n in nbrs ==> n.0 in colour
    ensures frustrated == ClashesAt(colour, curr, nbrs)
  {
    colour, queue, frustrated := colour0, queue0, {};
    for j := 0 to |nbrs|
      invariant forall x :: x in colour0 ==> x in colour && colour[x] == colour0[x]
      invariant Frontier(done + {curr}, queue, colour) && WellColoured(ids, g, node, colour)
      invariant forall n :: n in nbrs[..j] ==> n.0 in colour
      invariant frustrated == ClashesAt(colour, curr, nbrs[..j])
    {
      var nbr, sign := nbrs[j].0, nbrs[j].1;
      assert nbrs[j] in nbrs && nbrs[..j + 1] == nbrs[..j] + [nbrs[j]];
      ghost var before := colour;
      if nbr in ids {
        var expected := colour[curr] * sign;
        if nbr in colour {
          if colour[nbr] != expected {
            frustrated := frustrated + {Ordered(curr, nbr)};
          }
        } else {
          ReachesStep(g, node, Arc(curr, nbr, sign), colour[curr]);
          colour := colour[nbr := expected];
          queue := queue + [nbr];
        }
      }
      OneMoreNeighbour(before, colour, curr, nbrs, j);
    }
    assert nbrs[..|nbrs|] == nbrs;
  }

  lemma OneMoreNeighbour(before: Colours, after: Colours, curr: int, nbrs: seq<(int, int)>, j: nat)
    requires j < |nbrs| && curr in before && nbrs[j].0 in after
    requires forall x :: x in before ==> x in after && after[x] == before[x]
    requires forall n :: n in nbrs[..j] ==> n.0 in before
    ensures ClashesAt(after, curr, nbrs[..j + 1]) == ClashesAt(before, curr, nbrs[..j]) +
      (if after[nbrs[j].0] != after[curr] * nbrs[j].1 then {Ordered(curr, nbrs[j].0)} else {})
  {
    assert nbrs[..j + 1] == nbrs[..j] + [nbrs[j]];
    forall n | n in nbrs[..j]
      ensures Clash(before, Arc(curr, n.0, n.1)) <==> Clash(after, Arc(curr, n.0, n.1))
    {
    }
  }

  lemma DiscoveredIsColoured(ids: set<int>, g: set<Arc>, node: int, comp: seq<int>, colour: Colours)
    requires node in comp && ClosedIn(g, Elems(comp))
      && forall x {:trigger Connected(g, node, x)} :: x in comp ==> Connected(g, node, x)
    requires node in colour && ClosedIn(g, colour.Keys) && WellColoured(ids, g, node, colour)
    ensures forall x :: x in comp <==> x in colour
  {
    forall x | x in comp ensures x in colour {
      assert Connected(g, node, x);
      var p :| Walk(g, node, p, x);
      ClosedUnderWalks(g, colour.Keys, node, p, x);
    }
    forall x | x in colour ensures x in comp {
      assert Reaches(g, node, x, colour[x]);
      var p :| Walk(g, node, p, x) && SignOf(p) == colour[x];
      ClosedUnderWalks(g, Elems(comp), node, p, x);
    }
  }

  lemma SplitIsComponent(ids: set<int>, g: set<Arc>, node: int, colour: Colours, c: Component)
    requires node in colour && colour[node] == 1 && WellColoured(ids, g, node, colour) && ClosedIn(g, colour.Keys)
    requires forall x :: x in colour ==> node <= x
    requires Increasing(c.campA) && Increasing(c.campB)
    requires forall x :: x in c.campA <==> x in colour && colour[x] == 1
    requires forall x :: x in c.campB <==> x in colour && colour[x] == -1
    requires c.frustrated == Clashes(g, colour.Keys, colour) && c.balanced == (c.frustrated == {})
    ensures IsComponent(g, c) && Root(c) == node && forall x :: Has(c, x) <==> x in colour
  {
    assert node in c.campA && c.campA[0] in c.campA;
    forall x ensures Has(c, x) <==> x in colour {
      if x in colour { assert colour[x] == 1 || colour[x] == -1; }
    }
    forall e | e in g && e.src in colour ensures e.dst in colour && (Violates(c, e) <==> Clash(colour, e)) {
      assert e.dst in colour.Keys;
      assert Side(c, e.src) == colour[e.src] && Side(c, e.dst) == colour[e.dst];
    }
    assert forall e :: e in g ==> (Violates(c, e) <==> e.src in colour.Keys && Clash(colour, e));
    assert Frustrated(g, c) == Clashes(g, colour.Keys, colour);
  }

  /** Group the members by colour; a member without a colour counts as +1. */
  method SplitByColour(comp: seq<int>, colour: Colours) returns (a: seq<int>, b: seq<int>)
    ensures Increasing(a) && Increasing(b)
    ensures forall x :: x in a <==> x in comp && !(x in colour && colour[x] != 1)
    ensures forall x :: x in b <==> x in comp && x in colour && colour[x] != 1
  {
    var plus, minus := {}, {};
    for i := 0 to |comp|
      invariant forall x :: x in plus <==> x in comp[..i] && !(x in colour && colour[x] != 1)
      invariant forall x :: x in minus <==> x in comp[..i] && x in colour && colour[x] != 1
    {
      var n := comp[i];
      assert comp[..i + 1] == comp[..i] + [n];
      if n in colour && colour[n] != 1 {
        minus := minus + {n};
      } else {
        plus := plus + {n};
      }
    }
    assert comp[..|comp|] == comp;
    a, b := Sorted(plus), Sorted(minus);
  }

  /** The component of `node`: discover it, colour it, split it by colour. */
  method BuildComponent(ids: set<int>, ghost g: set<Arc>, adjacency: Adjacency, node: int, visited: set<int>)
    returns (c: Component, visited': set<int>)
    requires Signed(g) && Lists(adjacency, g) && forall e :: e in g ==> e.src in ids && e.dst in ids
    requires node in ids && node !in visited && ClosedIn(g, visited)
    requires forall x :: x in ids && x < node ==> x in visited || Isolated(g, x)
    requires !Isolated(g, node)
    ensures IsComponent(g, c) && Root(c) == node
    ensures forall x :: Has(c, x) ==> x in ids && x !in visited && !Isolated(g, x)
    ensures forall x :: x in visited' <==> x in visited || Has(c, x)
    ensures ClosedIn(g, visited')
  {
    var comp;
    comp, visited' := Discover(ids, g, adjacency, node, visited);
    var colour, frustrated := TwoColour(ids, g, adjacency, node);
    DiscoveredIsColoured(ids, g, node, comp, colour);
    var a, b := SplitByColour(comp, colour);
    c := Component(a, b, frustrated == {}, frustrated);
    forall x | x in comp ensures !Isolated(g, x) && node <= x {
      NoneIsolated(g, node, x);
    }
    SplitIsComponent(ids, g, node, colour, c);
  }

  lemma NoneIsolated(g: set<Arc>, node: int, x: int)
    requires Signed(g) && !Isolated(g, node) && Connected(g, node, x)
    ensures !Isolated(g, x)
  {
    ConnectedSym(g, node, x);
    var p: seq<Arc> :| Walk(g, x, p, node);
    if p != [] {
      assert p[0].src == x;
    }
  }

  /** What the main loop has established once the nodes `seen` are behind it. */
  ghost predicate Underway(ids: set<int>, g: set<Arc>, seen: seq<int>, r: Report, visited: set<int>) {
    && AreComponents(g, r.components)
    && (forall i :: 0 <= i < |r.components| ==> Root(r.components[i]) in seen)
    && Increasing(r.unaligned)
    && (forall x :: x in r.unaligned <==> x in seen && Isolated(g, x))
    && (forall x :: Listed(r.components, x) <==> x in visited)
    && (forall q :: q in r.frustrated <==> ListedFrustrated(r.components, q))
    && (r.balanced <==> r.frustrated == {})
    && ClosedIn(g, visited)
    && (forall x :: x in visited ==> x in ids)
    && (forall x {:trigger Isolated(g, x)} :: x in visited ==> !Isolated(g, x))
    && (forall x :: x in seen && !Isolated(g, x) ==> x in visited)
  }

  lemma AppendListed(cs: seq<Component>, c: Component)
    ensures forall x :: Listed(cs + [c], x) <==> Listed(cs, x) || Has(c, x)
    ensures forall q :: ListedFrustrated(cs + [c], q) <==> ListedFrustrated(cs, q) || q in c.frustrated
  {
    var all := cs + [c];
    assert all[|cs|] == c;
    assert forall i :: 0 <= i < |cs| ==> all[i] == cs[i];
    forall x | Listed(cs, x) ensures Listed(all, x) {
      var i :| 0 <= i < |cs| && Has(cs[i], x);
      assert Has(all[i], x);
    }
    forall q | ListedFrustrated(cs, q) ensures ListedFrustrated(all, q) {
      var i :| 0 <= i < |cs| && q in cs[i].frustrated;
      assert q in all[i].frustrated;
    }
  }

  lemma AddComponent(g: set<Arc>, cs: seq<Component>, c: Component)
    requires AreComponents(g, cs) && IsComponent(g, c)
    requires forall i :: 0 <= i < |cs| ==> Root(cs[i]) < Root(c)
    requires forall x :: Has(c, x) ==> !Listed(cs, x)
    ensures AreComponents(g, cs + [c])
  {
    var all := cs + [c];
    forall i, j | 0 <= i < j < |all| ensures Root(all[i]) < Root(all[j]) && Apart(all[i], all[j]) {
      if j == |cs| {
        assert all[i] == cs[i];
        forall x ensures !(Has(cs[i], x) && Has(c, x)) {
        }
      }
    }
  }

  /** The camps of a set of claims: partition, split and frustration, as `IsReport` says. */
  method ComputeCamps(claims: seq<int>, relations: seq<Relation>) returns (r: Report)
    ensures IsReport(Elems(claims), ArcsOf(Elems(claims), relations), r)
  {
    var byId := set x | x in claims;
    var edges := Edges(relations);
    var adjacency := BuildAdjacency(byId, edges);
    ghost var g := ArcsOf(byId, relations);
    ArcsAreSigned(byId, relations);
    EdgesGiveArcs(byId, relations, edges);
    var order := Sorted(byId);
    r := Collect(byId, g, adjacency, order);
    assert byId == Elems(claims);
  }

  /** The next node starts a component of its own. */
  lemma StepComponent(ids: set<int>, g: set<Arc>, seen: seq<int>, node: int, r: Report, visited: set<int>,
                      c: Component, r': Report, visited': set<int>)
    requires Underway(ids, g, seen, r, visited) && forall x :: x in seen ==> x < node
    requires IsComponent(g, c) && Root(c) == node && ClosedIn(g, visited')
    requires forall x :: Has(c, x) ==> x in ids && x !in visited && !Isolated(g, x)
    requires forall x :: x in visited' <==> x in visited || Has(c, x)
    requires r'.components == r.components + [c] && r'.unaligned == r.unaligned
    requires r'.frustrated == r.frustrated + c.frustrated && r'.balanced == (r'.frustrated == {})
    ensures Underway(ids, g, seen + [node], r', visited')
  {
    hide Isolated, ClosedIn, Listed, ListedFrustrated, AreComponents, Reaches, Frustrated;
    assert Has(c, node) by { assert node in c.campA; }
    assert forall i :: 0 <= i < |r.components| ==> Root(r.components[i]) < node;
    hide IsComponent;
    AddComponent(g, r.components, c);
    AppendListed(r.components, c);
    forall i | 0 <= i < |r'.components| ensures Root(r'.components[i]) in seen + [node] {
      if i < |r.components| {
        assert r'.components[i] == r.components[i];
      }
    }
  }

  /** The next node is already listed, or has no edge and is listed as unaligned. */
  lemma StepAlong(ids: set<int>, g: set<Arc>, seen: seq<int>, node: int, r: Report, visited: set<int>)
    requires Underway(ids, g, seen, r, visited) && forall x :: x in seen ==> x < node
    requires node in visited || Isolated(g, node)
    ensures node in visited ==> Underway(ids, g, seen + [node], r, visited)
    ensures Isolated(g, node) ==> Underway(ids, g, seen + [node], r.(unaligned := r.unaligned + [node]), visited)
  {
    hide IsComponent, AreComponents, Isolated, ClosedIn, Listed, ListedFrustrated;
    if Isolated(g, node) {
      var more := r.unaligned + [node];
      assert forall i :: 0 <= i < |r.unaligned| ==> more[i] == r.unaligned[i] && more[i] in r.unaligned;
      assert forall x :: x in more <==> x in r.unaligned || x == node;
    }
  }

  /** The main loop over the ids in order. */
  method Collect(ids: set<int>, ghost g: set<Arc>, adjacency: Adjacency, order: seq<int>) returns (r: Report)
    requires Signed(g) && Lists(adjacency, g) && forall e :: e in g ==> e.src in ids && e.dst in ids
    requires Increasing(order) && forall x :: x in order <==> x in ids
    ensures IsReport(ids, g, r)
  {
    r := Report([], [], true, {});
    var visited := {};
    Start(ids, g, order);
    hide Underway, IsReport, Lists, Signed;
    for i := 0 to |order|
      invariant Underway(ids, g, order[..i], r, visited)
    {
      r, visited := NextNode(ids, g, adjacency, order, i, r, visited);
    }
    assert order[..|order|] == order;
    Finish(ids, g, order, r, visited);
  }

  lemma Start(ids: set<int>, g: set<Arc>, order: seq<int>)
    ensures Underway(ids, g, order[..0], Report([], [], true, {}), {})
  {
  }

  lemma Finish(ids: set<int>, g: set<Arc>, order: seq<int>, r: Report, visited: set<int>)
    requires forall x :: x in order <==> x in ids
    requires Underway(ids, g, order, r, visited)
    ensures IsReport(ids, g, r)
  {
    hide IsComponent, AreComponents, Listed, ListedFrustrated, Isolated;
  }

  /** One turn of the main loop. */
  method NextNode(ids: set<int>, ghost g: set<Arc>, adjacency: Adjacency, order: seq<int>, i: nat, r: Report,
      visited: set<int>)
    returns (r': Report, visited': set<int>)
    requires Signed(g) && Lists(adjacency, g) && forall e :: e in g ==> e.src in ids && e.dst in ids
    requires i < |order| && Increasing(order) && forall x :: x in order <==> x in ids
    requires Underway(ids, g, order[..i], r, visited)
    ensures Underway(ids, g, order[..i + 1], r', visited')
  {
    hide IsComponent, AreComponents, Reaches, Listed, ListedFrustrated, Signed;
    var node := order[i];
    r', visited' := r, visited;
    assert node in order && order[..i + 1] == order[..i] + [node];
    NoNeighbours(g, adjacency, node);
    if Neighbours(adjacency, node) == [] {
      StepAlong(ids, g, order[..i], node, r, visited);
      r' := r.(unaligned := r.unaligned + [node]);
    } else if node in visited {
      StepAlong(ids, g, order[..i], node, r, visited);
    } else {
      EarlierAreDone(ids, g, order, i, r, visited);
      var c;
      c, visited' := BuildComponent(ids, g, adjacency, node, visited);
      var frustrated := r.frustrated + c.frustrated;
      r' := Report(r.components + [c], r.unaligned, frustrated == {}, frustrated);
      StepComponent(ids, g, order[..i], node, r, visited, c, r', visited');
    }
  }

  lemma EarlierAreDone(ids: set<int>, g: set<Arc>, order: seq<int>, i: nat, r: Report, visited: set<int>)
    requires i < |order| && Increasing(order) && forall x :: x in order <==> x in ids
    requires Underway(ids, g, order[..i], r, visited)
    ensures forall x :: x in ids && x < order[i] ==> x in visited || Isolated(g, x)
  {
    forall x | x in ids && x < order[i] ensures x in visited || Isolated(g, x) {
      assert x in order;
      assert x in order[..i];
    }
  }

  lemma NoNeighbours(g: set<Arc>, adjacency: Adjacency, node: int)
    requires Lists(adjacency, g)
    ensures Neighbours(adjacency, node) == [] <==> Isolated(g, node)
  {
    var nbrs := Neighbours(adjacency, node);
    if nbrs == [] {
      forall e | e in g ensures e.src != node {
        assert e.src == node ==> (e.dst, e.sign) in Neighbours(adjacency, e.src);
      }
    } else {
      var n := nbrs[0];
      assert n in Neighbours(adjacency, node);
      assert Arc(node, n.0, n.1) in g;
    }
  }

  lemma EdgesGiveArcs(ids: set<int>, relations: seq<Relation>, edges: seq<Edge>)
    requires forall e :: e in edges <==>
      exists r :: r in relations && KeptSign(r) == Some(e.sign) && r.a == e.a && r.b == e.b
    ensures ArcsOfEdges(ids, edges) == ArcsOf(ids, relations)
  {
    forall a | a in ArcsOf(ids, relations) ensures a in ArcsOfEdges(ids, edges) {
      var r :| r in relations && Kept(ids, r) &&
        (a == Arc(r.a, r.b, KeptSign(r).value) || a == Arc(r.b, r.a, KeptSign(r).value));
      assert Edge(r.a, r.b, KeptSign(r).value) in edges;
    }
    forall a | a in ArcsOfEdges(ids, edges) ensures a in ArcsOf(ids, relations) {
      var e :| e in edges && e.a in ids && e.b in ids && (a == Arc(e.a, e.b, e.sign) || a == Arc(e.b, e.a, e.sign));
      var r :| r in relations && KeptSign(r) == Some(e.sign) && r.a == e.a && r.b == e.b;
    }
  }
}
