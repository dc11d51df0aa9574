/** Fusing clusters tied by confident relations (app/claims/relate.py:535-576,
    app/claims/cluster.py:179-193). One pass over the relations computes connected components. */
module Clusters {
  import opened Common
  import opened SignedGraph

  datatype Member = Member(user: int, cluster: Option<int>)

  /** A relation between claims `a` and `b`; `trusted` when a model or a user judged it. */
  datatype Tie = Tie(user: int, rejected: bool, confidence: real, trusted: bool, a: int, b: int)

  /** The tie may fuse clusters: it is the user's own, not rejected, and confident enough. */
  predicate Confident(t: Tie, user: int, limit: real) {
    t.user == user && !t.rejected && (t.confidence >= limit || t.trusted)
  }

  predicate Binds(claims: map<int, Member>, t: Tie, user: int, limit: real) {
    && Confident(t, user, limit)
    && t.a in claims && t.b in claims && claims[t.a].user == user && claims[t.b].user == user
    && claims[t.a].cluster.Some? && claims[t.b].cluster.Some?
  }

  /** The links between clusters that the first `n` relations make, in both directions. */
  ghost function Links(claims: map<int, Member>, ties: seq<Tie>, user: int, limit: real, n: nat): set<Arc>
    requires n <= |ties|
  {
    if n == 0 then {}
    else Links(claims, ties, user, limit, n - 1) + LinksOf(claims, ties[n - 1], user, limit)
  }

  ghost function LinksOf(claims: map<int, Member>, t: Tie, user: int, limit: real): set<Arc> {
    if Binds(claims, t, user, limit) then
      Both(claims[t.a].cluster.value, claims[t.b].cluster.value, 1)
    else {}
  }

  /** `r` is the smallest cluster linked, directly or not, to `c`. */
  ghost predicate Smallest(g: set<Arc>, c: int, r: int) {
    Connected(g, c, r) && forall d :: Connected(g, c, d) ==> r <= d
  }

  lemma SmallestIsUnique(g: set<Arc>, c: int, r: int, s: int)
    requires Smallest(g, c, r) && Smallest(g, c, s)
    ensures r == s
  {
  }

  // ---------------------------------------------------------------- where each cluster has gone

  /** `to` says which cluster each old cluster's claims are in after following the links `g`. */
  ghost predicate Moves(clusters: set<int>, g: set<Arc>, to: map<int, int>) {
    Lands(clusters, g, to) && forall c {:trigger Connected(g, c, to[c])} :: c in clusters ==> Connected(g, c, to[c])
  }

  /** The clusters only go down, and linked ones go to the same place. */
  ghost predicate Lands(clusters: set<int>, g: set<Arc>, to: map<int, int>) {
    && to.Keys == clusters
    && (forall c {:trigger to[c]} :: c in clusters ==> to[c] in clusters && to[c] <= c)
    && (forall e :: e in g ==> e.src in clusters && e.dst in clusters && to[e.src] == to[e.dst])
  }

  lemma {:induction false} MovesAlongWalk(
      clusters: set<int>, g: set<Arc>, to: map<int, int>, x: int, p: seq<Arc>, y: int)
    requires Moves(clusters, g, to) && x in clusters && Walk(g, x, p, y)
    ensures y in clusters && to[y] == to[x]
    decreases p
  {
    if p != [] {
      assert p[0] in g;
      MovesAlongWalk(clusters, g, to, p[0].dst, p[1..], y);
    }
  }

  lemma MovesToSmallest(clusters: set<int>, g: set<Arc>, to: map<int, int>, c: int)
    requires Moves(clusters, g, to) && c in clusters
    ensures Smallest(g, c, to[c]) && to[to[c]] == to[c]
  {
    forall d | Connected(g, c, d) ensures d in clusters && to[d] == to[c] && to[c] <= d {
      var p :| Walk(g, c, p, d);
      MovesAlongWalk(clusters, g, to, c, p, d);
    }
  }

  lemma {:induction false} MoreLinks(g: set<Arc>, more: set<Arc>, x: int, p: seq<Arc>, y: int)
    requires g <= more && Walk(g, x, p, y)
    ensures Walk(more, x, p, y)
    decreases p
  {
    if p != [] {
      MoreLinks(g, more, p[0].dst, p[1..], y);
    }
  }

  lemma MoreConnected(g: set<Arc>, more: set<Arc>, x: int, y: int)
    requires g <= more && Connected(g, x, y)
    ensures Connected(more, x, y)
  {
    var p :| Walk(g, x, p, y);
    MoreLinks(g, more, x, p, y);
  }

  function Redirected(to: map<int, int>, keep: int, drop: int): map<int, int> {
    map c | c in to :: if to[c] == drop then keep else to[c]
  }

  lemma BothSigned(g: set<Arc>, x: int, y: int)
    requires Signed(g)
    ensures Signed(g + Both(x, y, 1))
  {
  }

  /** A link inside one cluster moves nothing. */
  lemma LinkInside(clusters: set<int>, g: set<Arc>, to: map<int, int>, x: int, y: int)
    requires Moves(clusters, g, to) && x in clusters && y in clusters && to[x] == to[y]
    ensures Moves(clusters, g + Both(x, y, 1), to)
  {
    hide Connected;
    forall c | c in clusters ensures Connected(g + Both(x, y, 1), c, to[c]) {
      MoreConnected(g, g + Both(x, y, 1), c, to[c]);
    }
  }

  /** A link between two clusters folds the later one into the earlier. */
  lemma LinkAcross(clusters: set<int>, g: set<Arc>, to: map<int, int>, x: int, y: int, keep: int, drop: int)
    requires Signed(g) && Moves(clusters, g, to) && x in clusters && y in clusters
    requires (keep == to[x] && drop == to[y]) || (keep == to[y] && drop == to[x])
    requires keep < drop
    ensures Moves(clusters, g + Both(x, y, 1), Redirected(to, keep, drop))
  {
    hide Connected, Signed, Redirected, Both, Lands;
    var more, r := g + Both(x, y, 1), Redirected(to, keep, drop);
    LinkConnects(clusters, g, to, x, y);
    RedirectedLands(clusters, g, to, x, y, keep, drop);
    Redirects(to, keep, drop);
    forall c {:trigger r[c]} | c in clusters ensures Connected(more, c, r[c]) {
      StillConnected(clusters, g, to, more, c);
      if to[c] == drop {
        ConnectedTrans(more, c, drop, keep);
      }
    }
  }

  lemma StillConnected(clusters: set<int>, g: set<Arc>, to: map<int, int>, more: set<Arc>, c: int)
    requires Moves(clusters, g, to) && c in clusters && g <= more
    ensures Connected(more, c, to[c])
  {
    MoreConnected(g, more, c, to[c]);
  }

  lemma RedirectedLands(clusters: set<int>, g: set<Arc>, to: map<int, int>, x: int, y: int, keep: int, drop: int)
    requires Lands(clusters, g, to) && x in clusters && y in clusters && keep < drop
    requires (keep == to[x] && drop == to[y]) || (keep == to[y] && drop == to[x])
    ensures Lands(clusters, g + Both(x, y, 1), Redirected(to, keep, drop))
  {
    hide Redirected, Both;
    var r := Redirected(to, keep, drop);
    Redirects(to, keep, drop);
    forall e | e in g + Both(x, y, 1) ensures e.src in clusters && e.dst in clusters && r[e.src] == r[e.dst] {
      if e !in g {
        BothEnds(x, y, e);
      }
    }
  }

  lemma Redirects(to: map<int, int>, keep: int, drop: int)
    ensures Redirected(to, keep, drop).Keys == to.Keys
    ensures forall c :: c in to ==> Redirected(to, keep, drop)[c] == if to[c] == drop then keep else to[c]
  {
  }

  lemma BothEnds(x: int, y: int, e: Arc)
    requires e in Both(x, y, 1)
    ensures (e.src == x && e.dst == y) || (e.src == y && e.dst == x)
  {
  }

  lemma LinkConnects(clusters: set<int>, g: set<Arc>, to: map<int, int>, x: int, y: int)
    requires Moves(clusters, g, to) && x in clusters && y in clusters && Signed(g)
    ensures to.Keys == clusters
    ensures Connected(g + Both(x, y, 1), to[x], to[y]) && Connected(g + Both(x, y, 1), to[y], to[x])
  {
    var more := g + Both(x, y, 1);
    BothSigned(g, x, y);
    MoreConnected(g, more, x, to[x]);
    MoreConnected(g, more, y, to[y]);
    ConnectedSym(more, x, to[x]);
    var e := Arc(x, y, 1);
    assert Walk(more, x, [e], y) by { assert Walk(more, y, [], y) && [e][1..] == []; }
    assert Connected(more, x, y);
    ConnectedTrans(more, to[x], x, y);
    ConnectedTrans(more, to[x], y, to[y]);
    ConnectedSym(more, to[x], to[y]);
  }

  lemma {:induction false} LinksAreSigned(claims: map<int, Member>, ties: seq<Tie>, user: int, limit: real, n: nat)
    requires n <= |ties|
    ensures Signed(Links(claims, ties, user, limit, n))
  {
    if n > 0 {
      LinksAreSigned(claims, ties, user, limit, n - 1);
    }
  }

  /** The rows after the moves `to`: each claim is in the cluster its old one went to, and the
      clusters left are those that went nowhere. */
  ghost predicate Moved(before: map<int, Member>, rows: set<int>, to: map<int, int>, claims: map<int, Member>,
      clusters: set<int>) {
    && to.Keys == rows && claims.Keys == before.Keys
    && (forall x :: x in before && before[x].cluster.Some? ==> before[x].cluster.value in rows)
    && (forall x :: x in before ==> claims[x] == Placed(before[x], to))
    && (forall c :: c in clusters <==> c in rows && to[c] == c)
  }

  ghost function Placed(m: Member, to: map<int, int>): Member {
    if m.cluster.Some? && m.cluster.value in to then m.(cluster := Some(to[m.cluster.value])) else m
  }

  lemma NothingMoved(before: map<int, Member>, rows: set<int>, ties: seq<Tie>, user: int, limit: real)
    requires forall x :: x in before && before[x].cluster.Some? ==> before[x].cluster.value in rows
    ensures var to := map c | c in rows :: c;
            Moves(rows, Links(before, ties, user, limit, 0), to) && Moved(before, rows, to, before, rows)
  {
    forall c | c in rows ensures Connected({}, c, c) {
      assert Walk({}, c, [], c);
    }
  }

  /** Whether a relation binds, and where its claims are, read off the rows as they are now. */
  lemma BindsNow(before: map<int, Member>, rows: set<int>, to: map<int, int>, claims: map<int, Member>,
      clusters: set<int>, t: Tie, user: int, limit: real)
    requires Moved(before, rows, to, claims, clusters)
    ensures Binds(claims, t, user, limit) <==> Binds(before, t, user, limit)
    ensures Binds(claims, t, user, limit) ==>
      && before[t.a].cluster.value in to && before[t.b].cluster.value in to
      && claims[t.a].cluster.value == to[before[t.a].cluster.value]
        && claims[t.b].cluster.value == to[before[t.b].cluster.value]
  {
  }

  lemma StaysPut(before: map<int, Member>, rows: set<int>, to: map<int, int>, claims: map<int, Member>,
      clusters: set<int>, ties: seq<Tie>, user: int, limit: real, n: nat)
    requires Moved(before, rows, to, claims, clusters) && n < |ties|
      && Moves(rows, Links(before, ties, user, limit, n), to)
    requires Binds(claims, ties[n], user, limit) ==> claims[ties[n].a].cluster == claims[ties[n].b].cluster
    ensures Moves(rows, Links(before, ties, user, limit, n + 1), to)
  {
    hide Moves, Moved, Connected;
    var t, g := ties[n], Links(before, ties, user, limit, n);
    BindsNow(before, rows, to, claims, clusters, t, user, limit);
    assert rows == to.Keys by { Keys(before, rows, to, claims, clusters); }
    if Binds(before, t, user, limit) {
      LinkInside(rows, g, to, before[t.a].cluster.value, before[t.b].cluster.value);
    } else {
      assert Links(before, ties, user, limit, n + 1) == g;
    }
  }

  lemma Keys(before: map<int, Member>, rows: set<int>, to: map<int, int>, claims: map<int, Member>, clusters: set<int>)
    requires Moved(before, rows, to, claims, clusters)
    ensures rows == to.Keys && claims.Keys == before.Keys
  {
  }

  lemma Folds(before: map<int, Member>, rows: set<int>, to: map<int, int>, claims: map<int, Member>, clusters: set<int>,
              ties: seq<Tie>, user: int, limit: real, n: nat, keep: int, drop: int)
    requires Moved(before, rows, to, claims, clusters) && n < |ties|
      && Moves(rows, Links(before, ties, user, limit, n), to)
    requires Binds(claims, ties[n], user, limit) && keep < drop
    requires var a, b := claims[ties[n].a].cluster.value, claims[ties[n].b].cluster.value;
      (keep == a && drop == b) || (keep == b && drop == a)
    ensures Moves(rows, Links(before, ties, user, limit, n + 1), Redirected(to, keep, drop))
    ensures keep in clusters && drop in clusters
  {
    hide Moves, Connected, Smallest;
    var t, g := ties[n], Links(before, ties, user, limit, n);
    BindsNow(before, rows, to, claims, clusters, t, user, limit);
    LinksAreSigned(before, ties, user, limit, n);
    var x, y := before[t.a].cluster.value, before[t.b].cluster.value;
    LinkAcross(rows, g, to, x, y, keep, drop);
    MovesToSmallest(rows, g, to, x);
    MovesToSmallest(rows, g, to, y);
    InRows(rows, g, to, x);
    InRows(rows, g, to, y);
  }

  lemma InRows(rows: set<int>, g: set<Arc>, to: map<int, int>, c: int)
    requires Moves(rows, g, to) && c in rows
    ensures to[c] in rows
  {
  }

  lemma Refiled(before: map<int, Member>, rows: set<int>, to: map<int, int>, claims: map<int, Member>,
      clusters: set<int>,
                keep: int, drop: int, claims': map<int, Member>, clusters': set<int>)
    requires Moved(before, rows, to, claims, clusters) && keep in clusters && drop in clusters && keep != drop
    requires claims' == map x | x in claims ::
      if claims[x].cluster == Some(drop) then claims[x].(cluster := Some(keep)) else claims[x]
    requires clusters' == clusters - {drop}
    ensures Moved(before, rows, Redirected(to, keep, drop), claims', clusters')
    ensures |clusters'| == |clusters| - 1
  {
  }

  lemma Settled(before: map<int, Member>, rows: set<int>, to: map<int, int>, claims: map<int, Member>,
      clusters: set<int>, g: set<Arc>)
    requires Moved(before, rows, to, claims, clusters) && Moves(rows, g, to)
    ensures forall x :: x in claims ==>
      && claims[x].user == before[x].user && claims[x].cluster.Some? == before[x].cluster.Some?
      && (claims[x].cluster.Some? ==>
        claims[x].cluster.value in clusters && Smallest(g, before[x].cluster.value, claims[x].cluster.value))
    ensures forall c :: c in clusters <==> c in rows && Smallest(g, c, c)
  {
    hide Moves, Smallest;
    forall c | c in rows ensures to[c] in rows && Smallest(g, c, to[c]) && to[to[c]] == to[c] {
      InRows(rows, g, to, c);
      MovesToSmallest(rows, g, to, c);
    }
    forall c | c in rows && Smallest(g, c, c) ensures to[c] == c {
      SmallestIsUnique(g, c, c, to[c]);
    }
  }

  // ---------------------------------------------------------------- the rows

  class Board {
    var claims: map<int, Member>
    var clusters: set<int>

    constructor ()
      ensures Valid() && claims == map[] && clusters == {}
    {
      claims, clusters := map[], {};
    }

    /** No claim points at a cluster that does not exist. */
    ghost predicate Valid()
      reads this
    {
      forall x :: x in claims && claims[x].cluster.Some? ==> claims[x].cluster.value in clusters
    }

    /** `merge_clusters`. */
    method MergeClusters(keep: int, drop: int)
      requires keep != drop
      modifies this
      ensures claims == map x | x in old(claims) ::
        if old(claims)[x].cluster == Some(drop) then old(claims)[x].(cluster := Some(keep)) else old(claims)[x]
      ensures clusters == old(clusters) - {drop}
    {
      var members := set x | x in claims && claims[x].cluster == Some(drop);
      ghost var all := members;
      while members != {}
        invariant members <= all && claims.Keys == old(claims).Keys && clusters == old(clusters)
        invariant forall x :: x in claims ==> claims[x] == if x in all && x !in members
          then old(claims)[x].(cluster := Some(keep)) else old(claims)[x]
        decreases |members|
      {
        Inhabited(members);
        var m :| m in members;
        claims := claims[m := claims[m].(cluster := Some(keep))];
        members := members - {m};
      }
      ghost var target := map x | x in old(claims) ::
        if old(claims)[x].cluster == Some(drop) then old(claims)[x].(cluster := Some(keep)) else old(claims)[x];
      assert claims.Keys == target.Keys;
      assert forall x :: x in claims ==> claims[x] == target[x];
      clusters := clusters - {drop};
    }

    /** `_merge_across_clusters`. Every claim ends in the smallest cluster linked to its own by the
        confident relations; exactly those clusters remain; nothing else changes. */
    method MergeAcrossClusters(user: int, ties: seq<Tie>, limit: real) returns (merged: nat)
      requires Valid()
      modifies this
      ensures Valid()
      ensures claims.Keys == old(claims).Keys
      ensures forall x :: x in claims ==>
        && claims[x].user == old(claims)[x].user && claims[x].cluster.Some? == old(claims)[x].cluster.Some?
        && (claims[x].cluster.Some? ==>
          Smallest(Links(old(claims), ties, user, limit, |ties|), old(claims)[x].cluster.value,
          claims[x].cluster.value))
      ensures forall c :: c in clusters <==>
        c in old(clusters) && Smallest(Links(old(claims), ties, user, limit, |ties|), c, c)
      ensures merged == |old(clusters)| - |clusters|
    {
      hide Links, LinksOf, Smallest, Signed, Moves, Moved, Binds;
      merged := 0;
      ghost var before, rows := claims, clusters;
      ghost var to := map c | c in rows :: c;
      NothingMoved(before, rows, ties, user, limit);
      for n := 0 to |ties|
        invariant Moves(rows, Links(before, ties, user, limit, n), to)
        invariant Moved(before, rows, to, claims, clusters)
        invariant merged + |clusters| == |rows|
      {
        var t := ties[n];
        ghost var claims0, clusters0 := claims, clusters;
        if Binds(claims, t, user, limit) {
          BindsMeans(claims, t, user, limit);
          var a, b := claims[t.a].cluster.value, claims[t.b].cluster.value;
          if a != b {
            var keep, drop := if a <= b then a else b, if a <= b then b else a;
            MergeClusters(keep, drop);
            Folds(before, rows, to, claims0, clusters0, ties, user, limit, n, keep, drop);
            Refiled(before, rows, to, claims0, clusters0, keep, drop, claims, clusters);
            to := Redirected(to, keep, drop);
            merged := merged + 1;
            continue;
          }
        }
        StaysPut(before, rows, to, claims, clusters, ties, user, limit, n);
      }
      Settled(before, rows, to, claims, clusters, Links(before, ties, user, limit, |ties|));
      Keys(before, rows, to, claims, clusters);
    }
  }

  lemma BindsMeans(claims: map<int, Member>, t: Tie, user: int, limit: real)
    requires Binds(claims, t, user, limit)
    ensures t.a in claims && t.b in claims && claims[t.a].cluster.Some? && claims[t.b].cluster.Some?
  {
  }

  // ---------------------------------------------------------------- which relations fuse

  /** Both claims are the user's and are in clusters `x` and `y`. */
  ghost predicate Spans(claims: map<int, Member>, t: Tie, user: int, x: int, y: int) {
    t.a in claims && t.b in claims && claims[t.a] == Member(user, Some(x)) && claims[t.b] == Member(user, Some(y))
  }

  /** A relation the user has rejected, of another user, or neither confident nor judged by a model or a user. */
  predicate Discounted(t: Tie, user: int, limit: real) {
    t.rejected || t.user != user || (!t.trusted && t.confidence < limit)
  }

  /** Two clusters are linked exactly when a relation that counts is between claims of the two. */
  lemma {:induction false} LinksMean(
      claims: map<int, Member>, ties: seq<Tie>, user: int, limit: real, n: nat, x: int, y: int)
    requires n <= |ties|
    ensures Arc(x, y, 1) in Links(claims, ties, user, limit, n) <==>
      exists k :: 0 <= k < n && !Discounted(ties[k], user, limit)
        && (Spans(claims, ties[k], user, x, y) || Spans(claims, ties[k], user, y, x))
  {
    if n > 0 {
      LinksMean(claims, ties, user, limit, n - 1, x, y);
      LinkMeans(claims, ties[n - 1], user, limit, x, y);
    }
  }

  lemma LinkMeans(claims: map<int, Member>, t: Tie, user: int, limit: real, x: int, y: int)
    ensures Arc(x, y, 1) in LinksOf(claims, t, user, limit) <==>
      !Discounted(t, user, limit) && (Spans(claims, t, user, x, y) || Spans(claims, t, user, y, x))
  {
  }

  /** So a discounted relation might as well not be in the list: the links, and with them where every claim ends
      and which clusters remain, are the same without it. */
  lemma DiscountedTieDoesNotCount(claims: map<int, Member>, ties: seq<Tie>, user: int, limit: real, k: nat)
    requires k < |ties| && Discounted(ties[k], user, limit)
    ensures var fewer := ties[..k] + ties[k + 1..];
      Links(claims, ties, user, limit, |ties|) == Links(claims, fewer, user, limit, |fewer|)
  {
    var fewer := ties[..k] + ties[k + 1..];
    SameLinksUpTo(claims, ties, fewer, user, limit, k);
    SameLinksFrom(claims, ties, fewer, user, limit, k, |ties|);
  }

  lemma {:induction false} SameLinksUpTo(
      claims: map<int, Member>, ties: seq<Tie>, other: seq<Tie>, user: int, limit: real, n: nat)
    requires n <= |ties| && n <= |other| && ties[..n] == other[..n]
    ensures Links(claims, ties, user, limit, n) == Links(claims, other, user, limit, n)
  {
    hide LinksOf;
    if n > 0 {
      assert ties[n - 1] == ties[..n][n - 1] == other[..n][n - 1];
      assert ties[..n - 1] == ties[..n][..n - 1] && other[..n - 1] == other[..n][..n - 1];
      SameLinksUpTo(claims, ties, other, user, limit, n - 1);
    }
  }

  lemma {:induction false} SameLinksFrom(
      claims: map<int, Member>, ties: seq<Tie>, fewer: seq<Tie>, user: int, limit: real, k: nat, n: nat)
    requires k < n <= |ties| && fewer == ties[..k] + ties[k + 1..] && Discounted(ties[k], user, limit)
    requires Links(claims, ties, user, limit, k) == Links(claims, fewer, user, limit, k)
    ensures Links(claims, ties, user, limit, n) == Links(claims, fewer, user, limit, n - 1)
    decreases n
  {
    if n > k + 1 {
      SameLinksFrom(claims, ties, fewer, user, limit, k, n - 1);
      assert fewer[n - 2] == ties[n - 1];
    } else {
      assert LinksOf(claims, ties[k], user, limit) == {};
    }
  }

  /** One relation that counts fuses the two clusters into the earlier one. */
  method FuseTwo(board: Board, t: Tie, user: int, limit: real, x: int, y: int) returns (merged: nat)
    requires board.Valid() && Spans(board.claims, t, user, x, y) && x != y && !Discounted(t, user, limit)
    modifies board
    ensures board.Valid() && t.a in board.claims && t.b in board.claims
    ensures board.claims[t.a].cluster == board.claims[t.b].cluster == Some(if x < y then x else y)
  {
    ghost var g := Links(board.claims, [t], user, limit, 1);
    hide Smallest, Discounted, Links;
    LinksMean(board.claims, [t], user, limit, 1, x, y);
    LinksMean(board.claims, [t], user, limit, 1, y, x);
    assert [t][0] == t;
    OnlyLink(board.claims, t, user, limit, x, y);
    merged := board.MergeAcrossClusters(user, [t], limit);
    SmallestIsUnique(g, x, board.claims[t.a].cluster.value, if x < y then x else y);
    SmallestIsUnique(g, y, board.claims[t.b].cluster.value, if x < y then x else y);
  }

  lemma OnlyLink(claims: map<int, Member>, t: Tie, user: int, limit: real, x: int, y: int)
    requires Spans(claims, t, user, x, y) && x != y && !Discounted(t, user, limit)
    ensures var g, least := Links(claims, [t], user, limit, 1), if x < y then x else y;
      Smallest(g, x, least) && Smallest(g, y, least)
  {
    hide Connected;
    var g, least := Links(claims, [t], user, limit, 1), if x < y then x else y;
    assert Links(claims, [t], user, limit, 0) == {} && g == Both(x, y, 1);
    StaysInPair(x, y);
  }

  lemma StaysInPair(x: int, y: int)
    ensures var g := Both(x, y, 1);
      && Connected(g, x, x) && Connected(g, y, y) && Connected(g, x, y) && Connected(g, y, x)
      && forall d :: Connected(g, x, d) || Connected(g, y, d) ==> d == x || d == y
  {
    var g := Both(x, y, 1);
    assert Walk(g, x, [], x) && Walk(g, y, [], y);
    assert Walk(g, y, [Arc(x, y, 1)][1..], y) && Walk(g, x, [Arc(y, x, 1)][1..], x);
    assert Walk(g, x, [Arc(x, y, 1)], y) && Walk(g, y, [Arc(y, x, 1)], x);
    forall d | Connected(g, x, d) || Connected(g, y, d) ensures d == x || d == y {
      if Connected(g, x, d) {
        var p :| Walk(g, x, p, d);
        WalkInPair(x, y, x, p, d);
      } else {
        var p :| Walk(g, y, p, d);
        WalkInPair(x, y, y, p, d);
      }
    }
  }

  lemma {:induction false} WalkInPair(x: int, y: int, from: int, p: seq<Arc>, d: int)
    requires (from == x || from == y) && Walk(Both(x, y, 1), from, p, d)
    ensures d == x || d == y
    decreases p
  {
    if p != [] {
      WalkInPair(x, y, p[0].dst, p[1..], d);
    }
  }
}
