/** For which `k` and `q` the search keeps the promise of reporting every maximal
    diameter-two k-plex of size at least `q`, whatever the graph. */
module KplexPromise {
  import opened Graphs
  import opened KplexTheory
  import opened KplexSearch
  import opened KplexSight
  import opened Degeneracy
  import opened GraphPermute
  import opened WholeRuns

  /** Two hubs, 0 and 2k-3, each next to one half of a clique on 1 .. 2k-4. */
  predicate Edge(k: nat, i: nat, j: nat) {
    var lo, hi := if i < j then i else j, if i < j then j else i;
    && lo != hi && hi + 2 < 2 * k
    && (lo == 0 ==> hi + 2 <= k)
    && (hi + 3 == 2 * k ==> lo + 1 >= k)
  }

  function Row(k: nat, i: nat, n: nat): (r: seq<nat>)
    ensures Increasing(r) && forall j: nat :: j in r <==> j < n && Edge(k, i, j)
  {
    if n == 0 then []
    else
      var r := Row(k, i, n - 1);
      IncreasingAppend(r, n - 1);
      if Edge(k, i, n - 1) then r + [n - 1] else r
  }

  function Hubs(k: nat): (g: Graph)
    requires k >= 3
    ensures IsHubs(k, g)
  {
    Graph(seq(2 * k - 2, i requires 0 <= i => Row(k, i, 2 * k - 2)))
  }

  ghost predicate IsHubs(k: nat, g: Graph) {
    && k >= 3 && g.Valid() && g.Size() == 2 * k - 2
    && forall i: nat, j: nat :: g.Adj(i, j) <==> Edge(k, i, j)
  }

  ghost predicate Between(a: nat, b: nat, x: nat) {
    a <= x < b
  }

  ghost function Range(a: nat, b: nat): set<nat> {
    set x: nat | x < b && Between(a, b, x)
  }

  lemma RangeSize(a: nat, b: nat)
    requires a <= b
    ensures |Range(a, b)| == b - a
  {
    if a < b {
      RangeSize(a, b - 1);
      assert Between(a, b, b - 1);
      assert forall x | x in Range(a, b - 1) :: Between(a, b, x);
      assert Range(a, b) == Range(a, b - 1) + {b - 1};
    } else {
      assert Range(a, b) == {};
    }
  }

  /** Two hubs `w` and `u`, each next to one half, `a` and `b`, of a clique. */
  ghost predicate Roles(g: Graph, k: nat, w: nat, u: nat, a: set<nat>, b: set<nat>) {
    && k >= 3 && g.Valid() && w != u && a !! b && w !in a + b && u !in a + b
    && |a| == k - 2 && |b| == k - 2 && g.Vertices() == {w, u} + a + b
    && forall x: nat, y: nat | g.Has(x) && g.Has(y) :: g.Adj(x, y) <==> RoleEdge(w, u, a, b, x, y)
  }

  ghost predicate RoleEdge(w: nat, u: nat, a: set<nat>, b: set<nat>, x: nat, y: nat) {
    x != y && ((x in a + b && y in a + b) || (x == w && y in a) || (y == w && x in a) || (x == u && y in b) || (y == u && x in b))
  }

  lemma RolesSwap(g: Graph, k: nat, w: nat, u: nat, a: set<nat>, b: set<nat>)
    requires Roles(g, k, w, u, a, b)
    ensures Roles(g, k, u, w, b, a)
  {
    assert {u, w} + b + a == {w, u} + a + b;
  }

  lemma HubsHaveRoles(k: nat, g: Graph)
    requires IsHubs(k, g)
    ensures Roles(g, k, 0, 2 * k - 3, Range(1, k - 1), Range(k - 1, 2 * k - 3))
  {
    var a, b := Range(1, k - 1), Range(k - 1, 2 * k - 3);
    RangeSize(1, k - 1);
    RangeSize(k - 1, 2 * k - 3);
    forall x: nat
      ensures g.Has(x) <==> x in {0, 2 * k - 3} + a + b
    {
      assert g.Has(x) <==> x < 2 * k - 2;
      assert 1 <= x < k - 1 ==> Between(1, k - 1, x);
      assert k - 1 <= x < 2 * k - 3 ==> Between(k - 1, 2 * k - 3, x);
    }
    forall x: nat, y: nat | g.Has(x) && g.Has(y) { EdgeHasRole(k, x, y); }
  }

  lemma EdgeHasRole(k: nat, x: nat, y: nat)
    requires k >= 3 && x < 2 * k - 2 && y < 2 * k - 2
    ensures Edge(k, x, y) <==> RoleEdge(0, 2 * k - 3, Range(1, k - 1), Range(k - 1, 2 * k - 3), x, y)
  {
    var a, b := Range(1, k - 1), Range(k - 1, 2 * k - 3);
    assert x in a <==> Between(1, k - 1, x);
    assert y in a <==> Between(1, k - 1, y);
    assert x in b <==> Between(k - 1, 2 * k - 3, x);
    assert y in b <==> Between(k - 1, 2 * k - 3, y);
  }

  /** What a hub misses among all vertices, and what the others miss. */
  lemma HubMisses(g: Graph, k: nat, w: nat, u: nat, a: set<nat>, b: set<nat>)
    requires Roles(g, k, w, u, a, b)
    ensures |Non(g, g.Vertices(), w)| <= k
  {
    forall y | y in Non(g, g.Vertices(), w)
      ensures y in {w, u} + b
    {
      assert w in g.Vertices() && !RoleEdge(w, u, a, b, w, y);
    }
    SubsetCardinality(Non(g, g.Vertices(), w), {w, u} + b);
    assert |{w, u} + b| == |{w, u}| + |b|;
  }

  lemma InnerMisses(g: Graph, k: nat, w: nat, u: nat, a: set<nat>, b: set<nat>, x: nat)
    requires Roles(g, k, w, u, a, b) && x in a
    ensures |Non(g, g.Vertices(), x)| <= 2
  {
    forall y | y in Non(g, g.Vertices(), x)
      ensures y in {x, u}
    {
      assert x in g.Vertices() && !RoleEdge(w, u, a, b, x, y);
    }
    SubsetCardinality(Non(g, g.Vertices(), x), {x, u});
  }

  lemma AllIsPlex(g: Graph, k: nat, w: nat, u: nat, a: set<nat>, b: set<nat>)
    requires Roles(g, k, w, u, a, b)
    ensures IsKplex(g, k, g.Vertices())
  {
    forall x | x in g.Vertices()
      ensures |Non(g, g.Vertices(), x)| <= k
    {
      RolesSwap(g, k, w, u, a, b);
      if x in a {
        InnerMisses(g, k, w, u, a, b, x);
      } else if x in b {
        InnerMisses(g, k, u, w, b, a, x);
      } else if x == w {
        HubMisses(g, k, w, u, a, b);
      } else {
        HubMisses(g, k, u, w, b, a);
      }
    }
  }

  lemma RestIsClose(g: Graph, k: nat, w: nat, u: nat, a: set<nat>, b: set<nat>)
    requires Roles(g, k, w, u, a, b)
    ensures DiamTwo(g, g.Vertices() - {w}) && g.Vertices() - {w} != {}
  {
    var m := g.Vertices() - {w};
    var z :| z in b;
    assert z in g.Vertices() && z in m;
    forall x, y | x in m && y in m && x != y && !g.Adj(x, y)
      ensures Linked(g, m, x, y)
    {
      assert g.Has(x) && g.Has(y) && g.Has(z);
      assert RoleEdge(w, u, a, b, x, z) && RoleEdge(w, u, a, b, y, z);
      assert g.Adj(x, z) && g.Adj(y, z);
    }
  }

  lemma AllIsFar(g: Graph, k: nat, w: nat, u: nat, a: set<nat>, b: set<nat>)
    requires Roles(g, k, w, u, a, b)
    ensures !DiamTwo(g, g.Vertices())
  {
    assert w in g.Vertices() && u in g.Vertices();
    assert !RoleEdge(w, u, a, b, w, u);
    forall x | x in g.Vertices()
      ensures !(g.Adj(w, x) && g.Adj(u, x))
    {
      assert g.Has(x) && g.Has(w) && g.Has(u);
    }
  }

  lemma NoneLarger(g: Graph, k: nat, w: nat, t: set<nat>)
    requires g.Vertices() - {w} < t && w in g.Vertices() && !DiamTwo(g, g.Vertices())
    ensures !DiamTwoKplex(g, k, t)
  {
    if t <= g.Vertices() {
      ProperHasExtra(g.Vertices() - {w}, t);
      assert t == g.Vertices();
    }
  }

  lemma RestSize(g: Graph, k: nat, w: nat, u: nat, a: set<nat>, b: set<nat>)
    requires Roles(g, k, w, u, a, b)
    ensures |g.Vertices() - {w}| == 2 * k - 3
  {
    assert g.Vertices() - {w} == {u} + a + b;
    ThreeParts(u, a, b);
  }

  /** All vertices but one hub: a maximal k-plex of diameter two. */
  lemma RestIsMaximal(g: Graph, k: nat, w: nat, u: nat, a: set<nat>, b: set<nat>)
    requires Roles(g, k, w, u, a, b)
    ensures MaximalDiamTwoKplex(g, k, g.Vertices() - {w}) && |g.Vertices() - {w}| == 2 * k - 3
  {
    AllIsPlex(g, k, w, u, a, b);
    Hereditary(g, k, g.Vertices() - {w}, g.Vertices());
    RestIsClose(g, k, w, u, a, b);
    AllIsFar(g, k, w, u, a, b);
    RestSize(g, k, w, u, a, b);
    assert w in g.Vertices();
    forall t: set<nat> | g.Vertices() - {w} < t { NoneLarger(g, k, w, t); }
  }

  lemma ThreeParts(u: nat, a: set<nat>, b: set<nat>)
    requires a !! b && u !in a + b
    ensures |{u} + a + b| == 1 + |a| + |b|
  {
    assert |{u} + a| == 1 + |a| && |{u} + a + b| == |{u} + a| + |b|;
  }

  /** A degeneracy order starts with a hub. */
  lemma HubComesFirst(g: Graph, k: nat, w: nat, u: nat, a: set<nat>, b: set<nat>, order: seq<nat>)
    requires Roles(g, k, w, u, a, b) && IsOrder(g, order) && MinFirst(g, order)
    ensures order != [] && (order[0] == w || order[0] == u)
  {
    assert w in g.Vertices();
    OrderHasAll(g, order, w);
    assert LeastAt(g, order, 0) && order[..0] == [];
    assert Elems(order[..0]) == {};
    assert |Left(g, order[0], {})| <= |Left(g, w, {})|;
    HubDegree(g, k, w, u, a, b);
    assert order[0] in order && order[0] in g.Vertices();
    if order[0] in a {
      InnerDegree(g, k, w, u, a, b, order[0]);
    } else if order[0] in b {
      RolesSwap(g, k, w, u, a, b);
      InnerDegree(g, k, u, w, b, a, order[0]);
    }
  }

  lemma HubDegree(g: Graph, k: nat, w: nat, u: nat, a: set<nat>, b: set<nat>)
    requires Roles(g, k, w, u, a, b)
    ensures |Left(g, w, {})| <= k - 2
  {
    assert w in g.Vertices();
    forall x | x in Left(g, w, {})
      ensures x in a
    {
      assert RoleEdge(w, u, a, b, w, x);
    }
    SubsetCardinality(Left(g, w, {}), a);
  }

  lemma InnerDegree(g: Graph, k: nat, w: nat, u: nat, a: set<nat>, b: set<nat>, x: nat)
    requires Roles(g, k, w, u, a, b) && x in a
    ensures |Left(g, x, {})| > k - 2
  {
    var near := b + {w} + (a - {x});
    forall y | y in near
      ensures y in Left(g, x, {})
    {
      assert x in g.Vertices() && y in g.Vertices();
      assert RoleEdge(w, u, a, b, x, y);
    }
    assert |b + {w}| == |b| + 1 && |near| == |b + {w}| + |a - {x}|;
    SubsetCardinality(near, Left(g, x, {}));
  }

  /** In the relabelled graph the hub that comes first extends the others, so they are not
      reported. */
  lemma RestNotReported(g: Graph, h: Graph, k: nat, q: nat, order: seq<nat>, w: nat, u: nat, a: set<nat>, b: set<nat>)
    requires Roles(g, k, w, u, a, b) && Isomorphic(g, h, order) && h.Valid() && order != [] && order[0] == w
    ensures !Reported(h, k, q, Positions(order, g.Vertices() - {w}))
  {
    var m := g.Vertices() - {w};
    var p := Positions(order, m);
    PositionsRename(g, order, m);
    assert 0 !in p;
    FirstExtends(g, h, k, order, w, u, a, b);
    FirstTouches(g, h, k, order, w, u, a, b);
    forall v: nat | Least(v, p)
      ensures !Found(h, k, v, p)
    {
      assert v != 0;
      assert Addable(h, k, p, 0) && 0 < v && Touches(h, p, 0);
    }
  }

  lemma FirstExtends(g: Graph, h: Graph, k: nat, order: seq<nat>, w: nat, u: nat, a: set<nat>, b: set<nat>)
    requires Roles(g, k, w, u, a, b) && Isomorphic(g, h, order) && order != [] && order[0] == w
    ensures Addable(h, k, Positions(order, g.Vertices() - {w}), 0)
  {
    AllIsPlex(g, k, w, u, a, b);
    assert w in g.Vertices();
    AllRenamed(g, order, w);
    KplexRenamed(g, h, order, k, Positions(order, g.Vertices() - {w}) + {0});
  }

  /** Position 0 and those of all other vertices make up the graph. */
  lemma AllRenamed(g: Graph, order: seq<nat>, w: nat)
    requires IsOrder(g, order) && order != [] && order[0] == w && w in g.Vertices()
    ensures var p := Positions(order, g.Vertices() - {w});
            0 !in p && (forall i | i in p + {0} :: i < |order|) && Renamed(order, p + {0}) == g.Vertices()
  {
    var m := g.Vertices() - {w};
    PositionsRename(g, order, m);
    RenamedAdd(order, Positions(order, m), 0);
    assert m + {w} == g.Vertices();
  }

  lemma RenamedAdd(order: seq<nat>, s: set<nat>, i: nat)
    requires i < |order| && forall j | j in s :: j < |order|
    ensures Renamed(order, s + {i}) == Renamed(order, s) + {order[i]}
  {
  }

  lemma FirstTouches(g: Graph, h: Graph, k: nat, order: seq<nat>, w: nat, u: nat, a: set<nat>, b: set<nat>)
    requires Roles(g, k, w, u, a, b) && Isomorphic(g, h, order) && order != [] && order[0] == w
    ensures Touches(h, Positions(order, g.Vertices() - {w}), 0)
  {
    var x :| x in a;
    assert x in g.Vertices() && w in g.Vertices();
    OrderHasAll(g, order, x);
    var j: nat :| j < |order| && order[j] == x;
    assert Indexes(order, j);
    assert RoleEdge(w, u, a, b, w, x) && g.Adj(w, x);
    assert h.Adj(0, j) && j in Positions(order, g.Vertices() - {w});
  }

  /** A set that the documentation promises. */
  ghost predicate Promised(g: Graph, k: nat, q: nat, m: set<nat>) {
    MaximalDiamTwoKplex(g, k, m) && |m| >= q
  }

  /** The output has, under the new numbers, every promised set. */
  ghost predicate Keeps(g: Graph, k: nat, q: nat, out: seq<seq<nat>>, order: seq<nat>) {
    forall m: set<nat> | Promised(g, k, q, m) :: HasItem(out, Positions(order, m))
  }

  ghost predicate Misses(g: Graph, k: nat, q: nat, out: seq<seq<nat>>, order: seq<nat>, m: set<nat>) {
    Promised(g, k, q, m) && !HasItem(out, Positions(order, m))
  }

  /** In the exact range every run on every graph outputs every promised set. */
  lemma TargetIsReported(g: Graph, k: nat, q: nat, out: seq<seq<nat>>, order: seq<nat>)
    requires k >= 1 && Exact(k, q) && KplexOutcome(g, k, q, out, order)
    ensures Keeps(g, k, q, out, order)
  {
    var h: Graph :| OutcomeOn(g, h, k, q, out, order);
    forall m: set<nat> | Promised(g, k, q, m)
      ensures HasItem(out, Positions(order, m))
    {
      OutcomeRenamed(g, h, k, q, out, order, m);
    }
  }

  /** Outside the exact range every run on the hub graph misses a promised set. */
  lemma SmallSizesFail(k: nat, q: nat, out: seq<seq<nat>>, order: seq<nat>) returns (m: set<nat>)
    requires k >= 1 && !Exact(k, q) && KplexOutcome(Hubs(k), k, q, out, order)
    ensures Misses(Hubs(k), k, q, out, order, m)
  {
    var g := Hubs(k);
    var h: Graph :| OutcomeOn(g, h, k, q, out, order);
    HubsHaveRoles(k, g);
    var w, u, a, b := 0, 2 * k - 3, Range(1, k - 1), Range(k - 1, 2 * k - 3);
    HubComesFirst(g, k, w, u, a, b, order);
    if order[0] == w {
      m := MissesRest(g, h, k, q, out, order, w, u, a, b);
    } else {
      RolesSwap(g, k, w, u, a, b);
      m := MissesRest(g, h, k, q, out, order, u, w, b, a);
    }
  }

  lemma MissesRest(g: Graph, h: Graph, k: nat, q: nat, out: seq<seq<nat>>, order: seq<nat>, w: nat, u: nat, a: set<nat>, b: set<nat>)
      returns (m: set<nat>)
    requires Roles(g, k, w, u, a, b) && OutcomeOn(g, h, k, q, out, order) && !Exact(k, q)
    requires order != [] && order[0] == w
    ensures Misses(g, k, q, out, order, m)
  {
    m := g.Vertices() - {w};
    RestIsMaximal(g, k, w, u, a, b);
    RestNotReported(g, h, k, q, order, w, u, a, b);
  }

  /** The documented promise is kept by every run on every graph if `k <= 2` or `q >= 2k-2`;
      otherwise there is a graph on which every run breaks it. */
  lemma PromiseIffExact(k: nat, q: nat)
    requires 1 <= k <= 255
    ensures Exact(k, q) ==>
              forall g: Graph, out, order | KplexOutcome(g, k, q, out, order) :: Keeps(g, k, q, out, order)
    ensures !Exact(k, q) ==>
              exists g: Graph :: g.Valid() && forall out, order | KplexOutcome(g, k, q, out, order) :: !Keeps(g, k, q, out, order)
  {
    if Exact(k, q) {
      forall g: Graph, out, order | KplexOutcome(g, k, q, out, order)
        ensures Keeps(g, k, q, out, order)
      {
        TargetIsReported(g, k, q, out, order);
      }
    } else {
      var g := Hubs(k);
      forall out, order | KplexOutcome(g, k, q, out, order)
        ensures !Keeps(g, k, q, out, order)
      {
        var m := SmallSizesFail(k, q, out, order);
      }
    }
  }

  /** The run itself: on the hub graph, outside the exact range, it misses a promised set. */
  method RunOnHubs(k: nat, q: nat, enablePivoting: bool)
      returns (g: Graph, out: seq<seq<nat>>, ghost order: seq<nat>, ghost m: set<nat>)
    requires 1 <= k <= 255 && !Exact(k, q)
    ensures g.Valid() && KplexOutcome(g, k, q, out, order) && Misses(g, k, q, out, order, m)
  {
    g := Hubs(k);
    out, order := EnumerateKplexes(g, k, q, enablePivoting);
    m := SmallSizesFail(k, q, out, order);
  }
}
