/** The constructor, the queries and `Permute` of `fast_graph_t` (util/graph.hpp). */
module FastGraphs {
  import opened Graphs
  import opened CuckooSet
  import opened Degeneracy
  import opened GraphPermute

  /** `std::sort` on different numbers. */
  method Sort(xs: seq<nat>) returns (r: seq<nat>)
    requires NoDup(xs)
    ensures Increasing(r) && multiset(r) == multiset(xs)
  {
    r := [];
    for n := 0 to |xs|
      invariant Increasing(r) && multiset(r) == multiset(xs[..n])
    {
      PrefixStep(xs, n);
      assert xs[n] !in multiset(xs[..n]);
      r := InsertSorted(r, xs[n]);
    }
    WholePrefix(xs);
  }

  method InsertSorted(s: seq<nat>, x: nat) returns (r: seq<nat>)
    requires Increasing(s) && x !in multiset(s)
    ensures Increasing(r) && multiset(r) == multiset(s) + multiset{x}
  {
    var at := 0;
    while at < |s| && s[at] < x
      invariant at <= |s| && forall l | 0 <= l < at :: s[l] < x
    {
      at := at + 1;
    }
    InsertedAt(s, x, at);
    r := s[..at] + [x] + s[at..];
  }

  lemma InsertedAt(s: seq<nat>, x: nat, at: nat)
    requires Increasing(s) && x !in multiset(s) && at <= |s|
    requires (forall l | 0 <= l < at :: s[l] < x) && (at < |s| ==> s[at] >= x)
    ensures var r := s[..at] + [x] + s[at..]; Increasing(r) && multiset(r) == multiset(s) + multiset{x}
  {
    if at < |s| {
      assert s[at] in multiset(s);
    }
    InOrder(s, x, at);
    assert s == s[..at] + s[at..];
  }

  lemma InOrder(s: seq<nat>, x: nat, at: nat)
    requires Increasing(s) && at <= |s|
    requires (forall l | 0 <= l < at :: s[l] < x) && (at < |s| ==> x < s[at])
    ensures Increasing(s[..at] + [x] + s[at..])
  {
    forall l | at <= l < |s|
      ensures x < s[l]
    {
      assert s[at] <= s[l];
    }
  }

  /** The row of position `p` in the relabelled graph. */
  ghost predicate RowOk(g: Graph, order: seq<nat>, row: seq<nat>, p: nat)
    requires p < |order|
  {
    && Increasing(row) && (forall j | j in row :: j < |order|)
    && forall j: nat | j < |order| :: j in row <==> g.Adj(order[p], order[j])
  }

  /** `newPos` is the inverse of `order`. */
  ghost predicate Inverse(g: Graph, order: seq<nat>, newPos: seq<nat>) {
    && |newPos| == |order| == g.Size()
    && (forall i: nat | i < |order| :: order[i] < |order| && newPos[order[i]] == i)
    && (forall v: nat | v < |order| :: newPos[v] < |order| && order[newPos[v]] == v)
  }

  method InvertOrder(g: Graph, order: seq<nat>) returns (newPos: seq<nat>)
    requires IsOrder(g, order)
    ensures Inverse(g, order, newPos)
  {
    newPos := seq(g.Size(), _ => 0);
    for i := 0 to g.Size()
      invariant |newPos| == g.Size() && forall l: nat | l < i :: order[l] < |order| && newPos[order[l]] == l
    {
      assert order[i] in order;
      newPos := newPos[order[i] := i];
    }
    forall v: nat | v < |order|
      ensures newPos[v] < |order| && order[newPos[v]] == v
    {
      OrderHasAll(g, order, v);
    }
  }

  /** The new positions of the neighbours of `v`, sorted. */
  method NewRow(g: Graph, order: seq<nat>, newPos: seq<nat>, v: nat) returns (row: seq<nat>)
    requires g.Valid() && g.Has(v) && Inverse(g, order, newPos)
    ensures RowOk(g, order, row, newPos[v])
  {
    var pushed: seq<nat> := [];
    var nb := g.adj[v];
    for m := 0 to |nb|
      invariant |pushed| == m
      invariant forall l | 0 <= l < m :: nb[l] < |newPos| && pushed[l] == newPos[nb[l]]
    {
      assert g.Adj(v, nb[m]);
      pushed := pushed + [newPos[nb[m]]];
    }
    IncreasingIsNoDup(nb);
    forall a, b | 0 <= a < b < |pushed|
      ensures pushed[a] != pushed[b]
    {
      assert order[pushed[a]] == nb[a] && order[pushed[b]] == nb[b];
    }
    row := Sort(pushed);
    SameMultiset(row, pushed);
    forall j: nat | j < |order|
      ensures j in row <==> g.Adj(v, order[j])
    {
      if g.Adj(v, order[j]) {
        var l: nat :| l < |nb| && nb[l] == order[j];
        assert pushed[l] == j;
      }
    }
  }

  method Permute(g: Graph, newOrder: seq<nat>) returns (h: Graph)
    requires g.Valid() && IsOrder(g, newOrder)
    ensures h.Valid() && Isomorphic(g, h, newOrder)
  {
    var n := g.Size();
    var newPos := InvertOrder(g, newOrder);
    var newEdges: seq<seq<nat>> := seq(n, _ => []);
    for i := 0 to n
      invariant |newEdges| == n
      invariant forall v: nat | v < i :: RowOk(g, newOrder, newEdges[newPos[v]], newPos[v])
    {
      var row := NewRow(g, newOrder, newPos, i);
      newEdges := newEdges[newPos[i] := row];
    }
    h := Graph(newEdges);
    forall p: nat | p < n
      ensures RowOk(g, newOrder, h.adj[p], p)
    {
      assert newPos[newOrder[p]] == p;
    }
    RowsGiveGraph(g, h, newOrder);
  }

  lemma RowsGiveGraph(g: Graph, h: Graph, order: seq<nat>)
    requires g.Valid() && IsOrder(g, order) && h.Size() == g.Size()
    requires forall p: nat | p < |order| :: RowOk(g, order, h.adj[p], p)
    ensures h.Valid() && Isomorphic(g, h, order)
  {
    forall i: nat, j: nat | h.Adj(i, j)
      ensures j < h.Size() && j != i && h.Adj(j, i)
    {
      assert RowOk(g, order, h.adj[i], i);
      assert RowOk(g, order, h.adj[j], j);
      assert g.Adj(order[i], order[j]);
      assert g.Adj(order[j], order[i]);
    }
    forall u | 0 <= u < |h.adj|
      ensures Increasing(h.adj[u])
    {
      assert RowOk(g, order, h.adj[u], u);
    }
    forall i: nat, j: nat | i < |order| && j < |order|
      ensures h.Adj(i, j) <==> g.Adj(order[i], order[j])
    {
      assert RowOk(g, order, h.adj[i], i);
    }
  }

  /** What the constructors of both enumerations do with the graph they are given. */
  method Relabel(g: Graph) returns (h: Graph, ghost order: seq<nat>, ghost degeneracy: nat)
    requires g.Valid()
    ensures h.Valid() && Isomorphic(g, h, order) && MinFirst(g, order)
    ensures forall v: nat | v < h.Size() :: |FwdNeighs(h, v)| <= degeneracy
    ensures forall other, d | IsOrder(g, other) && AtMost(g, other, d) :: degeneracy <= d
  {
    ghost var scans;
    var perm, most;
    perm, most, scans := DegeneracyOrder(g);
    h := Permute(g, perm);
    order, degeneracy := perm, most;
    forall v: nat | v < h.Size()
      ensures |FwdNeighs(h, v)| <= degeneracy
    {
      ForwardIsLater(g, h, perm, v);
    }
    forall other, d | IsOrder(g, other) && AtMost(g, other, d)
      ensures most <= d
    {
      assert AtMost(g, perm, d);
    }
  }

  class FastGraph {
    const graph: Graph
    var edges: seq<CuckooHashSet>
    var fwdIter: seq<nat>

    ghost predicate Valid()
      reads this, edges, set s | s in edges :: s.ht
    {
      && graph.Valid() && |edges| == graph.Size() && OffsetsOk(graph, fwdIter)
      && forall v | 0 <= v < |edges| :: Holds(edges[v], graph.adj[v], graph.Size())
    }

    /** `are_neighs` by hash set agrees with the adjacency lists. */
    method AreNeighs(a: nat, b: nat) returns (r: bool)
      requires Valid() && graph.Has(a) && graph.Has(b)
      ensures r <==> graph.Adj(a, b)
    {
      r := edges[a].Count(b);
      assert b in multiset(graph.adj[a]) <==> b in graph.adj[a];
    }

    method FwdNeighsOf(v: nat) returns (r: seq<nat>)
      requires Valid() && graph.Has(v)
      ensures Increasing(r) && forall x: nat :: x in r <==> graph.Adj(v, x) && x > v
    {
      r := graph.adj[v][fwdIter[v]..];
    }

    constructor (g: Graph, width: nat, slots: nat)
      requires g.Valid() && width >= 1 && slots >= 2 && g.Size() < Pow2(width)
      ensures Valid() && graph == g && fresh(edges)
    {
      graph := g;
      var sets := FillAll(g, width, slots);
      var offsets := Offsets(g);
      edges := sets;
      fwdIter := offsets;
    }
  }

  /** The set has the neighbours `nb`, and may be asked about all `n` vertices. */
  ghost predicate Holds(s: CuckooHashSet, nb: seq<nat>, n: nat)
    reads s, s.ht
  {
    s.Valid() && s.Keys() == multiset(nb) && n <= s.missing
  }

  ghost predicate OffsetsOk(g: Graph, fwdIter: seq<nat>)
    requires g.Valid()
  {
    |fwdIter| == g.Size() && forall v | 0 <= v < |fwdIter| :: OffsetOk(g, v, fwdIter[v])
  }

  ghost predicate OffsetOk(g: Graph, v: nat, at: nat)
    requires g.Valid() && v < g.Size()
  {
    at <= |g.adj[v]| && g.adj[v][at..] == FwdNeighs(g, v)
  }

  method Offsets(g: Graph) returns (fwdIter: seq<nat>)
    requires g.Valid()
    ensures OffsetsOk(g, fwdIter)
  {
    fwdIter := [];
    for i := 0 to g.Size()
      invariant |fwdIter| == i && forall v | 0 <= v < i :: OffsetOk(g, v, fwdIter[v])
    {
      var upper := UpperBound(g.adj[i], i);
      fwdIter := fwdIter + [upper];
    }
  }

  method FillAll(g: Graph, width: nat, slots: nat) returns (edges: seq<CuckooHashSet>)
    requires g.Valid() && width >= 1 && slots >= 2 && g.Size() < Pow2(width)
    ensures |edges| == g.Size() && forall v | 0 <= v < |edges| :: fresh(edges[v]) && Holds(edges[v], g.adj[v], g.Size())
  {
    edges := [];
    for i := 0 to g.Size()
      invariant |edges| == i
      invariant forall v | 0 <= v < i :: fresh(edges[v]) && fresh(edges[v].ht) && Holds(edges[v], g.adj[v], g.Size())
    {
      var s := FillSet(g.adj[i], width, slots, g, i);
      edges := edges + [s];
    }
  }

  /** One hash set with the neighbours of `v`. */
  method FillSet(nb: seq<nat>, width: nat, slots: nat, ghost g: Graph, ghost v: nat) returns (s: CuckooHashSet)
    requires g.Valid() && g.Has(v) && nb == g.adj[v] && width >= 1 && slots >= 2 && g.Size() < Pow2(width)
    ensures fresh(s) && fresh(s.ht) && Holds(s, nb, g.Size())
  {
    s := new CuckooHashSet(width, slots);
    IncreasingIsNoDup(nb);
    for m := 0 to |nb|
      invariant fresh(s) && fresh(s.ht) && s.Valid() && s.Keys() == multiset(nb[..m]) && s.width == width
    {
      PrefixStep(nb, m);
      assert g.Adj(v, nb[m]);
      assert nb[m] !in multiset(nb[..m]);
      s.Insert(nb[m]);
    }
    WholePrefix(nb);
  }

  /** `std::upper_bound` as an offset. */
  method UpperBound(s: seq<nat>, v: nat) returns (at: nat)
    requires Increasing(s)
    ensures at <= |s| && s[at..] == Above(s, v)
  {
    at := 0;
    while at < |s| && s[at] <= v
      invariant at <= |s| && Above(s[at..], v) == Above(s, v)
    {
      assert s[at..][1..] == s[at + 1..];
      at := at + 1;
    }
  }
}
