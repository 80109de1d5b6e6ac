/** Relabelling a graph and what it preserves (util/graph.hpp). */
module GraphPermute {
  import opened Graphs
  import opened Degeneracy
  import opened KplexTheory
  import CliqueTheory

  /** Position `i` of the new graph is vertex `order[i]` of the old one. */
  ghost predicate Isomorphic(g: Graph, h: Graph, order: seq<nat>) {
    && IsOrder(g, order) && h.Size() == g.Size()
    && forall i: nat, j: nat | i < |order| && j < |order| :: h.Adj(i, j) <==> g.Adj(order[i], order[j])
  }

  /** The old names of the vertices in `s`. */
  ghost function Renamed(order: seq<nat>, s: set<nat>): set<nat> {
    set i: nat | i in s && i < |order| :: order[i]
  }

  ghost function Positions(order: seq<nat>, s: set<nat>): set<nat> {
    set i: nat | i < |order| && order[i] in s && Indexes(order, i)
  }

  predicate Indexes(order: seq<nat>, i: nat) {
    i < |order|
  }

  lemma RenamedSize(order: seq<nat>, s: set<nat>)
    requires NoDup(order) && forall i | i in s :: i < |order|
    ensures |Renamed(order, s)| == |s|
    decreases s
  {
    if s == {} {
      assert Renamed(order, s) == {};
    } else {
      var i :| i in s;
      RenamedSize(order, s - {i});
      assert Renamed(order, s) == Renamed(order, s - {i}) + {order[i]};
      assert order[i] !in Renamed(order, s - {i});
    }
  }

  /** Every set of old vertices is the renaming of the set of its positions. */
  lemma PositionsRename(g: Graph, order: seq<nat>, s: set<nat>)
    requires IsOrder(g, order) && s <= g.Vertices()
    ensures Renamed(order, Positions(order, s)) == s
    ensures forall i | i in Positions(order, s) :: i < |order|
  {
    forall v | v in s
      ensures v in Renamed(order, Positions(order, s))
    {
      OrderHasAll(g, order, v);
      var i: nat :| i < |order| && order[i] == v;
      assert Indexes(order, i);
    }
  }

  lemma RenamedSubset(order: seq<nat>, s: set<nat>, t: set<nat>)
    requires NoDup(order) && (forall i | i in s + t :: i < |order|)
    ensures Renamed(order, s) <= Renamed(order, t) <==> s <= t
    ensures Renamed(order, s) == Renamed(order, t) <==> s == t
  {
    forall i: nat | i in s + t
      ensures i < |order|
      ensures (order[i] in Renamed(order, t) <==> i in t) && (order[i] in Renamed(order, s) <==> i in s)
    {
    }
    if Renamed(order, s) <= Renamed(order, t) {
      forall i | i in s
        ensures i in t
      {
        assert i in s + t && order[i] in Renamed(order, s);
      }
    }
    if Renamed(order, t) <= Renamed(order, s) {
      forall i | i in t
        ensures i in s
      {
        assert i in s + t && order[i] in Renamed(order, t);
      }
    }
  }

  lemma NonRenamed(g: Graph, h: Graph, order: seq<nat>, s: set<nat>, i: nat)
    requires Isomorphic(g, h, order) && i in s && forall j | j in s :: j < |order|
    ensures |Non(g, Renamed(order, s), order[i])| == |Non(h, s, i)|
  {
    assert Non(g, Renamed(order, s), order[i]) == Renamed(order, Non(h, s, i));
    RenamedSize(order, Non(h, s, i));
  }

  lemma KplexRenamed(g: Graph, h: Graph, order: seq<nat>, k: nat, s: set<nat>)
    requires Isomorphic(g, h, order) && forall i | i in s :: i < |order|
    ensures IsKplex(h, k, s) <==> IsKplex(g, k, Renamed(order, s))
  {
    var r := Renamed(order, s);
    assert s <= h.Vertices();
    assert r <= g.Vertices() by {
      assert forall i | i in s :: order[i] in order;
    }
    forall i | i in s
      ensures |Non(g, r, order[i])| == |Non(h, s, i)| && order[i] in r
    {
      NonRenamed(g, h, order, s, i);
    }
  }

  /** The items the k-plex search finds in the relabelled graph are the maximal k-plexes of
      the given graph under the new numbers. */
  lemma MaximalKplexRenamed(g: Graph, h: Graph, order: seq<nat>, k: nat, m: set<nat>)
    requires Isomorphic(g, h, order) && m <= h.Vertices()
    ensures MaximalKplex(h, k, m) <==> MaximalKplex(g, k, Renamed(order, m))
  {
    var r := Renamed(order, m);
    KplexRenamed(g, h, order, k, m);
    if MaximalKplex(h, k, m) {
      forall t: set<nat> | r < t
        ensures !IsKplex(g, k, t)
      {
        if t <= g.Vertices() {
          var p := Positions(order, t);
          PositionsRename(g, order, t);
          RenamedSubset(order, m, p);
          KplexRenamed(g, h, order, k, p);
        }
      }
    }
    if MaximalKplex(g, k, r) {
      forall t: set<nat> | m < t
        ensures !IsKplex(h, k, t)
      {
        if t <= h.Vertices() {
          RenamedSubset(order, m, t);
          KplexRenamed(g, h, order, k, t);
        }
      }
    }
  }

  lemma DiamTwoRenamed(g: Graph, h: Graph, order: seq<nat>, s: set<nat>)
    requires Isomorphic(g, h, order) && forall i | i in s :: i < |order|
    ensures DiamTwo(h, s) <==> DiamTwo(g, Renamed(order, s))
  {
    var r := Renamed(order, s);
    forall i, j | i in s && j in s && i != j
      ensures order[i] in r && order[j] in r && order[i] != order[j]
      ensures Linked(h, s, i, j) <==> Linked(g, r, order[i], order[j])
    {
      if Linked(h, s, i, j) {
        var x :| x in s && h.Adj(i, x) && h.Adj(j, x);
        assert order[x] in r;
      }
      if Linked(g, r, order[i], order[j]) {
        var y :| y in r && g.Adj(order[i], y) && g.Adj(order[j], y);
        var x: nat :| x in s && x < |order| && order[x] == y;
        assert h.Adj(i, x) && h.Adj(j, x);
      }
    }
  }

  lemma DiamTwoKplexRenamed(g: Graph, h: Graph, order: seq<nat>, k: nat, s: set<nat>)
    requires Isomorphic(g, h, order) && forall i | i in s :: i < |order|
    ensures DiamTwoKplex(h, k, s) <==> DiamTwoKplex(g, k, Renamed(order, s))
  {
    KplexRenamed(g, h, order, k, s);
    DiamTwoRenamed(g, h, order, s);
    RenamedSize(order, s);
  }

  lemma MaximalDiamTwoRenamed(g: Graph, h: Graph, order: seq<nat>, k: nat, m: set<nat>)
    requires Isomorphic(g, h, order) && m <= h.Vertices()
    ensures MaximalDiamTwoKplex(h, k, m) <==> MaximalDiamTwoKplex(g, k, Renamed(order, m))
  {
    var r := Renamed(order, m);
    DiamTwoKplexRenamed(g, h, order, k, m);
    if MaximalDiamTwoKplex(h, k, m) {
      forall t: set<nat> | r < t
        ensures !DiamTwoKplex(g, k, t)
      {
        if t <= g.Vertices() {
          var p := Positions(order, t);
          PositionsRename(g, order, t);
          RenamedSubset(order, m, p);
          DiamTwoKplexRenamed(g, h, order, k, p);
        }
      }
    }
    if MaximalDiamTwoKplex(g, k, r) {
      forall t: set<nat> | m < t
        ensures !DiamTwoKplex(h, k, t)
      {
        if t <= h.Vertices() {
          RenamedSubset(order, m, t);
          DiamTwoKplexRenamed(g, h, order, k, t);
        }
      }
    }
  }

  lemma CliqueRenamed(g: Graph, h: Graph, order: seq<nat>, s: set<nat>)
    requires Isomorphic(g, h, order) && forall i | i in s :: i < |order|
    ensures CliqueTheory.IsClique(h, s) <==> CliqueTheory.IsClique(g, Renamed(order, s))
  {
    var r := Renamed(order, s);
    assert s <= h.Vertices();
    assert r <= g.Vertices() by {
      assert forall i | i in s :: order[i] in order;
    }
    if CliqueTheory.IsClique(g, r) {
      forall i, j | i in s && j in s && i != j
        ensures h.Adj(i, j)
      {
        assert order[i] in r && order[j] in r;
      }
    }
  }

  lemma MaximalCliqueRenamed(g: Graph, h: Graph, order: seq<nat>, m: set<nat>)
    requires Isomorphic(g, h, order) && m <= h.Vertices()
    ensures CliqueTheory.MaximalClique(h, m) <==> CliqueTheory.MaximalClique(g, Renamed(order, m))
  {
    var r := Renamed(order, m);
    CliqueRenamed(g, h, order, m);
    RenamedSize(order, m);
    if CliqueTheory.MaximalClique(h, m) {
      forall t: set<nat> | r < t
        ensures !CliqueTheory.IsClique(g, t)
      {
        if t <= g.Vertices() {
          var p := Positions(order, t);
          PositionsRename(g, order, t);
          RenamedSubset(order, m, p);
          CliqueRenamed(g, h, order, p);
        }
      }
    }
    if CliqueTheory.MaximalClique(g, r) {
      forall t: set<nat> | m < t
        ensures !CliqueTheory.IsClique(h, t)
      {
        if t <= h.Vertices() {
          RenamedSubset(order, m, t);
          CliqueRenamed(g, h, order, t);
        }
      }
    }
  }

  /** Forward neighbours in the new graph are the neighbours that come later in the order. */
  lemma ForwardIsLater(g: Graph, h: Graph, order: seq<nat>, i: nat)
    requires h.Valid() && Isomorphic(g, h, order) && i < |order|
    ensures |FwdNeighs(h, i)| == Later(g, order, i)
  {
    var fwd := Elems(FwdNeighs(h, i));
    IncreasingIsNoDup(FwdNeighs(h, i));
    NoDupCardinality(FwdNeighs(h, i));
    RenamedSize(order, fwd) by {
      assert forall j | j in fwd :: h.Adj(i, j);
    }
    forall v: nat
      ensures v in Renamed(order, fwd) <==> v in Left(g, order[i], Elems(order[..i]))
    {
      ForwardOne(g, h, order, i, v);
    }
    assert Renamed(order, fwd) == Left(g, order[i], Elems(order[..i]));
  }

  lemma ForwardOne(g: Graph, h: Graph, order: seq<nat>, i: nat, v: nat)
    requires h.Valid() && Isomorphic(g, h, order) && i < |order|
    ensures v in Renamed(order, Elems(FwdNeighs(h, i))) <==> v in Left(g, order[i], Elems(order[..i]))
  {
    assert forall l: nat | l < i :: order[..i][l] == order[l];
    if v in Left(g, order[i], Elems(order[..i])) {
      OrderHasAll(g, order, v);
      var j: nat :| j < |order| && order[j] == v;
      assert h.Adj(i, j);
      assert j in Elems(FwdNeighs(h, i));
    }
    if v in Renamed(order, Elems(FwdNeighs(h, i))) {
      var j: nat :| j in FwdNeighs(h, i) && j < |order| && order[j] == v;
      assert h.Adj(i, j) && j > i;
      assert v !in order[..i];
    }
  }
}
