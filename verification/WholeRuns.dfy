/** Whole sequential runs on a given graph: relabel it in degeneracy order, enumerate, report
    in the new numbers. */
module WholeRuns {
  import opened Graphs
  import opened KplexTheory
  import opened KplexSight
  import opened Degeneracy
  import opened GraphPermute
  import opened FastGraphs
  import KplexSearch
  import KplexRoots
  import CliqueTheory
  import CliqueSearch

  lemma PositionsFit(g: Graph, h: Graph, order: seq<nat>, m: set<nat>)
    requires Isomorphic(g, h, order) && m <= g.Vertices()
    ensures var p := Positions(order, m); p <= h.Vertices() && Renamed(order, p) == m && |p| == |m|
  {
    PositionsRename(g, order, m);
    RenamedSize(order, Positions(order, m));
  }

  /** Exactly what a k-plex run outputs, whatever `k` and `q`: `order[i]` is the given graph's
      name of vertex `i` in the output, and `order` is a degeneracy order. */
  ghost predicate KplexOutcome(g: Graph, k: nat, q: nat, out: seq<seq<nat>>, order: seq<nat>) {
    exists h: Graph :: OutcomeOn(g, h, k, q, out, order)
  }

  /** The same with the relabelled graph `h` named. */
  ghost predicate OutcomeOn(g: Graph, h: Graph, k: nat, q: nat, out: seq<seq<nat>>, order: seq<nat>) {
    && h.Valid() && Isomorphic(g, h, order) && MinFirst(g, order)
    && KplexRoots.NoRepetitions(out)
    && forall m: set<nat> :: KplexSearch.HasItem(out, m) <==> Reported(h, k, q, m)
  }

  /** An item is a maximal diameter-two k-plex of the given graph, and large enough. */
  ghost predicate ItemFits(g: Graph, k: nat, q: nat, order: seq<nat>, item: seq<nat>) {
    && NoDup(item) && |item| >= q && (forall i | i in item :: i < |order|)
    && MaximalDiamTwoKplex(g, k, Renamed(order, Elems(item)))
  }

  lemma ReportedFits(g: Graph, h: Graph, k: nat, q: nat, order: seq<nat>, item: seq<nat>)
    requires h.Valid() && Isomorphic(g, h, order) && k >= 1
    requires NoDup(item) && Reported(h, k, q, Elems(item))
    ensures ItemFits(g, k, q, order, item)
  {
    var m := Elems(item);
    NoDupCardinality(item);
    ReportedBySize(h, k, q, m);
    forall i | i in item
      ensures i < |order|
    {
      assert i in m;
    }
    MaximalDiamTwoRenamed(g, h, order, k, m);
  }

  /** What the outcome means for the graph as given. */
  lemma OutcomeRenamed(g: Graph, h: Graph, k: nat, q: nat, out: seq<seq<nat>>, order: seq<nat>, m: set<nat>)
    requires OutcomeOn(g, h, k, q, out, order) && m <= g.Vertices() && |m| >= q && k >= 1
    ensures Exact(k, |m|) ==> (KplexSearch.HasItem(out, Positions(order, m)) <==> MaximalDiamTwoKplex(g, k, m))
    ensures |m| + 1 >= 2 * k ==> (KplexSearch.HasItem(out, Positions(order, m)) <==> MaximalKplex(g, k, m))
  {
    PositionsFit(g, h, order, m);
    ReportedBySize(h, k, q, Positions(order, m));
    MaximalDiamTwoRenamed(g, h, order, k, Positions(order, m));
    MaximalKplexRenamed(g, h, order, k, Positions(order, m));
  }

  /** The k-plex run. */
  method EnumerateKplexes(g: Graph, k: nat, q: nat, enablePivoting: bool) returns (out: seq<seq<nat>>, ghost order: seq<nat>)
    requires g.Valid() && 1 <= k <= 255
    ensures IsOrder(g, order) && KplexSearch.Distinct(out)
    ensures forall item | item in out :: ItemFits(g, k, q, order, item)
    ensures forall m: set<nat> | m <= g.Vertices() && |m| >= q && Exact(k, |m|) ::
              KplexSearch.HasItem(out, Positions(order, m)) <==> MaximalDiamTwoKplex(g, k, m)
    ensures forall m: set<nat> | m <= g.Vertices() && |m| >= q && |m| + 1 >= 2 * k ::
              KplexSearch.HasItem(out, Positions(order, m)) <==> MaximalKplex(g, k, m)
    ensures KplexOutcome(g, k, q, out, order)
  {
    var h;
    ghost var degeneracy;
    h, order, degeneracy := Relabel(g);
    var system := new KplexRoots.Diam2KplexEnumeration(h, k, q, enablePivoting);
    out := system.Run();
    assert OutcomeOn(g, h, k, q, out, order);
    OutcomeFits(g, h, k, q, out, order);
    forall m: set<nat> | m <= g.Vertices() && |m| >= q { OutcomeRenamed(g, h, k, q, out, order, m); }
  }

  lemma OutcomeFits(g: Graph, h: Graph, k: nat, q: nat, out: seq<seq<nat>>, order: seq<nat>)
    requires OutcomeOn(g, h, k, q, out, order) && k >= 1
    ensures forall item | item in out :: ItemFits(g, k, q, order, item)
  {
    forall item | item in out
      ensures ItemFits(g, k, q, order, item)
    {
      var j :| 0 <= j < |out| && out[j] == item;
      assert KplexSearch.HasItem(out, Elems(out[j]));
      ReportedFits(g, h, k, q, order, item);
    }
  }

  /** The clique run. */
  method EnumerateCliques(g: Graph) returns (out: seq<CliqueSearch.CliqueNode>, ghost order: seq<nat>)
    requires g.Valid()
    ensures IsOrder(g, order)
    ensures forall nd | nd in out :: Increasing(nd.clique) && forall i | i in nd.clique :: i < |order|
    ensures forall nd | nd in out :: CliqueTheory.MaximalClique(g, Renamed(order, nd.S()))
    ensures forall i, j | 0 <= i < j < |out| :: out[i].S() != out[j].S()
    ensures forall m: set<nat> | m <= g.Vertices() ::
              (exists j :: 0 <= j < |out| && out[j].S() == Positions(order, m)) <==> CliqueTheory.MaximalClique(g, m)
  {
    var h;
    ghost var degeneracy;
    h, order, degeneracy := Relabel(g);
    var system := new CliqueSearch.CliqueEnumeration(h);
    out := system.Run();
    forall nd | nd in out
      ensures forall i | i in nd.clique :: i < |order|
      ensures CliqueTheory.MaximalClique(g, Renamed(order, nd.S()))
    {
      var j :| 0 <= j < |out| && out[j] == nd;
      assert CliqueTheory.MaximalClique(h, nd.S());
      assert forall i | i in nd.clique :: i in nd.S();
      MaximalCliqueRenamed(g, h, order, nd.S());
    }
    forall m: set<nat> | m <= g.Vertices()
      ensures CliqueTheory.MaximalClique(h, Positions(order, m)) <==> CliqueTheory.MaximalClique(g, m)
    {
      PositionsFit(g, h, order, m);
      MaximalCliqueRenamed(g, h, order, Positions(order, m));
    }
  }
}
