/** Roots of the k-plex search: the pruned two-hop block of each vertex
    (`Diam2KplexEnumeration::GetRoot`), and the walk over all of them. */
module KplexRoots {
  import opened Graphs
  import opened KplexTheory
  import opened KplexState
  import opened KplexBranch
  import opened KplexNode
  import opened KplexSearch
  import opened KplexSight

  /** What the root of `v` has to find. */
  ghost predicate Wanted(g: Graph, k: nat, q: nat, v: nat, m: set<nat>) {
    DiamTwoKplex(g, k, m) && Least(v, m) && |m| >= q
  }

  /** Every wanted set stays inside `s` as far as the neighbours of `v` go. */
  ghost predicate KeepsNear(g: Graph, k: nat, q: nat, v: nat, s: set<nat>) {
    forall m: set<nat>, x | Wanted(g, k, q, v, m) && x in m && g.Adj(v, x) :: x in s
  }

  ghost predicate KeepsAll(g: Graph, k: nat, q: nat, v: nat, s: set<nat>) {
    forall m: set<nat>, x | Wanted(g, k, q, v, m) && x in m :: x in s
  }

  /** The block lies in sight of `v`; a small bound filters nothing out. */
  ghost predicate FillsSight(g: Graph, k: nat, q: nat, v: nat, s: set<nat>) {
    && (forall x | x in s :: x == v || x in Sight(g, k, v))
    && (q + 3 <= 2 * k ==> forall x | x in Sight(g, k, v) :: x in s)
  }

  ghost function Near(g: Graph, s: set<nat>, x: nat): set<nat> {
    set y | y in s && g.Adj(y, x)
  }

  lemma CommonNear(g: Graph, k: nat, q: nat, v: nat, m: set<nat>, x: nat, s: set<nat>)
    requires g.Valid() && Wanted(g, k, q, v, m) && x in m && x != v
    requires forall y | y in m && g.Adj(v, y) :: y in s
    ensures |Near(g, s, x)| + 2 * k >= q + (if g.Adj(v, x) then 0 else 2)
    ensures !g.Adj(v, x) ==> Near(g, s, x) != {}
  {
    UnionBound(g, m, v, x);
    var c := set y | y in m && g.Adj(v, y) && g.Adj(x, y);
    assert c <= Near(g, s, x) by {
      forall y | y in c
        ensures y in Near(g, s, x)
      {
        assert g.Adj(y, x);
      }
    }
    SubsetCardinality(c, Near(g, s, x));
    if !g.Adj(v, x) {
      assert Linked(g, m, v, x);
      var y :| y in m && g.Adj(v, y) && g.Adj(x, y);
      assert y in c;
    }
  }

  lemma DegreeBound(g: Graph, k: nat, q: nat, v: nat, m: set<nat>, near: seq<nat>)
    requires g.Valid() && Wanted(g, k, q, v, m) && NoDup(near)
    requires forall y: nat :: y in near <==> g.Adj(v, y) && y > v
    ensures |near| + k >= q
  {
    NoDupCardinality(near);
    assert m <= Non(g, m, v) + Elems(near);
    SubsetCardinality(m, Non(g, m, v) + Elems(near));
    assert |Non(g, m, v) + Elems(near)| <= |Non(g, m, v)| + |Elems(near)|;
  }

  lemma NearAppend(g: Graph, xs: seq<nat>, y: nat, x: nat)
    requires y !in xs
    ensures |Near(g, Elems(xs + [y]), x)| == |Near(g, Elems(xs), x)| + (if g.Adj(y, x) then 1 else 0)
  {
    var a, b := Near(g, Elems(xs), x), Near(g, Elems(xs + [y]), x);
    if g.Adj(y, x) {
      assert b == a + {y};
    } else {
      assert b == a;
    }
  }

  lemma HasNear(g: Graph, s: set<nat>, x: nat)
    requires |Near(g, s, x)| > 0
    ensures exists y :: y in s && g.Adj(y, x)
  {
    var y :| y in Near(g, s, x);
  }

  /** A vertex above `v` that is neither `v` nor next to it. */
  ghost predicate Far(g: Graph, v: nat, x: nat) {
    g.Has(x) && x > v && !g.Adj(v, x)
  }

  /** The scratch counters after the vertices `xs` and part of one more adjacency list. */
  ghost predicate CountsAre(g: Graph, v: nat, counts: seq<nat>, cands: seq<nat>, xs: seq<nat>, part: seq<nat>) {
    && |counts| == g.Size() && NoDup(cands)
    && (forall x: nat | x < |counts| :: counts[x] ==
          if Far(g, v, x) then |Near(g, Elems(xs), x)| + (if x in part then 1 else 0) else 0)
    && (forall x: nat :: x in cands <==> x < |counts| && counts[x] > 0)
  }

  lemma CountsNext(g: Graph, v: nat, counts: seq<nat>, cands: seq<nat>, xs: seq<nat>, n: nat)
    requires g.Valid() && g.Has(n) && n !in xs && CountsAre(g, v, counts, cands, xs, g.adj[n])
    ensures CountsAre(g, v, counts, cands, xs + [n], [])
  {
    forall x: nat | x < |counts|
      ensures |Near(g, Elems(xs + [n]), x)| == |Near(g, Elems(xs), x)| + (if x in g.adj[n] then 1 else 0)
    {
      NearAppend(g, xs, n, x);
    }
  }

  class Diam2KplexEnumeration {
    const graph: Graph
    const k: nat
    const q: nat
    const enablePivoting: bool
    // thread-local scratch of GetRoot
    var subgraphAdded: seq<bool>
    var subgraphCounts: seq<nat>
    var subgraphCandidates: seq<nat>

    constructor (g: Graph, k: nat, q: nat, enablePivoting: bool)
      requires g.Valid() && 1 <= k <= 255
      ensures Clean() && graph == g && this.k == k && this.q == q
    {
      graph, this.k, this.q, this.enablePivoting := g, k, q, enablePivoting;
      subgraphAdded := seq(g.Size(), _ => false);
      subgraphCounts := seq(g.Size(), _ => 0);
      subgraphCandidates := [];
    }

    /** Between calls the scratch vectors are empty again. */
    ghost predicate Clean()
      reads this
    {
      && graph.Valid() && 1 <= k <= 255
      && |subgraphAdded| == |subgraphCounts| == graph.Size()
      && (forall i | 0 <= i < |subgraphAdded| :: !subgraphAdded[i])
      && (forall i | 0 <= i < |subgraphCounts| :: subgraphCounts[i] == 0)
      && subgraphCandidates == []
    }

    /** One round of `filter_sg`. */
    method FilterSg(v: nat, sg: seq<nat>) returns (filtered: seq<nat>)
      requires graph.Valid() && Increasing(sg)
      ensures Increasing(filtered) && |filtered| <= |sg|
      ensures forall x :: x in filtered <==> x in sg && |Near(graph, Elems(sg), x)| + 2 * k >= q
      ensures |filtered| == |sg| ==> filtered == sg
      ensures q <= 2 * k ==> filtered == sg
    {
      filtered := [];
      for i := 0 to |sg|
        invariant Increasing(filtered) && |filtered| <= i
        invariant forall x :: x in filtered <==> x in sg[..i] && |Near(graph, Elems(sg), x)| + 2 * k >= q
        invariant |filtered| == i || q <= 2 * k ==> filtered == sg[..i]
      {
        IncreasingPrefix(sg, i);
        var count := CountNear(sg, sg[i]);
        if count + 2 * k >= q {
          IncreasingAppend(filtered, sg[i]);
          filtered := filtered + [sg[i]];
        }
      }
      WholePrefix(sg);
    }

    method CountNear(sg: seq<nat>, x: nat) returns (count: nat)
      requires graph.Valid() && Increasing(sg)
      ensures count == |Near(graph, Elems(sg), x)|
    {
      count := 0;
      assert Near(graph, Elems([]), x) == {};
      for j := 0 to |sg|
        invariant count == |Near(graph, Elems(sg[..j]), x)|
      {
        IncreasingPrefix(sg, j);
        NearAppend(graph, sg[..j], sg[j], x);
        assert graph.Adj(x, sg[j]) <==> graph.Adj(sg[j], x);
        if graph.Adj(x, sg[j]) {
          count := count + 1;
        }
      }
      WholePrefix(sg);
    }

    /** The `do`-`while` loop: filter until nothing changes. */
    method FilterLoop(v: nat, start: seq<nat>) returns (sg: seq<nat>)
      requires graph.Valid() && Increasing(start) && KeepsNear(graph, k, q, v, Elems(start))
      requires forall x | x in start :: graph.Adj(v, x) && x > v
      ensures Increasing(sg) && KeepsNear(graph, k, q, v, Elems(sg))
      ensures forall x | x in sg :: x in start
      ensures forall x | x in sg :: |Near(graph, Elems(sg), x)| + 2 * k >= q
      ensures q <= 2 * k ==> sg == start
    {
      sg := start;
      while true
        invariant Increasing(sg) && KeepsNear(graph, k, q, v, Elems(sg))
        invariant forall x | x in sg :: x in start
        invariant q <= 2 * k ==> sg == start
        decreases |sg|
      {
        var sz := |sg|;
        var filtered := FilterSg(v, sg);
        FilterKeeps(v, sg, filtered);
        sg := filtered;
        if |sg| == sz {
          return;
        }
      }
    }

    lemma FilterKeeps(v: nat, sg: seq<nat>, filtered: seq<nat>)
      requires graph.Valid() && KeepsNear(graph, k, q, v, Elems(sg))
      requires forall x | x in sg && |Near(graph, Elems(sg), x)| + 2 * k >= q :: x in filtered
      ensures KeepsNear(graph, k, q, v, Elems(filtered))
    {
      forall m: set<nat>, x | Wanted(graph, k, q, v, m) && x in m && graph.Adj(v, x)
        ensures x in filtered
      {
        CommonNear(graph, k, q, v, m, x, Elems(sg));
      }
    }

    /** `subgraph_added` marks `v` and the neighbours above it. */
    ghost predicate Marked(v: nat)
      reads this
    {
      && |subgraphAdded| == graph.Size()
      && forall x: nat | x < |subgraphAdded| :: subgraphAdded[x] <==> x == v || (graph.Adj(v, x) && x > v)
    }

    /** Count, for each vertex two steps away, its neighbours in `sg`. */
    method CountTwoHop(v: nat, sg: seq<nat>)
      requires graph.Valid() && Increasing(sg) && (forall x | x in sg :: graph.Has(x)) && Marked(v)
      requires CountsAre(graph, v, subgraphCounts, subgraphCandidates, [], [])
      modifies this`subgraphCounts, this`subgraphCandidates
      ensures CountsAre(graph, v, subgraphCounts, subgraphCandidates, sg, [])
    {
      for t := 0 to |sg|
        invariant CountsAre(graph, v, subgraphCounts, subgraphCandidates, sg[..t], [])
      {
        IncreasingPrefix(sg, t);
        assert sg[t] in sg;
        CountNeighs(v, sg[..t], sg[t]);
        CountsNext(graph, v, subgraphCounts, subgraphCandidates, sg[..t], sg[t]);
      }
      WholePrefix(sg);
    }

    method CountNeighs(v: nat, ghost xs: seq<nat>, n: nat)
      requires graph.Valid() && graph.Has(n) && Marked(v)
      requires CountsAre(graph, v, subgraphCounts, subgraphCandidates, xs, [])
      modifies this`subgraphCounts, this`subgraphCandidates
      ensures CountsAre(graph, v, subgraphCounts, subgraphCandidates, xs, graph.adj[n])
    {
      ghost var l := graph.adj[n];
      for s := 0 to |graph.adj[n]|
        invariant CountsAre(graph, v, subgraphCounts, subgraphCandidates, xs, l[..s])
      {
        var nn := graph.adj[n][s];
        IncreasingPrefix(l, s);
        assert graph.Adj(n, nn);
        assert nn !in l[..s];
        if nn > v && !subgraphAdded[nn] {
          if subgraphCounts[nn] == 0 {
            subgraphCandidates := subgraphCandidates + [nn];
          }
          subgraphCounts := subgraphCounts[nn := subgraphCounts[nn] + 1];
        }
      }
      WholePrefix(l);
    }

    /** Append the far vertices with enough neighbours and reset the counters. */
    method TakeFar(v: nat, sub: seq<nat>) returns (r: seq<nat>)
      requires NoDup(subgraphCandidates) && NoDup(sub) && |subgraphCounts| == graph.Size()
      requires forall x | x in subgraphCandidates :: x < |subgraphCounts| && x !in sub
      requires forall x: nat | x < |subgraphCounts| && x !in subgraphCandidates :: subgraphCounts[x] == 0
      modifies this`subgraphCounts, this`subgraphCandidates
      ensures NoDup(r) && |r| >= |sub| && r[..|sub|] == sub
      ensures forall x :: x in r <==>
          (x in sub || (x in old(subgraphCandidates) && old(subgraphCounts)[x] + 2 * k >= q + 2))
      ensures |subgraphCounts| == graph.Size() && subgraphCandidates == []
      ensures forall i | 0 <= i < |subgraphCounts| :: subgraphCounts[i] == 0
    {
      r := sub;
      ghost var cs, counts := subgraphCandidates, subgraphCounts;
      for t := 0 to |subgraphCandidates|
        invariant subgraphCandidates == cs && |subgraphCounts| == |counts|
        invariant NoDup(r) && |r| >= |sub| && r[..|sub|] == sub
        invariant forall x :: x in r <==> x in sub || (x in cs[..t] && counts[x] + 2 * k >= q + 2)
        invariant forall x: nat | x < |counts| :: subgraphCounts[x] == if x in cs[..t] then 0 else counts[x]
      {
        var n := subgraphCandidates[t];
        assert n in cs && n !in cs[..t];
        PrefixStep(cs, t);
        if subgraphCounts[n] + 2 * k >= q + 2 {
          r := r + [n];
        }
        subgraphCounts := subgraphCounts[n := 0];
      }
      WholePrefix(cs);
      subgraphCandidates := [];
    }

    method Unmark(xs: seq<nat>)
      requires |subgraphAdded| == graph.Size() && forall x | x in xs :: x < |subgraphAdded|
      modifies this`subgraphAdded
      ensures |subgraphAdded| == graph.Size()
      ensures forall i | 0 <= i < |subgraphAdded| :: subgraphAdded[i] == (old(subgraphAdded)[i] && i !in xs)
    {
      for t := 0 to |xs|
        invariant |subgraphAdded| == graph.Size()
        invariant forall i | 0 <= i < |subgraphAdded| :: subgraphAdded[i] == (old(subgraphAdded)[i] && i !in xs[..t])
      {
        assert xs[t] in xs;
        PrefixStep(xs, t);
        subgraphAdded := subgraphAdded[xs[t] := false];
      }
      WholePrefix(xs);
    }

    method MarkNear(v: nat) returns (sg: seq<nat>)
      requires Clean() && graph.Has(v)
      modifies this`subgraphAdded
      ensures Marked(v) && sg == FwdNeighs(graph, v)
    {
      subgraphAdded := subgraphAdded[v := true];
      ghost var fwd := FwdNeighs(graph, v);
      sg := [];
      for t := 0 to |FwdNeighs(graph, v)|
        invariant sg == fwd[..t] && |subgraphAdded| == graph.Size()
        invariant forall x: nat | x < |subgraphAdded| :: subgraphAdded[x] <==> x == v || x in fwd[..t]
      {
        var n := FwdNeighs(graph, v)[t];
        assert n in fwd && graph.Adj(v, n);
        PrefixStep(fwd, t);
        sg := sg + [n];
        subgraphAdded := subgraphAdded[n := true];
      }
      WholePrefix(fwd);
    }

    /** `GetRoot` up to the callback: the block of `v`, or nothing when `v` has too few
        neighbours above it. */
    method BuildBlock(v: nat) returns (ok: bool, sub: seq<nat>)
      requires Clean() && graph.Has(v)
      modifies this
      ensures Clean()
      ensures ok ==> ValidSubgraph(graph, k, sub) && sub[0] == v && KeepsAll(graph, k, q, v, Elems(sub))
      ensures ok ==> FillsSight(graph, k, q, v, Elems(sub))
      ensures !ok ==> forall m: set<nat> :: !Wanted(graph, k, q, v, m)
    {
      IncreasingIsNoDup(FwdNeighs(graph, v));
      forall m: set<nat> | Wanted(graph, k, q, v, m) {
        DegreeBound(graph, k, q, v, m, FwdNeighs(graph, v));
      }
      if |FwdNeighs(graph, v)| + k < q {
        return false, [];
      }
      var fwd := MarkNear(v);
      NearStart(v, fwd);
      var sg := FilterLoop(v, fwd);
      sub := [v] + sg;
      NearBlock(v, sg, sub);
      if k != 1 {
        assert CountsAre(graph, v, subgraphCounts, subgraphCandidates, [], []);
        CountTwoHop(v, sg);
        ghost var counts, cs := subgraphCounts, subgraphCandidates;
        sub := TakeFar(v, sub);
        FarBlock(v, sg, counts, cs, sub);
        FarSight(v, sg, counts, cs, sub);
      }
      Unmark(sub);
      Unmark(fwd);
      ok := true;
    }

    lemma NearStart(v: nat, fwd: seq<nat>)
      requires graph.Valid() && graph.Has(v) && fwd == FwdNeighs(graph, v)
      ensures KeepsNear(graph, k, q, v, Elems(fwd))
    {
    }

    lemma NearBlock(v: nat, sg: seq<nat>, sub: seq<nat>)
      requires graph.Valid() && graph.Has(v) && Increasing(sg) && sub == [v] + sg
      requires forall x | x in sg :: graph.Adj(v, x) && x > v
      requires KeepsNear(graph, k, q, v, Elems(sg))
      ensures ValidSubgraph(graph, k, sub)
      ensures k == 1 ==> KeepsAll(graph, k, q, v, Elems(sub)) && FillsSight(graph, k, q, v, Elems(sub))
    {
      forall i | 1 <= i < |sub|
        ensures graph.Adj(v, sub[i]) && v < sub[i]
      {
        assert sub[i] == sg[i - 1];
        assert sg[i - 1] in sg;
      }
      if k == 1 {
        forall m: set<nat>, x | Wanted(graph, k, q, v, m) && x in m
          ensures x in sub
        {
          if x != v && !graph.Adj(v, x) {
            SubsetCardinality({v, x}, Non(graph, m, v));
          }
        }
      }
    }

    lemma FarBlock(v: nat, sg: seq<nat>, counts: seq<nat>, cs: seq<nat>, sub: seq<nat>)
      requires graph.Valid() && graph.Has(v) && k >= 2 && KeepsNear(graph, k, q, v, Elems(sg))
      requires forall x | x in sg :: graph.Adj(v, x) && x > v
      requires CountsAre(graph, v, counts, cs, sg, [])
      requires NoDup(sub) && |sub| >= 1 && sub[0] == v
      requires forall x :: x in sub <==> x == v || x in sg || (x in cs && counts[x] + 2 * k >= q + 2)
      ensures ValidSubgraph(graph, k, sub) && KeepsAll(graph, k, q, v, Elems(sub))
    {
      forall i | 0 <= i < |sub|
        ensures graph.Has(sub[i]) && (i > 0 ==> v < sub[i])
      {
        assert sub[i] in sub;
      }
      forall m: set<nat>, x | Wanted(graph, k, q, v, m) && x in m
        ensures x in sub
      {
        if x != v && !graph.Adj(v, x) {
          CommonNear(graph, k, q, v, m, x, Elems(sg));
          assert Far(graph, v, x);
        }
      }
    }

    lemma FarSight(v: nat, sg: seq<nat>, counts: seq<nat>, cs: seq<nat>, sub: seq<nat>)
      requires graph.Valid() && graph.Has(v) && k >= 2 && CountsAre(graph, v, counts, cs, sg, [])
      requires forall x | x in sg :: graph.Adj(v, x) && x > v
      requires q <= 2 * k ==> sg == FwdNeighs(graph, v)
      requires forall x :: x in sub <==> x == v || x in sg || (x in cs && counts[x] + 2 * k >= q + 2)
      ensures FillsSight(graph, k, q, v, Elems(sub))
    {
      forall x | x in sub && x != v
        ensures x in Sight(graph, k, v)
      {
        if x !in sg {
          HasNear(graph, Elems(sg), x);
          var y :| y in sg && graph.Adj(y, x);
          assert TwoSteps(graph, v, x);
        }
      }
      if q + 3 <= 2 * k {
        forall x | x in Sight(graph, k, v)
          ensures x in sub
        {
          if !graph.Adj(v, x) {
            var y: nat :| y > v && graph.Adj(v, y) && graph.Adj(y, x);
            assert y in Near(graph, Elems(sg), x);
            assert Near(graph, Elems(sg), x) != {};
          }
        }
      }
    }

    /** `Diam2KplexNode::Init`: the complement of the block. */
    method Complement(sub: seq<nat>) returns (b: Block)
      requires Clean() && ValidSubgraph(graph, k, sub)
      ensures b.Valid() && b.g == graph && b.k == k && b.sub == sub
    {
      var nadj: seq<seq<nat>> := [];
      b := Block(graph, k, sub, []);
      for i := 0 to |sub|
        invariant |nadj| == i && forall x | 0 <= x < i :: Increasing(nadj[x])
        invariant forall x: nat, j: nat | x < i :: j in nadj[x] <==> j < |sub| && b.Apart(x, j)
      {
        var row: seq<nat> := [];
        for j := 0 to |sub|
          invariant Increasing(row) && forall y: nat :: y in row <==> y < j && b.Apart(i, y)
        {
          if !graph.Adj(sub[i], sub[j]) {
            IncreasingAppend(row, j);
            row := row + [j];
          }
        }
        nadj := nadj + [row];
      }
      ghost var b0 := b;
      b := Block(graph, k, sub, nadj);
      assert forall i: nat, j: nat :: b.Apart(i, j) <==> b0.Apart(i, j);
    }

    /** `GetRoot` with the recursive callback: everything below the root of `v`. */
    method GetRoot(v: nat) returns (out: seq<seq<nat>>)
      requires Clean() && graph.Has(v)
      modifies this
      ensures Clean() && RootDone(graph, k, q, v, out)
    {
      var ok, sub := BuildBlock(v);
      if !ok {
        NothingWanted(graph, k, q, v);
        return [];
      }
      var b := Complement(sub);
      var node := new Node();
      node.Init(b);
      var search := new KplexSearch(b, q, enablePivoting);
      out := search.SolutionCb(node);
      RootListed(b, q, node.Value(), out);
    }

    /** The recursive branch of `Sequential::RunInternal`. */
    method Run() returns (out: seq<seq<nat>>)
      requires Clean()
      modifies this
      ensures NoRepetitions(out) && forall m: set<nat> :: HasItem(out, m) <==> Reported(graph, k, q, m)
    {
      out := [];
      for v := 0 to graph.Size()
        invariant Clean()
        invariant RootsDone(graph, k, q, v, out)
      {
        var r := GetRoot(v);
        RootsStep(graph, k, q, v, out, r);
        out := out + r;
      }
    }
  }

  ghost predicate NoRepetitions(out: seq<seq<nat>>) {
    (forall j | 0 <= j < |out| :: NoDup(out[j])) && Distinct(out)
  }

  /** The items below the root of `v`. */
  ghost predicate RootDone(g: Graph, k: nat, q: nat, v: nat, out: seq<seq<nat>>) {
    NoRepetitions(out) && forall m: set<nat> :: HasItem(out, m) <==> |m| >= q && Found(g, k, v, m)
  }

  ghost predicate RootsDone(g: Graph, k: nat, q: nat, n: nat, out: seq<seq<nat>>) {
    NoRepetitions(out) && forall m: set<nat> :: HasItem(out, m) <==> |m| >= q && FoundBelow(g, k, n, m)
  }

  /** Within the block of its least vertex a set is blocked by what is in sight. */
  lemma BlockIsSight(g: Graph, k: nat, q: nat, v: nat, s: set<nat>, m: set<nat>)
    requires g.Valid() && k >= 1 && KeepsAll(g, k, q, v, s) && FillsSight(g, k, q, v, s)
    requires Least(v, m) && |m| >= q
    ensures Local(g, k, s, v, m) <==> Local(g, k, Sight(g, k, v), v, m)
  {
    if Local(g, k, s, v, m) {
      forall w: nat | Addable(g, k, m, w) && w in Sight(g, k, v)
        ensures |m| < k && !Touches(g, m, w)
      {
        SightIsBlocked(g, k, q, v, s, m, w);
      }
    }
  }

  lemma SightIsBlocked(g: Graph, k: nat, q: nat, v: nat, s: set<nat>, m: set<nat>, w: nat)
    requires g.Valid() && k >= 1 && KeepsAll(g, k, q, v, s) && FillsSight(g, k, q, v, s)
    requires Least(v, m) && |m| >= q && Local(g, k, s, v, m) && Addable(g, k, m, w) && w in Sight(g, k, v)
    ensures |m| < k && !Touches(g, m, w)
  {
    if |m| >= k || Touches(g, m, w) {
      if Exact(k, |m|) {
        ExtensionInBlock(g, k, q, v, s, m, w);
      }
    }
  }

  lemma ExtensionInBlock(g: Graph, k: nat, q: nat, v: nat, s: set<nat>, m: set<nat>, w: nat)
    requires g.Valid() && k >= 1 && KeepsAll(g, k, q, v, s) && Exact(k, |m|) && Least(v, m) && |m| >= q
    requires DiamTwoKplex(g, k, m) && Addable(g, k, m, w) && (|m| >= k || Touches(g, m, w)) && w > v
    ensures w in s
  {
    ExtensionIsDiamTwo(g, k, |m|, m, w);
    AddedIsProper(m, w);
    assert Wanted(g, k, q, v, m + {w}) && w in m + {w};
  }

  lemma NothingWanted(g: Graph, k: nat, q: nat, v: nat)
    requires forall m: set<nat> :: !Wanted(g, k, q, v, m)
    ensures RootDone(g, k, q, v, [])
  {
    forall m: set<nat>
      ensures !(|m| >= q && Found(g, k, v, m))
    {
      assert !Wanted(g, k, q, v, m);
    }
  }

  lemma RootListed(b: Block, q: nat, st: State, out: seq<seq<nat>>)
    requires b.Valid() && st.Inv(b) && st.kplex == [0] && (forall i :: i in st.cands <==> 1 <= i < |b.sub|)
    requires KeepsAll(b.g, b.k, q, b.sub[0], b.Members()) && FillsSight(b.g, b.k, q, b.sub[0], b.Members())
    requires Listed(b, q, st, out) && Complete(b, q, st, out)
    ensures RootDone(b.g, b.k, q, b.sub[0], out)
  {
    var v := b.sub[0];
    forall j | 0 <= j < |out|
      ensures NoDup(out[j])
    {
      assert ItemOk(b, q, st, out[j]);
    }
    forall m: set<nat>
      ensures HasItem(out, m) <==> |m| >= q && Found(b.g, b.k, v, m)
    {
      if HasItem(out, m) {
        var j :| 0 <= j < |out| && Elems(out[j]) == m;
        assert ItemOk(b, q, st, out[j]);
        UnderHasLeast(b, st, m);
        BlockIsSight(b.g, b.k, q, v, b.Members(), m);
      }
      if |m| >= q && Found(b.g, b.k, v, m) {
        RootCovers(b, q, st, m);
        BlockIsSight(b.g, b.k, q, v, b.Members(), m);
        assert Sound(b, q, m);
      }
    }
  }

  lemma UnderHasLeast(b: Block, st: State, m: set<nat>)
    requires b.Valid() && st.Inv(b) && Under(b, st, m)
    ensures Least(b.sub[0], m)
  {
    b.VContains(st.kplex, 0);
    forall x | x in m
      ensures b.sub[0] <= x
    {
      assert x in b.V(st.kplex) || x in b.V(st.cands);
      var i: nat :| i < |b.sub| && b.sub[i] == x;
    }
  }

  lemma RootCovers(b: Block, q: nat, st: State, m: set<nat>)
    requires b.Valid() && st.kplex == [0] && (forall i :: i in st.cands <==> 1 <= i < |b.sub|)
    requires KeepsAll(b.g, b.k, q, b.sub[0], b.Members()) && Wanted(b.g, b.k, q, b.sub[0], m)
    ensures Under(b, st, m)
  {
    forall x | x in m
      ensures x in st.S(b) + b.V(st.cands)
    {
      assert x in b.Members();
      var i: nat :| i < |b.sub| && b.sub[i] == x;
      assert i in st.kplex || i in st.cands;
    }
    assert [0][0] == 0;
  }

  lemma RootsStep(g: Graph, k: nat, q: nat, v: nat, out: seq<seq<nat>>, r: seq<seq<nat>>)
    requires RootsDone(g, k, q, v, out) && RootDone(g, k, q, v, r)
    ensures RootsDone(g, k, q, v + 1, out + r)
  {
    RootsApart(g, k, q, v, out, r);
    DistinctConcat(out, r);
    forall m: set<nat>
      ensures HasItem(out + r, m) <==> |m| >= q && FoundBelow(g, k, v + 1, m)
    {
      HasItemConcat(out, r, m);
      FoundNext(g, k, v, m);
    }
  }

  lemma FoundNext(g: Graph, k: nat, v: nat, m: set<nat>)
    ensures FoundBelow(g, k, v + 1, m) <==> FoundBelow(g, k, v, m) || Found(g, k, v, m)
  {
  }

  /** Different roots never find the same set. */
  lemma RootsApart(g: Graph, k: nat, q: nat, v: nat, out: seq<seq<nat>>, r: seq<seq<nat>>)
    requires RootsDone(g, k, q, v, out) && RootDone(g, k, q, v, r)
    ensures forall i, j | 0 <= i < |out| && 0 <= j < |r| :: Elems(out[i]) != Elems(r[j])
  {
    forall i, j | 0 <= i < |out| && 0 <= j < |r|
      ensures Elems(out[i]) != Elems(r[j])
    {
      assert HasItem(out, Elems(out[i])) && HasItem(r, Elems(r[j]));
      var u: nat :| u < v && Found(g, k, u, Elems(out[i]));
      if Elems(out[i]) == Elems(r[j]) {
        LeastIsOne(u, v, Elems(r[j]));
      }
    }
  }
}
