/** Enumeration of maximal cliques by reverse search (enumerable/clique.hpp) under the
    stack-driven walk (enumerator/sequential.hpp). */
module CliqueSearch {
  import opened Graphs
  import opened CliqueTheory

  datatype CliqueNode = CliqueNode(clique: seq<nat>, parind: nat) {
    ghost function S(): set<nat> {
      Elems(clique)
    }
  }

  /** A sorted maximal clique with its parent index. */
  ghost predicate ValidNode(g: Graph, nd: CliqueNode) {
    Increasing(nd.clique) && Maximal(g, nd.S()) && ParentIndex(g, nd.S(), nd.parind)
  }

  ghost predicate IsRoot(g: Graph, nd: CliqueNode) {
    ValidNode(g, nd) && Below(nd.S(), nd.parind) == {}
  }

  /** `c` is a child of `p` in the search forest. */
  ghost predicate ChildOf(g: Graph, p: CliqueNode, c: CliqueNode) {
    ValidNode(g, c) && IsParent(g, p.S(), c.S(), c.parind)
  }

  ghost predicate DistinctIndices(out: seq<CliqueNode>) {
    forall i, j | 0 <= i < j < |out| :: out[i].parind != out[j].parind
  }

  lemma IncreasingUnique(s: seq<nat>, t: seq<nat>)
    requires Increasing(s) && Increasing(t) && Elems(s) == Elems(t)
    ensures s == t
  {
    NoDupCardinality(s);
    NoDupCardinality(t);
    if s != [] {
      assert s[0] in Elems(t);
      assert t[0] in Elems(s);
      assert s[0] == t[0];
      assert Elems(s[1..]) == Elems(s) - {s[0]};
      assert Elems(t[1..]) == Elems(t) - {t[0]};
      IncreasingUnique(s[1..], t[1..]);
    }
  }

  lemma FrontIsLeast(s: seq<nat>)
    requires Increasing(s) && s != []
    ensures IsFront(Elems(s), s[0])
  {
  }

  lemma AboveAll(s: seq<nat>, v: nat)
    requires Increasing(s)
    ensures |Above(s, v)| <= |s|
    ensures |Above(s, v)| == |s| <==> forall x | x in s :: x > v
  {
    if s != [] && s[0] <= v {
      AboveAll(s[1..], v);
      assert s[0] in s;
    }
  }

  /** The scan of `CompleteSmallest` after the neighbours `seen`. */
  ghost predicate Picked(g: Graph, a: set<nat>, r: seq<nat>, seen: seq<nat>) {
    && Increasing(r) && a <= Elems(r)
    && (forall x | x in r :: x in a || x in seen)
    && (forall x | x in seen && x !in a :: x in r <==> Compatible(g, a + Below(Elems(r), x), x))
  }

  /** Everything that fits `a` lies above `a`. */
  ghost predicate FitsAbove(g: Graph, a: set<nat>) {
    forall x: nat, y | Compatible(g, a, x) && y in a :: x > y
  }

  lemma PickStep(g: Graph, a: set<nat>, r: seq<nat>, seen: seq<nat>, n: nat)
    requires g.Valid() && Picked(g, a, r, seen) && FitsAbove(g, a)
    requires g.Has(n) && (forall x | x in seen :: x < n)
    ensures Picked(g, a, if Compatible(g, Elems(r), n) then r + [n] else r, seen + [n])
  {
    var t := if Compatible(g, Elems(r), n) then r + [n] else r;
    if Compatible(g, Elems(r), n) {
      assert Compatible(g, a, n);
      IncreasingAppend(r, n);
    }
    forall x | x in seen + [n] && x !in a
      ensures x in t <==> Compatible(g, a + Below(Elems(t), x), x)
    {
      assert Below(Elems(t), x) == Below(Elems(r), x);
      if x == n {
        assert a + Below(Elems(r), n) == Elems(r);
      }
    }
  }

  lemma PickDone(g: Graph, clique: seq<nat>, r: seq<nat>)
    requires g.Valid() && Increasing(clique) && clique != [] && Elems(clique) <= g.Vertices()
    requires FitsAbove(g, Elems(clique)) && g.Has(clique[0]) && Picked(g, Elems(clique), r, FwdNeighs(g, clique[0]))
    ensures IsGreedy(g, Elems(clique), Elems(r))
  {
    var a, small := Elems(clique), clique[0];
    assert small in a;
    forall x: nat | g.Has(x) && x !in a
      ensures x in r <==> Compatible(g, a + Below(Elems(r), x), x)
    {
      if Compatible(g, a + Below(Elems(r), x), x) {
        assert Compatible(g, a, x);
        assert g.Adj(small, x);
      }
    }
    forall x | x in r
      ensures g.Has(x)
    {
    }
  }

  class CliqueEnumeration {
    const graph: Graph
    // thread-local scratch
    var candidatesBitset: seq<bool>
    var candidates: seq<nat>
    var child: seq<nat>
    var badBitset: seq<bool>
    var bad: seq<nat>

    /** The constructor with `SetUp`. */
    constructor (g: Graph)
      requires g.Valid()
      ensures Clean() && graph == g
    {
      graph := g;
      candidatesBitset := seq(g.Size(), _ => false);
      badBitset := seq(g.Size(), _ => false);
      candidates, child, bad := [], [], [];
    }

    ghost predicate Clean()
      reads this
    {
      && graph.Valid() && candidates == child == bad == []
      && Marks(candidatesBitset, []) && Marks(badBitset, [])
    }

    /** The bits set are exactly those of `xs`. */
    ghost predicate Marks(bits: seq<bool>, xs: seq<nat>) {
      |bits| == graph.Size() && forall x: nat | x < |bits| :: bits[x] <==> x in xs
    }

    method FitsAll(xs: seq<nat>, x: nat) returns (r: bool)
      requires graph.Valid() && graph.Has(x)
      ensures r == Compatible(graph, Elems(xs), x)
    {
      for t := 0 to |xs|
        invariant forall y | y in xs[..t] :: graph.Adj(x, y)
      {
        PrefixStep(xs, t);
        if !graph.Adj(x, xs[t]) {
          return false;
        }
      }
      WholePrefix(xs);
      return true;
    }

    /** `CompleteSmallest` from the front (`CompleteFwd`). */
    method CompleteFwd(clique: seq<nat>) returns (r: seq<nat>)
      requires graph.Valid() && Increasing(clique) && clique != [] && Elems(clique) <= graph.Vertices()
      requires FitsAbove(graph, Elems(clique))
      ensures Increasing(r) && IsGreedy(graph, Elems(clique), Elems(r))
    {
      r := clique;
      assert clique[0] in Elems(clique);
      ghost var a, fwd := Elems(clique), FwdNeighs(graph, clique[0]);
      for t := 0 to |FwdNeighs(graph, clique[0])|
        invariant Picked(graph, a, r, fwd[..t])
      {
        var neigh := FwdNeighs(graph, clique[0])[t];
        assert neigh in fwd && graph.Has(neigh);
        IncreasingPrefix(fwd, t);
        PickStep(graph, a, r, fwd[..t], neigh);
        var canAdd := FitsAll(r, neigh);
        if canAdd {
          r := r + [neigh];
        }
      }
      WholePrefix(fwd);
      PickDone(graph, clique, r);
    }

    /** `GetRoot`: the completion of `i`, when `i` has no smaller neighbour. */
    method GetRoot(i: nat) returns (roots: seq<CliqueNode>)
      requires graph.Valid() && graph.Has(i)
      ensures |roots| <= 1 && forall nd | nd in roots :: IsRoot(graph, nd) && nd.parind == i
      ensures forall nd | IsRoot(graph, nd) && nd.parind == i :: nd in roots
    {
      AboveAll(graph.adj[i], i);
      roots := [];
      if |graph.adj[i]| == |FwdNeighs(graph, i)| {
        RootStart(graph, i);
        var r := CompleteFwd([i]);
        roots := [CliqueNode(r, i)];
        RootIsRoot(graph, i, r);
      } else {
        ghost var x: nat :| x in graph.adj[i] && x <= i;
        NoRoot(graph, i, x);
      }
    }

    /** The first loop of `ListChildren`. */
    method MarkBad(clique: seq<nat>)
      requires graph.Valid() && Increasing(clique) && clique != [] && Elems(clique) <= graph.Vertices()
      requires Marks(badBitset, []) && bad == []
      modifies this`badBitset, this`bad
      ensures Marks(badBitset, bad) && forall x | x in bad :: x < |badBitset|
      ensures forall x: nat :: x in bad <==> x > clique[0] && Bad(graph, Elems(clique), x)
    {
      assert clique[0] in Elems(clique);
      ghost var fwd := FwdNeighs(graph, clique[0]);
      for t := 0 to |FwdNeighs(graph, clique[0])|
        invariant Marks(badBitset, bad) && forall x | x in bad :: x < |badBitset|
        invariant forall x: nat :: x in bad <==> x in fwd[..t] && Bad(graph, Elems(clique), x)
      {
        var neigh := FwdNeighs(graph, clique[0])[t];
        assert neigh in fwd && graph.Has(neigh);
        IncreasingPrefix(fwd, t);
        var ok := FitsBelow(clique, neigh);
        if ok {
          badBitset := badBitset[neigh := true];
          bad := bad + [neigh];
        }
      }
      WholePrefix(fwd);
      forall x: nat | x > clique[0] && Bad(graph, Elems(clique), x)
        ensures x in fwd
      {
        assert clique[0] in Below(Elems(clique), x);
        assert graph.Adj(clique[0], x);
      }
    }

    method FitsBelow(clique: seq<nat>, neigh: nat) returns (ok: bool)
      requires graph.Valid() && Increasing(clique) && graph.Has(neigh)
      ensures ok == Bad(graph, Elems(clique), neigh)
    {
      ok := true;
      for t := 0 to |clique|
        invariant ok && forall y | y in clique[..t] :: y < neigh && graph.Adj(neigh, y)
      {
        IncreasingPrefix(clique, t);
        if clique[t] > neigh {
          assert forall y | y in clique :: y in clique[..t] || y >= clique[t];
          return true;
        }
        if !graph.Adj(neigh, clique[t]) {
          return false;
        }
      }
      WholePrefix(clique);
    }

    method SetBits(bits: seq<bool>, xs: seq<nat>, value: bool) returns (r: seq<bool>)
      requires forall x | x in xs :: x < |bits|
      ensures |r| == |bits| && forall x: nat | x < |bits| :: r[x] == if x in xs then value else bits[x]
    {
      r := bits;
      for t := 0 to |xs|
        invariant |r| == |bits| && forall x: nat | x < |bits| :: r[x] == if x in xs[..t] then value else bits[x]
      {
        assert xs[t] in xs;
        PrefixStep(xs, t);
        r := r[xs[t] := value];
      }
      WholePrefix(xs);
    }

    /** The collecting part of `Candidates`: what lies above the parent index next to a
        smaller member, without the members themselves. */
    method CollectCandidates(clique: seq<nat>, parind: nat)
      requires Clean() && Increasing(clique) && Elems(clique) <= graph.Vertices()
      modifies this`candidatesBitset, this`candidates
      ensures Marks(candidatesBitset, candidates) && NoDup(candidates)
      ensures forall x | x in candidates :: x < |candidatesBitset|
      ensures forall x: nat :: x in candidates <==> Candidate(graph, clique, parind, x)
    {
      forall x | x in clique
        ensures x < |candidatesBitset|
      {
        assert x in Elems(clique);
        assert graph.Has(x);
      }
      candidatesBitset := SetBits(candidatesBitset, clique, true);
      for t := 0 to |clique|
        invariant NoDup(candidates) && Marks(candidatesBitset, clique + candidates)
        invariant forall x | x in candidates :: x < |candidatesBitset|
        invariant forall x: nat :: x in candidates <==> Candidate(graph, clique[..t], parind, x) && x !in clique
      {
        var node := clique[t];
        assert node in clique;
        PrefixStep(clique, t);
        ghost var fwd := FwdNeighs(graph, node);
        for u := 0 to |FwdNeighs(graph, node)|
          invariant NoDup(candidates) && Marks(candidatesBitset, clique + candidates)
          invariant forall x | x in candidates :: x < |candidatesBitset|
          invariant forall x: nat :: x in candidates <==>
              ((Candidate(graph, clique[..t], parind, x) || (x in fwd[..u] && x > parind)) && x !in clique)
        {
          var neigh := FwdNeighs(graph, node)[u];
          assert neigh in fwd;
          PrefixStep(fwd, u);
          if neigh > parind && !candidatesBitset[neigh] {
            candidatesBitset := candidatesBitset[neigh := true];
            candidates := candidates + [neigh];
          }
        }
        WholePrefix(fwd);
        forall x: nat
          ensures Candidate(graph, clique[..t + 1], parind, x) && x !in clique <==>
              ((Candidate(graph, clique[..t], parind, x) || (x in fwd && x > parind)) && x !in clique)
        {
          CandidateStep(clique, t, parind, x);
        }
      }
      WholePrefix(clique);
      candidatesBitset := SetBits(candidatesBitset, clique, false);
    }

    lemma CandidateStep(clique: seq<nat>, t: nat, parind: nat, x: nat)
      requires graph.Valid() && t < |clique| && graph.Has(clique[t])
      ensures Candidate(graph, clique[..t + 1], parind, x) && x !in clique <==>
          ((Candidate(graph, clique[..t], parind, x) || (x in FwdNeighs(graph, clique[t]) && x > parind)) && x !in clique)
    {
      PrefixStep(clique, t);
    }

    /** The loop of `ChildrenCand`: the members below `cand` next to it. */
    method BuildCore(clique: seq<nat>, cand: nat)
      requires graph.Valid() && Increasing(clique) && child == []
      modifies this`child
      ensures Increasing(child) && Elems(child) == Core(graph, Elems(clique), cand)
      ensures forall x | x in child :: x < cand
    {
      for t := 0 to |clique|
        invariant Increasing(child)
        invariant forall x :: x in child <==> x in clique[..t] && x < cand && graph.Adj(cand, x)
      {
        IncreasingPrefix(clique, t);
        if clique[t] > cand {
          continue;
        }
        if graph.Adj(cand, clique[t]) {
          IncreasingAppend(child, clique[t]);
          child := child + [clique[t]];
        }
      }
      WholePrefix(clique);
    }

    /** The test on a candidate: is there a common neighbour of the core that spoils it? */
    method HasSpoiler(clique: seq<nat>, cand: nat) returns (r: bool)
      requires graph.Valid() && clique != [] && child != []
      requires Elems(child) == Core(graph, Elems(clique), cand) && Marks(badBitset, bad)
      requires forall x: nat :: x in bad <==> x > clique[0] && Bad(graph, Elems(clique), x)
      ensures r == exists x :: Spoils(graph, Elems(clique), clique[0], cand, x)
    {
      ghost var p, front := Elems(clique), clique[0];
      var idx := child[0];
      for t := 0 to |child|
        invariant idx in child
      {
        if |DegreeList(child[t])| < |DegreeList(idx)| {
          idx := child[t];
        }
      }
      assert idx in Elems(child);
      assert graph.Adj(cand, idx) && graph.Adj(idx, cand);
      ghost var l := graph.adj[idx];
      for t := 0 to |graph.adj[idx]|
        invariant forall x | x in l[..t] :: !Spoils(graph, p, front, cand, x)
      {
        var neigh := graph.adj[idx][t];
        PrefixStep(l, t);
        assert graph.Adj(idx, neigh);
        var works := FitsAll(child, neigh);
        if works {
          assert Compatible(graph, Core(graph, p, cand), neigh);
          if neigh < clique[0] {
            assert Spoils(graph, p, front, cand, neigh);
            return true;
          }
          if neigh <= cand && graph.Adj(neigh, cand) {
            assert Spoils(graph, p, front, cand, neigh);
            return true;
          }
          if badBitset[neigh] {
            assert Spoils(graph, p, front, cand, neigh);
            return true;
          }
        }
      }
      WholePrefix(l);
      forall x: nat
        ensures !Spoils(graph, p, front, cand, x)
      {
        assert Compatible(graph, Core(graph, p, cand), x) ==> graph.Adj(x, idx) && graph.Adj(idx, x);
      }
      return false;
    }

    function DegreeList(v: nat): seq<nat> {
      if v < graph.Size() then graph.adj[v] else []
    }

    method ExtendCore(cand: nat)
      requires graph.Valid() && Increasing(child) && (forall x | x in child :: x < cand)
      requires Elems(child) + {cand} <= graph.Vertices() && FitsAbove(graph, Elems(child) + {cand})
      modifies this`child
      ensures Increasing(child) && IsGreedy(graph, old(Elems(child)) + {cand}, Elems(child))
    {
      IncreasingAppend(child, cand);
      assert Elems(child + [cand]) == Elems(child) + {cand};
      child := child + [cand];
      child := CompleteFwd(child);
    }

    /** `ChildrenCand` with the callback of `ListChildren`: the child for `cand`, if any. */
    method ChildrenCand(nd: CliqueNode, cand: nat) returns (found: seq<CliqueNode>)
      requires graph.Valid() && ValidNode(graph, nd) && child == [] && Marks(badBitset, bad) && nd.clique != []
      requires forall x: nat :: x in bad <==> x > nd.clique[0] && Bad(graph, nd.S(), x)
      requires Candidate(graph, nd.clique, nd.parind, cand)
      modifies this`child
      ensures child == [] && |found| <= 1
      ensures forall c :: c in found <==> ChildOf(graph, nd, c) && c.parind == cand
    {
      ghost var p, front := nd.S(), nd.clique[0];
      FrontIsLeast(nd.clique);
      BuildCore(nd.clique, cand);
      CoreNonempty(graph, nd, cand);
      var spoiled := HasSpoiler(nd.clique, cand);
      found := [];
      if spoiled {
        SpoiledNoChild(graph, nd, cand);
      } else {
        StartFits(graph, p, front, cand);
        ExtendCore(cand);
        found := [CliqueNode(child, cand)];
        FoundIsChild(graph, nd, cand, child);
      }
      child := [];
    }

    /** The loops that reset the scratch vectors at the end of `Candidates` and `ListChildren`. */
    method Unmark()
      requires graph.Valid() && child == [] && Marks(candidatesBitset, candidates) && Marks(badBitset, bad)
      requires forall x | x in candidates :: x < |candidatesBitset|
      requires forall x | x in bad :: x < |badBitset|
      modifies this
      ensures Clean()
    {
      candidatesBitset := SetBits(candidatesBitset, candidates, false);
      candidates := [];
      badBitset := SetBits(badBitset, bad, false);
      bad := [];
    }

    static ghost predicate NoneStops(out: seq<CliqueNode>, stop: CliqueNode -> bool) {
      forall c | c in out :: !stop(c)
    }

    static lemma StopStep(before: seq<CliqueNode>, found: seq<CliqueNode>, stop: CliqueNode -> bool)
      requires NoneStops(before, stop) && |found| <= 1
      ensures NoneStops(before + found, stop) <==> !(|found| == 1 && stop(found[0]))
      ensures forall i | 0 <= i < |before + found| - 1 :: !stop((before + found)[i])
    {
      var out := before + found;
      assert |found| == 1 ==> found[0] in out;
      forall i | 0 <= i < |out| - 1
        ensures !stop(out[i])
      {
        assert out[i] == before[i] && before[i] in before;
      }
    }

    /** The callback loop of `Candidates`. */
    method TryCandidates(nd: CliqueNode, stop: CliqueNode -> bool) returns (out: seq<CliqueNode>)
      requires graph.Valid() && ValidNode(graph, nd) && child == [] && Marks(badBitset, bad) && nd.clique != []
      requires forall x: nat :: x in bad <==> x > nd.clique[0] && Bad(graph, nd.S(), x)
      requires NoDup(candidates) && forall x: nat :: x in candidates <==> Candidate(graph, nd.clique, nd.parind, x)
      modifies this`child
      ensures child == [] && DistinctIndices(out) && forall c | c in out :: ChildOf(graph, nd, c)
      ensures NoneStops(out, stop) ==> forall c | ChildOf(graph, nd, c) :: c in out
      ensures forall i | 0 <= i < |out| - 1 :: !stop(out[i])
    {
      out := [];
      ghost var cs := candidates;
      for t := 0 to |candidates|
        invariant child == [] && DistinctIndices(out) && NoneStops(out, stop)
        invariant forall c :: c in out <==> ChildOf(graph, nd, c) && c.parind in cs[..t]
      {
        assert cs[t] in cs && cs[t] !in cs[..t];
        PrefixStep(cs, t);
        var found := ChildrenCand(nd, candidates[t]);
        ghost var before := out;
        out := out + found;
        OutGrows(graph, nd, cs, t, before, found);
        StopStep(before, found, stop);
        if |found| == 1 && stop(found[0]) {
          return;
        }
      }
      WholePrefix(cs);
      forall c | ChildOf(graph, nd, c)
        ensures c in out
      {
        ChildIsCandidate(graph, nd, c);
      }
    }

    /** `ListChildren`; the callback answers `!stop(child)`, and the first child on which it
        stops is the last one listed. The scratch vectors are clean again in every case. */
    method ListChildren(nd: CliqueNode, stop: CliqueNode -> bool) returns (out: seq<CliqueNode>)
      requires Clean() && ValidNode(graph, nd)
      modifies this
      ensures Clean() && DistinctIndices(out) && forall c | c in out :: ChildOf(graph, nd, c)
      ensures NoneStops(out, stop) ==> forall c | ChildOf(graph, nd, c) :: c in out
      ensures forall i | 0 <= i < |out| - 1 :: !stop(out[i])
    {
      NodeFacts(graph, nd);
      CollectCandidates(nd.clique, nd.parind);
      MarkBad(nd.clique);
      out := TryCandidates(nd, stop);
      Unmark();
    }

    /** The stack-driven branch of `Sequential::RunInternal`: every node is reported when
        it is pushed. */
    method Run() returns (out: seq<CliqueNode>)
      requires Clean()
      modifies this
      ensures forall nd | nd in out :: Increasing(nd.clique)
      ensures forall i, j | 0 <= i < j < |out| :: out[i].S() != out[j].S()
      ensures forall k: set<nat> :: (exists j :: 0 <= j < |out| && out[j].S() == k) <==> MaximalClique(graph, k)
    {
      out := [];
      var nodes: seq<CliqueNode> := [];
      ghost var expanded: set<CliqueNode> := {};
      for i := 0 to graph.Size()
        invariant Clean() && nodes == [] && Walk(graph, i, out, nodes, expanded)
      {
        var roots := GetRoot(i);
        RootsWalk(graph, i, out, expanded, roots);
        nodes := nodes + roots;
        out := out + roots;
        while nodes != []
          invariant Clean() && Walk(graph, i + 1, out, nodes, expanded)
          decreases Subsets(graph) - Cliques(expanded)
        {
          var node := nodes[|nodes| - 1];
          assert node in nodes;
          ExpandShrinks(graph, i + 1, out, nodes, expanded);
          var children := ListChildren(node, _ => false);
          StepWalk(graph, i + 1, out, nodes, expanded, children);
          nodes := nodes[..|nodes| - 1] + children;
          out := out + children;
          expanded := expanded + {node};
        }
      }
      WalkEnd(graph, out, expanded);
    }
  }

  ghost function Subsets(g: Graph): set<set<nat>> {
    set k: set<nat> | k <= g.Vertices()
  }

  ghost function Cliques(nds: set<CliqueNode>): set<set<nat>> {
    set nd | nd in nds :: nd.S()
  }

  /** The walk after `r` roots: reported nodes are on the stack or expanded, expanded
      nodes have all their children reported, reported children an expanded parent. */
  ghost predicate Walk(g: Graph, r: nat, out: seq<CliqueNode>, nodes: seq<CliqueNode>, expanded: set<CliqueNode>) {
    && Lists(out, nodes, expanded)
    && (forall nd | nd in out :: ValidNode(g, nd))
    && (forall p, c | p in expanded && ChildOf(g, p, c) :: c in out)
    && (forall p, c | c in out && ValidNode(g, p) && ChildOf(g, p, c) :: p in expanded)
    && (forall nd | IsRoot(g, nd) :: nd in out <==> nd.parind < r)
  }

  ghost predicate Lists(out: seq<CliqueNode>, nodes: seq<CliqueNode>, expanded: set<CliqueNode>) {
    && NoDup(out) && NoDup(nodes)
    && (forall nd :: nd in out <==> nd in nodes || nd in expanded)
    && (forall nd | nd in nodes :: nd !in expanded)
  }

  lemma ListsStep(out: seq<CliqueNode>, rest: seq<CliqueNode>, p: CliqueNode, expanded: set<CliqueNode>, children: seq<CliqueNode>)
    requires Lists(out, rest + [p], expanded) && DistinctIndices(children)
    requires forall c | c in children :: c !in out
    ensures Lists(out + children, rest + children, expanded + {p}) && p in out && p !in rest && p !in expanded
  {
    var nodes := rest + [p];
    assert nodes[..|rest|] == rest && nodes[|rest|] == p;
    assert forall nd :: nd in nodes <==> nd in rest || nd == p;
    ChildrenNoDup(children);
    NoDupConcat(out, children);
    NoDupConcat(rest, children);
  }

  lemma NodeIsUnique(g: Graph, c: CliqueNode, d: CliqueNode)
    requires g.Valid() && ValidNode(g, c) && ValidNode(g, d) && c.S() == d.S()
    ensures c == d
  {
    IncreasingUnique(c.clique, d.clique);
    ParentIndexIsUnique(g, c.S(), c.parind, d.parind);
  }

  lemma ParentIsUnique(g: Graph, p: CliqueNode, o: CliqueNode, c: CliqueNode)
    requires g.Valid() && ValidNode(g, p) && ValidNode(g, o) && ChildOf(g, p, c) && ChildOf(g, o, c)
    ensures p == o
  {
    GreedyIsUnique(g, Below(c.S(), c.parind), p.S(), o.S());
    NodeIsUnique(g, p, o);
  }

  lemma RootsWalk(g: Graph, i: nat, out: seq<CliqueNode>, expanded: set<CliqueNode>, roots: seq<CliqueNode>)
    requires g.Valid() && Walk(g, i, out, [], expanded) && |roots| <= 1
    requires forall nd | nd in roots :: IsRoot(g, nd) && nd.parind == i
    requires forall nd | IsRoot(g, nd) && nd.parind == i :: nd in roots
    ensures Walk(g, i + 1, out + roots, [] + roots, expanded)
  {
    assert forall nd | nd in roots :: nd !in out;
    assert NoDup(out + roots);
  }

  lemma ExpandShrinks(g: Graph, r: nat, out: seq<CliqueNode>, nodes: seq<CliqueNode>, expanded: set<CliqueNode>)
    requires g.Valid() && nodes != [] && Walk(g, r, out, nodes, expanded)
    ensures var p := nodes[|nodes| - 1];
            Subsets(g) - Cliques(expanded + {p}) < Subsets(g) - Cliques(expanded)
  {
    var p := nodes[|nodes| - 1];
    assert p in nodes;
    if p.S() in Cliques(expanded) {
      var o :| o in expanded && o.S() == p.S();
      NodeIsUnique(g, o, p);
    }
    assert p in expanded + {p};
    assert p.S() in Cliques(expanded + {p});
    assert p.S() in Subsets(g);
    assert forall nd | nd in expanded :: nd in expanded + {p};
  }

  lemma StepWalk(g: Graph, r: nat, out: seq<CliqueNode>, nodes: seq<CliqueNode>, expanded: set<CliqueNode>, children: seq<CliqueNode>)
    requires g.Valid() && nodes != [] && Walk(g, r, out, nodes, expanded)
    requires var p := nodes[|nodes| - 1];
             DistinctIndices(children) && (forall c :: c in children <==> ChildOf(g, p, c))
    ensures var n := |nodes| - 1;
            Walk(g, r, out + children, nodes[..n] + children, expanded + {nodes[n]})
  {
    var n := |nodes| - 1;
    var p, rest := nodes[n], nodes[..n];
    assert nodes == rest + [p] && p in nodes;
    assert forall c | c in children :: ChildOf(g, p, c) && c !in out;
    ListsStep(out, rest, p, expanded, children);
    forall o, c | c in out + children && ValidNode(g, o) && ChildOf(g, o, c)
      ensures o in expanded + {p}
    {
      if c in children {
        ParentIsUnique(g, p, o, c);
      }
    }
    assert forall nd | nd in children :: !IsRoot(g, nd);
  }

  lemma ChildrenNoDup(children: seq<CliqueNode>)
    requires DistinctIndices(children)
    ensures NoDup(children)
  {
  }

  /** Every valid node has been reported once the walk is over. */
  lemma AllReached(g: Graph, out: seq<CliqueNode>, expanded: set<CliqueNode>, nd: CliqueNode)
    requires g.Valid() && Walk(g, g.Size(), out, [], expanded) && ValidNode(g, nd)
    ensures nd in out
    decreases nd.parind
  {
    var k, i := nd.S(), nd.parind;
    if IsRoot(g, nd) {
      assert g.Has(i);
    } else {
      SubsetIsClique(g, Below(k, i), k);
      CompleteIsGreedy(g, Below(k, i));
      var p := Complete(g, Below(k, i), 0);
      ParentIsMaximal(g, k, i, p);
      var j := HasParentIndex(g, p);
      ParentIsSmaller(g, k, i, p, j);
      var parent := CliqueNode(Sorted(p, g.Size()), j);
      SortedAll(g, p);
      AllReached(g, out, expanded, parent);
      assert ChildOf(g, parent, nd);
    }
  }

  ghost function Sorted(s: set<nat>, n: nat): (r: seq<nat>)
    ensures Increasing(r) && Elems(r) == Below(s, n)
  {
    if n == 0 then []
    else
      var r := Sorted(s, n - 1);
      assert forall x | x in r :: x in Elems(r);
      if n - 1 in s then
        IncreasingAppend(r, n - 1);
        assert Elems(r + [n - 1]) == Elems(r) + {n - 1};
        assert Below(s, n) == Below(s, n - 1) + {n - 1};
        r + [n - 1]
      else
        assert Below(s, n) == Below(s, n - 1);
        r
  }

  lemma SortedAll(g: Graph, s: set<nat>)
    requires s <= g.Vertices()
    ensures Elems(Sorted(s, g.Size())) == s
  {
    assert Below(s, g.Size()) == s by {
      assert forall x | x in s :: g.Has(x);
    }
  }

  lemma WalkEnd(g: Graph, out: seq<CliqueNode>, expanded: set<CliqueNode>)
    requires g.Valid() && Walk(g, g.Size(), out, [], expanded)
    ensures forall i, j | 0 <= i < j < |out| :: out[i].S() != out[j].S()
    ensures forall k: set<nat> :: (exists j :: 0 <= j < |out| && out[j].S() == k) <==> MaximalClique(g, k)
  {
    forall i, j | 0 <= i < j < |out|
      ensures out[i].S() != out[j].S()
    {
      if out[i].S() == out[j].S() {
        NodeIsUnique(g, out[i], out[j]);
      }
    }
    forall k: set<nat>
      ensures (exists j :: 0 <= j < |out| && out[j].S() == k) <==> MaximalClique(g, k)
    {
      if MaximalClique(g, k) {
        var j := MaximalIsOut(g, out, expanded, k);
      } else {
        OutIsMaximal(g, out, expanded, k);
      }
    }
  }

  lemma MaximalIsOut(g: Graph, out: seq<CliqueNode>, expanded: set<CliqueNode>, k: set<nat>) returns (j: nat)
    requires g.Valid() && Walk(g, g.Size(), out, [], expanded) && MaximalClique(g, k)
    ensures j < |out| && out[j].S() == k
  {
    MaximalIff(g, k);
    var i := HasParentIndex(g, k);
    SortedAll(g, k);
    AllReached(g, out, expanded, CliqueNode(Sorted(k, g.Size()), i));
    j :| 0 <= j < |out| && out[j] == CliqueNode(Sorted(k, g.Size()), i);
  }

  lemma OutIsMaximal(g: Graph, out: seq<CliqueNode>, expanded: set<CliqueNode>, k: set<nat>)
    requires g.Valid() && Walk(g, g.Size(), out, [], expanded)
    ensures forall j | 0 <= j < |out| && out[j].S() == k :: MaximalClique(g, k)
  {
    MaximalIff(g, k);
    assert forall j | 0 <= j < |out| :: out[j] in out;
  }

  lemma NodeFacts(g: Graph, nd: CliqueNode)
    requires ValidNode(g, nd)
    ensures Increasing(nd.clique) && nd.clique != [] && Elems(nd.clique) <= g.Vertices()
  {
    assert nd.clique == [] ==> nd.S() == {};
  }

  lemma CoreNonempty(g: Graph, nd: CliqueNode, cand: nat)
    requires g.Valid() && Candidate(g, nd.clique, nd.parind, cand)
    ensures Core(g, nd.S(), cand) != {} && cand !in nd.S() && g.Has(cand)
  {
    var node :| node in nd.clique && node < cand && g.Adj(node, cand);
    assert g.Adj(cand, node);
    assert node in Core(g, nd.S(), cand);
  }

  lemma SpoiledNoChild(g: Graph, nd: CliqueNode, cand: nat)
    requires g.Valid() && ValidNode(g, nd) && nd.clique != []
    requires exists x :: Spoils(g, nd.S(), nd.clique[0], cand, x)
    ensures forall c | ChildOf(g, nd, c) :: c.parind != cand
  {
    FrontIsLeast(nd.clique);
    forall c | ChildOf(g, nd, c)
      ensures c.parind != cand
    {
      ChildPasses(g, nd.S(), nd.clique[0], c.S(), c.parind);
    }
  }

  lemma StartFits(g: Graph, p: set<nat>, front: nat, i: nat)
    requires g.Valid() && Maximal(g, p) && Passes(g, p, front, i) && g.Has(i)
    ensures FitsAbove(g, Core(g, p, i) + {i}) && Core(g, p, i) + {i} <= g.Vertices()
  {
    forall x: nat, y | Compatible(g, Core(g, p, i) + {i}, x) && y in Core(g, p, i) + {i}
      ensures x > y
    {
      assert i in Core(g, p, i) + {i};
      assert Compatible(g, Core(g, p, i), x);
      assert !Spoils(g, p, front, i, x);
    }
  }

  lemma FoundIsChild(g: Graph, nd: CliqueNode, i: nat, r: seq<nat>)
    requires g.Valid() && ValidNode(g, nd) && nd.clique != [] && g.Has(i) && i !in nd.S()
    requires Passes(g, nd.S(), nd.clique[0], i)
    requires Increasing(r) && IsGreedy(g, Core(g, nd.S(), i) + {i}, Elems(r))
    ensures ChildOf(g, nd, CliqueNode(r, i))
    ensures forall c | ChildOf(g, nd, c) && c.parind == i :: c == CliqueNode(r, i)
  {
    FrontIsLeast(nd.clique);
    PassingIsChild(g, nd.S(), nd.clique[0], i, Elems(r));
    forall c | ChildOf(g, nd, c) && c.parind == i
      ensures c == CliqueNode(r, i)
    {
      SameChild(g, nd, c, r);
    }
  }

  lemma SameChild(g: Graph, nd: CliqueNode, c: CliqueNode, r: seq<nat>)
    requires g.Valid() && ValidNode(g, nd) && ChildOf(g, nd, c)
    requires Increasing(r) && IsGreedy(g, Core(g, nd.S(), c.parind) + {c.parind}, Elems(r))
    ensures c == CliqueNode(r, c.parind)
  {
    var i := c.parind;
    ChildCore(g, nd.S(), c.S(), i);
    UpToSplits(c.S(), i);
    GreedyIsUnique(g, UpTo(c.S(), i), Elems(r), c.S());
    IncreasingUnique(r, c.clique);
  }

  lemma OutGrows(g: Graph, nd: CliqueNode, cs: seq<nat>, t: nat, out: seq<CliqueNode>, found: seq<CliqueNode>)
    requires t < |cs| && cs[t] !in cs[..t] && DistinctIndices(out) && |found| <= 1
    requires forall c :: c in out <==> ChildOf(g, nd, c) && c.parind in cs[..t]
    requires forall c :: c in found <==> ChildOf(g, nd, c) && c.parind == cs[t]
    ensures DistinctIndices(out + found)
    ensures forall c :: c in out + found <==> ChildOf(g, nd, c) && c.parind in cs[..t + 1]
  {
    PrefixStep(cs, t);
    forall i, j | 0 <= i < j < |out + found|
      ensures (out + found)[i].parind != (out + found)[j].parind
    {
      if i < |out| <= j {
        assert out[i] in out && found[j - |out|] in found;
      }
    }
  }

  /** Looking only above the parent index loses no child. */
  lemma ChildIsCandidate(g: Graph, nd: CliqueNode, c: CliqueNode)
    requires g.Valid() && ValidNode(g, nd) && ChildOf(g, nd, c)
    ensures Candidate(g, nd.clique, nd.parind, c.parind)
  {
    var k, i := c.S(), c.parind;
    ParentIsMaximal(g, k, i, nd.S());
    ParentIsSmaller(g, k, i, nd.S(), nd.parind);
    var x :| x in Below(k, i);
    assert x in nd.S() && g.Adj(x, i);
  }

  ghost predicate Candidate(g: Graph, clique: seq<nat>, parind: nat, x: nat) {
    x > parind && x !in clique && exists node :: node in clique && node < x && g.Adj(node, x)
  }

  lemma RootStart(g: Graph, i: nat)
    requires g.Valid() && g.Has(i) && forall x | x in g.adj[i] :: x > i
    ensures FitsAbove(g, Elems([i])) && IsClique(g, {i}) && Elems([i]) == {i}
  {
    forall x: nat | Compatible(g, Elems([i]), x)
      ensures x > i
    {
      assert i in Elems([i]);
      assert g.Adj(i, x);
    }
  }

  lemma RootIsRoot(g: Graph, i: nat, r: seq<nat>)
    requires g.Valid() && g.Has(i) && FitsAbove(g, {i}) && IsClique(g, {i})
    requires Increasing(r) && IsGreedy(g, {i}, Elems(r))
    ensures IsRoot(g, CliqueNode(r, i))
    ensures forall nd | IsRoot(g, nd) && nd.parind == i :: nd == CliqueNode(r, i)
  {
    var k := Elems(r);
    GreedyIsMaximal(g, {i}, k);
    forall x | x in k
      ensures x >= i
    {
      if x != i {
        assert g.Adj(x, i);
        assert Compatible(g, {i}, x);
      }
    }
    assert UpTo(k, i) == {i};
    forall nd | IsRoot(g, nd) && nd.parind == i
      ensures nd == CliqueNode(r, i)
    {
      assert UpTo(nd.S(), i) == Below(nd.S(), i) + {i} == {i};
      GreedyIsUnique(g, {i}, k, nd.S());
      IncreasingUnique(r, nd.clique);
    }
  }

  lemma NoRoot(g: Graph, i: nat, x: nat)
    requires g.Valid() && g.Has(i) && x in g.adj[i] && x <= i
    ensures forall nd | IsRoot(g, nd) :: nd.parind != i
  {
    assert g.Adj(i, x) && g.Adj(x, i);
    forall nd | IsRoot(g, nd)
      ensures nd.parind != i
    {
      if nd.parind == i {
        var k := nd.S();
        assert UpTo(k, i) == Below(k, i) + {i} == {i};
        assert Below(k, x) == {};
        Admits(g, {i}, k, x);
      }
    }
  }
}
