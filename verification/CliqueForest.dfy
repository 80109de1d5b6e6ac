/** The clique search under the parallel runners: its forest of nodes, unfolded into trees,
    walked by threads or by distributed workers. */
module CliqueForest {
  import opened Graphs
  import opened CliqueTheory
  import opened CliqueSearch
  import opened Family
  import Forest
  import W = WorkStealing
  import WT = WorkStealingTheorems
  import D = DistributedMpi
  import DT = DistributedMpiTheorems
  import DR = DistributedMpiRuns
  import DO = DistributedMpiOutcome

  ghost function ToSeq<T>(xs: set<T>): seq<T> {
    if xs == {} then []
    else
      var x :| x in xs;
      [x] + ToSeq(xs - {x})
  }

  lemma ToSeqIs<T>(xs: set<T>)
    ensures NoDup(ToSeq(xs)) && (forall x :: x in ToSeq(xs) <==> x in xs) && |ToSeq(xs)| == |xs|
  {
    if xs != {} {
      var s := ToSeq(xs);
      assert s[0] in xs && s == [s[0]] + ToSeq(xs - {s[0]});
      ToSeqIs(xs - {s[0]});
    }
  }

  ghost function Candidates(g: Graph): set<CliqueNode> {
    set k: set<nat>, i: nat | k <= g.Vertices() && i in g.Vertices() :: CliqueNode(Sorted(k, g.Size()), i)
  }

  ghost function NodeSet(g: Graph): set<CliqueNode> {
    set nd | nd in Candidates(g) && ValidNode(g, nd)
  }

  /** All nodes of the clique search, in some order. */
  ghost function Nodes(g: Graph): seq<CliqueNode> {
    ToSeq(NodeSet(g))
  }

  lemma NodesAre(g: Graph)
    requires g.Valid()
    ensures NoDup(Nodes(g)) && forall nd :: nd in Nodes(g) <==> ValidNode(g, nd)
  {
    ToSeqIs(NodeSet(g));
    forall nd | ValidNode(g, nd)
      ensures nd in NodeSet(g)
    {
      SortedAll(g, nd.S());
      IncreasingUnique(nd.clique, Sorted(nd.S(), g.Size()));
    }
  }

  ghost predicate HasNode(g: Graph, k: set<nat>) {
    exists i :: 0 <= i < |Nodes(g)| && Nodes(g)[i].S() == k
  }

  /** Each maximal clique is the clique of exactly one node. */
  ghost predicate NodesMatchCliques(g: Graph) {
    && (forall k: set<nat> :: MaximalClique(g, k) <==> HasNode(g, k))
    && forall i, j | 0 <= i < j < |Nodes(g)| :: Nodes(g)[i].S() != Nodes(g)[j].S()
  }

  lemma NodesAreCliques(g: Graph)
    requires g.Valid()
    ensures NodesMatchCliques(g)
  {
    forall k: set<nat>
      ensures MaximalClique(g, k) <==> HasNode(g, k)
    {
      if MaximalClique(g, k) {
        CliqueHasNode(g, k);
      }
      if HasNode(g, k) {
        NodeIsClique(g, k);
      }
    }
    NodesDiffer(g);
  }

  lemma CliqueHasNode(g: Graph, k: set<nat>)
    requires g.Valid() && MaximalClique(g, k)
    ensures HasNode(g, k)
  {
    NodesAre(g);
    MaximalIff(g, k);
    var i := HasParentIndex(g, k);
    SortedAll(g, k);
    assert ValidNode(g, CliqueNode(Sorted(k, g.Size()), i));
    var j :| 0 <= j < |Nodes(g)| && Nodes(g)[j] == CliqueNode(Sorted(k, g.Size()), i);
  }

  lemma NodeIsClique(g: Graph, k: set<nat>)
    requires g.Valid() && HasNode(g, k)
    ensures MaximalClique(g, k)
  {
    NodesAre(g);
    var i :| 0 <= i < |Nodes(g)| && Nodes(g)[i].S() == k;
    assert Nodes(g)[i] in Nodes(g);
    MaximalIff(g, k);
  }

  lemma NodesDiffer(g: Graph)
    requires g.Valid()
    ensures forall i, j | 0 <= i < j < |Nodes(g)| :: Nodes(g)[i].S() != Nodes(g)[j].S()
  {
    var ns := Nodes(g);
    NodesAre(g);
    forall i, j | 0 <= i < j < |ns|
      ensures ns[i].S() != ns[j].S()
    {
      assert ns[i] in ns && ns[j] in ns;
      if ns[i].S() == ns[j].S() {
        NodeIsUnique(g, ns[i], ns[j]);
      }
    }
  }

  ghost function ParentAt(g: Graph, ns: seq<CliqueNode>, i: nat): (r: nat)
    requires i < |ns|
    ensures r <= |ns|
    ensures if r < |ns| then ChildOf(g, ns[r], ns[i]) else forall p: nat | p < |ns| :: !ChildOf(g, ns[p], ns[i])
  {
    if p: nat :| p < |ns| && ChildOf(g, ns[p], ns[i]) then p else |ns|
  }

  /** The nodes with their parents; the rank of a node is its parent index. */
  ghost function FamilyOf(g: Graph): Family {
    var ns := Nodes(g);
    Family(seq(|ns|, i requires 0 <= i < |ns| => ParentAt(g, ns, i)),
           seq(|ns|, i requires 0 <= i < |ns| => ns[i].parind), g.Size())
  }

  lemma FamilyIsValid(g: Graph)
    requires g.Valid()
    ensures FamilyOf(g).Valid() && FamilyOf(g).Size() == |Nodes(g)|
  {
    var ns, f := Nodes(g), FamilyOf(g);
    NodesAre(g);
    forall x: nat | x < |ns|
      ensures f.NodeOk(x)
    {
      assert ns[x] in ns;
      assert g.Has(ns[x].parind);
      if f.parents[x] < |ns| {
        assert ns[f.parents[x]] in ns;
        ParentIsSmaller(g, ns[x].S(), ns[x].parind, ns[f.parents[x]].S(), ns[f.parents[x]].parind);
      }
    }
  }

  /** The trees that `GetRoot` and `ListChildren` unfold, root by root. */
  ghost function CliqueRoots(g: Graph): nat -> seq<Forest.Tree>
    requires g.Valid()
  {
    FamilyIsValid(g);
    FamilyOf(g).RootsOf()
  }

  lemma ParentIff(g: Graph, a: nat, c: nat)
    requires g.Valid() && a < |Nodes(g)| && c < |Nodes(g)|
    ensures ParentAt(g, Nodes(g), c) == a <==> ChildOf(g, Nodes(g)[a], Nodes(g)[c])
  {
    var ns := Nodes(g);
    var p := ParentAt(g, ns, c);
    NodesAre(g);
    if ChildOf(g, ns[a], ns[c]) {
      assert ns[a] in ns && ns[p] in ns;
      ParentIsUnique(g, ns[a], ns[p], ns[c]);
    }
  }

  lemma RootIff(g: Graph, c: nat)
    requires g.Valid() && c < |Nodes(g)|
    ensures ParentAt(g, Nodes(g), c) == |Nodes(g)| <==> IsRoot(g, Nodes(g)[c])
  {
    NodesAre(g);
    assert Nodes(g)[c] in Nodes(g);
    if !IsRoot(g, Nodes(g)[c]) {
      var p := HasParent(g, Nodes(g)[c]);
      var a :| 0 <= a < |Nodes(g)| && Nodes(g)[a] == p;
      ParentIff(g, a, c);
    }
  }

  /** Parents and roots of the family are those of the search. */
  lemma FamilyIsSearch(g: Graph, c: nat)
    requires g.Valid() && c < |Nodes(g)|
    ensures forall a: nat | a < |Nodes(g)| :: FamilyOf(g).parents[c] == a <==> ChildOf(g, Nodes(g)[a], Nodes(g)[c])
    ensures FamilyOf(g).parents[c] == |Nodes(g)| <==> IsRoot(g, Nodes(g)[c])
  {
    RootIff(g, c);
    forall a: nat | a < |Nodes(g)| { ParentIff(g, a, c); }
  }

  lemma HasParent(g: Graph, nd: CliqueNode) returns (p: CliqueNode)
    requires g.Valid() && ValidNode(g, nd) && !IsRoot(g, nd)
    ensures ValidNode(g, p) && ChildOf(g, p, nd)
  {
    var k, i := nd.S(), nd.parind;
    SubsetIsClique(g, Below(k, i), k);
    CompleteIsGreedy(g, Below(k, i));
    var s := Complete(g, Below(k, i), 0);
    ParentIsMaximal(g, k, i, s);
    var j := HasParentIndex(g, s);
    SortedAll(g, s);
    p := CliqueNode(Sorted(s, g.Size()), j);
  }

  /** The trees given to the runners have, below each node, exactly the children that
      `ListChildren` emits, and at the top exactly what `GetRoot` emits. */
  lemma ForestIsSearch(g: Graph, a: nat, r: nat, c: nat)
    requires g.Valid() && a < |Nodes(g)|
    ensures FamilyOf(g).Valid() && FamilyOf(g).Size() == |Nodes(g)|
    ensures TreeAmong(FamilyOf(g).TreeOf(a).kids, c) <==> c < |Nodes(g)| && ChildOf(g, Nodes(g)[a], Nodes(g)[c])
    ensures TreeAmong(CliqueRoots(g)(r), c) <==>
              c < |Nodes(g)| && IsRoot(g, Nodes(g)[c]) && Nodes(g)[c].parind == r
  {
    var f := FamilyOf(g);
    FamilyIsValid(g);
    f.KidsAre(a, f.Size());
    f.RootsAre(r, f.Size());
    if c < |Nodes(g)| {
      FamilyIsSearch(g, c);
    }
  }

  /** How often each number occurs in the forest: the nodes once, nothing else. */
  lemma ForestCounts(g: Graph, x: nat)
    requires g.Valid()
    ensures Forest.CountRoots(CliqueRoots(g), seq(g.Size(), i => i), x) == if x < |Nodes(g)| then 1 else 0
  {
    FamilyIsValid(g);
    if x < |Nodes(g)| {
      FamilyOf(g).OneEach(x);
    } else {
      FamilyOf(g).OnlyThese(g.Size(), x);
    }
  }

  /** In every interleaving of any number of threads a finished run reports each node, that
      is, each maximal clique, exactly once. */
  lemma CliquesInParallel(g: Graph, c: W.Config, s: W.State, steps: seq<(nat, W.Action)>)
    requires g.Valid() && c.n >= 1 && !c.distributed
    requires c.rootsOf == CliqueRoots(g) && c.initial == seq(g.Size(), i => i)
    requires W.Reaches(c, s, steps) && WT.AllDone(s)
    ensures forall x: nat :: s.reported[x] == if x < |Nodes(g)| then 1 else 0
    ensures NodesMatchCliques(g)
  {
    WT.EveryNodeOnce(c, s, steps);
    forall x: nat
      ensures s.reported[x] == if x < |Nodes(g)| then 1 else 0
    {
      ForestCounts(g, x);
    }
    NodesAreCliques(g);
  }

  /** The clique system as distributed, with the clamped number of roots per range. */
  ghost predicate CliqueConfig(g: Graph, c: D.Config, rootsPerNode: nat)
    requires g.Valid()
  {
    && c.n > 0 && rootsPerNode > 0 && c.perGrant == DT.Clamped(rootsPerNode, c.maxRoots, c.n)
    && c.rootsOf == CliqueRoots(g) && c.maxRoots == g.Size() && forall x: nat :: c.isItem(x)
  }

  /** With at least as many vertices as workers, and assertions or a single worker, a finished
      run has reported each maximal clique once and returns their number. */
  lemma CliquesDistributed(g: Graph, c: D.Config, rootsPerNode: nat, s: D.State, steps: seq<(nat, D.Action)>)
    requires g.Valid() && CliqueConfig(g, c, rootsPerNode) && c.n <= g.Size() && (c.asserts || c.n == 1)
    requires D.Reaches(c, s, steps) && s.pc.Finished?
    ensures forall x: nat :: s.reported[x] == if x < |Nodes(g)| then 1 else 0
    ensures s.total == |Nodes(g)|
    ensures NodesMatchCliques(g)
  {
    DO.CompleteIfEnoughRoots(c, rootsPerNode, s, steps);
    assert DT.Complete(c, s);
    forall x: nat
      ensures s.reported[x] == multiset(s.solutions)[x] == if x < |Nodes(g)| then 1 else 0
    {
      AllRoots(c, g.Size(), x);
      ForestCounts(g, x);
    }
    EachOnce(s.solutions, |Nodes(g)|);
    NodesAreCliques(g);
  }

  /** With two or more workers and no assertions, every graph has a run that reports each
      maximal clique twice; with at least as many vertices as workers the master has finished. */
  lemma CliquesTwice(g: Graph, c: D.Config, rootsPerNode: nat) returns (s: D.State, steps: seq<(nat, D.Action)>)
    requires g.Valid() && CliqueConfig(g, c, rootsPerNode) && c.n >= 2 && !c.asserts
    ensures D.Reaches(c, s, steps) && (c.n <= g.Size() ==> s.pc.Finished?)
    ensures forall x: nat :: s.reported[x] == if x < |Nodes(g)| then 2 else 0
  {
    DT.ClampedIsPositive(rootsPerNode, c.maxRoots, c.n);
    s, steps := DR.TwiceRun(c);
    forall x: nat
      ensures s.reported[x] == if x < |Nodes(g)| then 2 else 0
    {
      AllRoots(c, g.Size(), x);
      ForestCounts(g, x);
    }
  }

  lemma AllRoots(c: D.Config, n: nat, x: nat)
    ensures DT.RootsWeight(c, n, x) == Forest.CountRoots(c.rootsOf, seq(n, i => i), x)
  {
    assert D.Interval(0, n) == seq(n, i => i);
  }

  /** A list with each number below `n` once and no other has `n` entries. */
  lemma EachOnce(xs: seq<nat>, n: nat)
    requires forall x: nat :: multiset(xs)[x] == if x < n then 1 else 0
    ensures |xs| == n
  {
    var upto := seq(n, i => i);
    NoDupIsMultiset(upto);
    assert NoDup(upto);
    forall x: nat
      ensures multiset(xs)[x] == multiset(upto)[x]
    {
      assert x < n ==> upto[x] == x;
      assert x in upto <==> x < n;
      assert x in multiset(upto) <==> x in upto;
    }
    assert multiset(xs) == multiset(upto);
    assert |multiset(xs)| == |xs| && |multiset(upto)| == n;
  }
}
