/** The directed forest that an enumerable system describes, as finite trees, and the two
    sequential walks over it (enumerator/sequential.hpp). */
module Forest {

  datatype Tree = Tree(id: nat, kids: seq<Tree>)

  /** How often `x` occurs as an identifier in the tree. */
  ghost function Count(t: Tree, x: nat): nat
    decreases t, 1
  {
    (if t.id == x then 1 else 0) + CountAll(t.kids, x)
  }

  ghost function CountAll(ts: seq<Tree>, x: nat): nat
    decreases ts, 0
  {
    if ts == [] then 0 else Count(ts[0], x) + CountAll(ts[1..], x)
  }

  lemma CountConcat(s: seq<Tree>, t: seq<Tree>, x: nat)
    ensures CountAll(s + t, x) == CountAll(s, x) + CountAll(t, x)
  {
    if s == [] {
      assert s + t == t;
    } else {
      assert (s + t)[1..] == s[1..] + t;
      CountConcat(s[1..], t, x);
    }
  }

  /** Number of nodes: the walks' termination measure. */
  ghost function Size(t: Tree): nat
    decreases t, 1
  {
    1 + SizeAll(t.kids)
  }

  ghost function SizeAll(ts: seq<Tree>): nat
    decreases ts, 0
  {
    if ts == [] then 0 else Size(ts[0]) + SizeAll(ts[1..])
  }

  lemma SizeConcat(s: seq<Tree>, t: seq<Tree>)
    ensures SizeAll(s + t) == SizeAll(s) + SizeAll(t)
  {
    if s == [] {
      assert s + t == t;
    } else {
      assert (s + t)[1..] == s[1..] + t;
      SizeConcat(s[1..], t);
    }
  }

  ghost function CountRoots(rootsOf: nat -> seq<Tree>, rs: seq<nat>, x: nat): nat {
    if rs == [] then 0 else CountAll(rootsOf(rs[0]), x) + CountRoots(rootsOf, rs[1..], x)
  }

  lemma RootsConcat(rootsOf: nat -> seq<Tree>, s: seq<nat>, t: seq<nat>, x: nat)
    ensures CountRoots(rootsOf, s + t, x) == CountRoots(rootsOf, s, x) + CountRoots(rootsOf, t, x)
  {
    if s == [] {
      assert s + t == t;
    } else {
      assert (s + t)[1..] == s[1..] + t;
      RootsConcat(rootsOf, s[1..], t, x);
    }
  }

  /** The stack-driven walk: report on push, expand on pop. */
  method WalkWithStack(rootsOf: nat -> seq<Tree>, maxRoots: nat) returns (reported: seq<nat>)
    ensures forall x: nat :: multiset(reported)[x] == CountRoots(rootsOf, seq(maxRoots, i => i), x)
  {
    reported := [];
    var nodes: seq<Tree> := [];
    ghost var all: seq<nat> := seq(maxRoots, i => i);
    for i := 0 to maxRoots
      invariant nodes == []
      invariant forall x: nat :: multiset(reported)[x] == CountRoots(rootsOf, all[..i], x)
    {
      var ids := Ids(rootsOf(i));
      nodes := rootsOf(i);
      reported := reported + ids;
      assert all[..i + 1] == all[..i] + [i];
      forall x: nat
        ensures CountRoots(rootsOf, all[..i + 1], x) == CountRoots(rootsOf, all[..i], x) + CountAll(rootsOf(i), x)
      {
        RootsConcat(rootsOf, all[..i], [i], x);
      }
      forall x: nat { TopsAndBelow(nodes, x); }
      while nodes != []
        invariant forall x: nat :: multiset(reported)[x] + BelowAll(nodes, x) == CountRoots(rootsOf, all[..i + 1], x)
        decreases SizeAll(nodes)
      {
        var node := nodes[|nodes| - 1];
        assert nodes == nodes[..|nodes| - 1] + [node];
        SizeConcat(nodes[..|nodes| - 1], [node]);
        SizeConcat(nodes[..|nodes| - 1], node.kids);
        forall x: nat { PopKids(nodes, x); }
        var kids := Ids(node.kids);
        reported := reported + kids;
        nodes := nodes[..|nodes| - 1] + node.kids;
      }
    }
    assert all[..maxRoots] == all;
  }

  /** The identifiers of a list of nodes. */
  function Ids(ts: seq<Tree>): (r: seq<nat>)
    ensures |r| == |ts| && forall i | 0 <= i < |ts| :: r[i] == ts[i].id
  {
    seq(|ts|, i requires 0 <= i < |ts| => ts[i].id)
  }

  /** Occurrences strictly below the listed nodes. */
  ghost function BelowAll(ts: seq<Tree>, x: nat): nat {
    if ts == [] then 0 else CountAll(ts[0].kids, x) + BelowAll(ts[1..], x)
  }

  lemma BelowConcat(s: seq<Tree>, t: seq<Tree>, x: nat)
    ensures BelowAll(s + t, x) == BelowAll(s, x) + BelowAll(t, x)
  {
    if s == [] {
      assert s + t == t;
    } else {
      assert (s + t)[1..] == s[1..] + t;
      BelowConcat(s[1..], t, x);
    }
  }

  lemma TopsAndBelow(ts: seq<Tree>, x: nat)
    ensures CountAll(ts, x) == multiset(Ids(ts))[x] + BelowAll(ts, x)
  {
    if ts == [] {
      assert Ids(ts) == [];
    } else {
      var rest := Ids(ts[1..]);
      TopsAndBelow(ts[1..], x);
      assert Ids(ts) == [ts[0].id] + rest;
      assert multiset(Ids(ts)) == multiset{ts[0].id} + multiset(rest);
    }
  }

  lemma PopKids(nodes: seq<Tree>, x: nat)
    requires nodes != []
    ensures var n := |nodes| - 1;
            BelowAll(nodes, x) == multiset(Ids(nodes[n].kids))[x] + BelowAll(nodes[..n] + nodes[n].kids, x)
  {
    var n := |nodes| - 1;
    assert nodes == nodes[..n] + [nodes[n]];
    BelowConcat(nodes[..n], [nodes[n]], x);
    BelowConcat(nodes[..n], nodes[n].kids, x);
    TopsAndBelow(nodes[n].kids, x);
  }

  /** The recursive walk: report, then list the children. */
  method WalkRecursively(rootsOf: nat -> seq<Tree>, maxRoots: nat) returns (reported: seq<nat>)
    ensures forall x: nat :: multiset(reported)[x] == CountRoots(rootsOf, seq(maxRoots, i => i), x)
  {
    reported := [];
    ghost var all: seq<nat> := seq(maxRoots, i => i);
    for i := 0 to maxRoots
      invariant forall x: nat :: multiset(reported)[x] == CountRoots(rootsOf, all[..i], x)
    {
      var below := ListEach(rootsOf(i));
      reported := reported + below;
      assert all[..i + 1] == all[..i] + [i];
      forall x: nat
        ensures CountRoots(rootsOf, all[..i + 1], x) == CountRoots(rootsOf, all[..i], x) + CountAll(rootsOf(i), x)
      {
        RootsConcat(rootsOf, all[..i], [i], x);
      }
    }
    assert all[..maxRoots] == all;
  }

  /** `solution_cb` of the recursive walk. */
  method SolutionCb(node: Tree) returns (reported: seq<nat>)
    ensures forall x: nat :: multiset(reported)[x] == Count(node, x)
    decreases node, 1
  {
    var below := ListEach(node.kids);
    reported := [node.id] + below;
  }

  /** A system's `GetRoot` or `ListChildren`: the callback on each node in turn. */
  method ListEach(ts: seq<Tree>) returns (reported: seq<nat>)
    ensures forall x: nat :: multiset(reported)[x] == CountAll(ts, x)
    decreases ts, 0
  {
    reported := [];
    for i := 0 to |ts|
      invariant forall x: nat :: multiset(reported)[x] == CountAll(ts[..i], x)
    {
      var r := SolutionCb(ts[i]);
      assert ts[..i + 1] == ts[..i] + [ts[i]];
      forall x: nat
        ensures CountAll(ts[..i + 1], x) == CountAll(ts[..i], x) + Count(ts[i], x)
      {
        CountConcat(ts[..i], [ts[i]], x);
      }
      reported := reported + r;
    }
    assert ts[..|ts|] == ts;
  }
}
