/** Simple undirected graphs as the enumerators see them (util/graph.hpp): one
    strictly increasing adjacency list for each vertex, symmetric, no loops. */
module Graphs {

  ghost predicate Increasing(s: seq<nat>) {
    forall i, j | 0 <= i < j < |s| :: s[i] < s[j]
  }

  ghost predicate NoDup<T>(s: seq<T>) {
    forall i, j | 0 <= i < j < |s| :: s[i] != s[j]
  }

  ghost function Elems<T>(s: seq<T>): set<T> {
    set x | x in s
  }

  datatype Graph = Graph(adj: seq<seq<nat>>) {

    function Size(): nat {
      |adj|
    }

    /** `are_neighs` */
    predicate Adj(u: nat, v: nat) {
      u < |adj| && v in adj[u]
    }

    ghost predicate Valid() {
      && (forall u | 0 <= u < |adj| :: Increasing(adj[u]))
      && (forall u: nat, v: nat | Adj(u, v) :: v < |adj| && v != u)
      && (forall u: nat, v: nat | Adj(u, v) :: Adj(v, u))
    }

    predicate Has(u: nat) {
      u < |adj|
    }

    ghost function Vertices(): set<nat> {
      set u: nat | u < |adj| && Has(u)
    }
  }

  /** The tail of the increasing list `s` that lies above `v` (`upper_bound`). */
  function Above(s: seq<nat>, v: nat): (r: seq<nat>)
    requires Increasing(s)
    ensures Increasing(r)
    ensures forall x :: x in r <==> x in s && x > v
  {
    if s == [] then []
    else if s[0] > v then s
    else
      assert s == [s[0]] + s[1..];
      Above(s[1..], v)
  }

  /** `fwd_neighs`: the neighbours of `v` numbered above it. */
  function FwdNeighs(g: Graph, v: nat): (r: seq<nat>)
    requires g.Valid() && v < g.Size()
    ensures Increasing(r)
    ensures forall x: nat :: x in r <==> g.Adj(v, x) && x > v
  {
    Above(g.adj[v], v)
  }

  lemma IncreasingAppend(s: seq<nat>, e: nat)
    requires Increasing(s) && forall x | x in s :: x < e
    ensures Increasing(s + [e])
  {
    forall i | 0 <= i < |s|
      ensures s[i] < e
    {
      assert s[i] in s;
    }
  }

  lemma IncreasingPrefix(s: seq<nat>, t: nat)
    requires Increasing(s) && t < |s|
    ensures forall x | x in s[..t] :: x < s[t]
    ensures s[..t + 1] == s[..t] + [s[t]]
  {
  }

  lemma PrefixStep<T>(s: seq<T>, t: nat)
    requires t < |s|
    ensures s[..t + 1] == s[..t] + [s[t]]
  {
  }

  lemma WholePrefix<T>(s: seq<T>)
    ensures s[..|s|] == s
  {
  }

  lemma IncreasingIsNoDup(s: seq<nat>)
    requires Increasing(s)
    ensures NoDup(s)
  {
  }

  lemma NoDupCardinality<T>(s: seq<T>)
    requires NoDup(s)
    ensures |Elems(s)| == |s|
  {
    if s == [] {
      assert Elems(s) == {};
    } else {
      var n := |s| - 1;
      NoDupCardinality(s[..n]);
      assert s == s[..n] + [s[n]];
      assert Elems(s) == Elems(s[..n]) + {s[n]};
    }
  }

  lemma SubsetCardinality<T>(a: set<T>, b: set<T>)
    requires a <= b
    ensures |a| <= |b|
    ensures |a| == |b| ==> a == b
  {
    assert b == a + (b - a);
    if a != b {
      var x :| x in b - a;
      assert |b - a| >= 1;
    }
  }

  lemma ProperHasExtra<T>(a: set<T>, b: set<T>)
    requires a < b
    ensures exists x :: x in b - a
  {
    assert !(b <= a);
    var x :| x in b && x !in a;
    assert x in b - a;
  }

  lemma NoDupIsMultiset<T>(s: seq<T>)
    ensures NoDup(s) <==> forall x | x in s :: multiset(s)[x] == 1
  {
    if s != [] {
      var n := |s| - 1;
      var t := s[..n];
      NoDupIsMultiset(t);
      assert s == t + [s[n]];
      if NoDup(s) {
        assert s[n] !in t;
      }
      if forall x | x in s :: multiset(s)[x] == 1 {
        assert multiset(s)[s[n]] == multiset(t)[s[n]] + 1;
        forall x | x in t
          ensures multiset(t)[x] == 1
        {
          assert x in s;
        }
      }
    }
  }

  lemma SameMultiset<T>(s: seq<T>, t: seq<T>)
    requires multiset(s) == multiset(t)
    ensures NoDup(s) <==> NoDup(t)
    ensures forall x :: x in s <==> x in t
  {
    NoDupIsMultiset(s);
    NoDupIsMultiset(t);
    forall x
      ensures x in s <==> x in t
    {
      assert x in multiset(s) <==> x in multiset(t);
    }
  }

  lemma NoDupConcat<T>(s: seq<T>, t: seq<T>)
    requires NoDup(s) && NoDup(t) && forall x | x in t :: x !in s
    ensures NoDup(s + t)
  {
    forall i, j | 0 <= i < j < |s + t|
      ensures (s + t)[i] != (s + t)[j]
    {
      if i < |s| <= j {
        assert t[j - |s|] in t;
      }
    }
  }
}
