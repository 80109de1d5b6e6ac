/** Reverse search for maximal cliques: greedy completion, parent index, parent. */
module CliqueTheory {
  import opened Graphs

  ghost predicate IsClique(g: Graph, s: set<nat>) {
    s <= g.Vertices() && forall u, v | u in s && v in s && u != v :: g.Adj(u, v)
  }

  /** A clique that no larger clique contains. */
  ghost predicate MaximalClique(g: Graph, s: set<nat>) {
    s != {} && IsClique(g, s) && forall t: set<nat> | s < t :: !IsClique(g, t)
  }

  /** The same with single vertices; `MaximalIff` connects the two. */
  ghost predicate Maximal(g: Graph, s: set<nat>) {
    s != {} && IsClique(g, s) && forall x: nat | g.Has(x) && x !in s :: !Compatible(g, s, x)
  }

  ghost predicate Compatible(g: Graph, s: set<nat>, x: nat) {
    g.Has(x) && forall y | y in s :: g.Adj(x, y)
  }

  ghost function Below(s: set<nat>, i: nat): set<nat> {
    set x | x in s && x < i
  }

  ghost function UpTo(s: set<nat>, i: nat): set<nat> {
    set x | x in s && x <= i
  }

  /** Smallest-first greedy completion: scan the vertices from `from` upwards. */
  ghost function Complete(g: Graph, a: set<nat>, from: nat): set<nat>
    decreases g.Size() - from
  {
    if from >= g.Size() then a
    else Complete(g, if Compatible(g, a, from) then a + {from} else a, from + 1)
  }

  /** `k` is the greedy completion of `a`: beyond `a` it holds exactly the vertices that
      fit `a` and everything smaller in `k`. */
  ghost predicate IsGreedy(g: Graph, a: set<nat>, k: set<nat>) {
    && a <= k <= g.Vertices()
    && forall x: nat | g.Has(x) && x !in a :: x in k <==> Compatible(g, a + Below(k, x), x)
  }

  lemma Admits(g: Graph, a: set<nat>, k: set<nat>, x: nat)
    requires g.Valid() && IsGreedy(g, a, k)
    ensures Compatible(g, a, x) && Compatible(g, Below(k, x), x) ==> x in k && x !in a
  {
    assert Compatible(g, a, x) && Compatible(g, Below(k, x), x) ==> Compatible(g, a + Below(k, x), x);
  }

  lemma CompleteStep(g: Graph, a: set<nat>, cur: set<nat>, from: nat)
    requires a <= cur <= g.Vertices()
    requires forall x | x in cur :: x in a || x < from
    requires forall x: nat | g.Has(x) && x !in a && x < from :: x in cur <==> Compatible(g, a + Below(cur, x), x)
    ensures IsGreedy(g, a, Complete(g, cur, from))
    decreases g.Size() - from
  {
    if from < g.Size() {
      assert a + Below(cur, from) == cur;
      var next := if Compatible(g, cur, from) then cur + {from} else cur;
      forall x: nat | x < from + 1
        ensures Below(next, x) == Below(cur, x)
      {
      }
      if from in a && from in cur {
        assert next == cur + {from} || next == cur;
      }
      CompleteStep(g, a, next, from + 1);
    }
  }

  lemma CompleteIsGreedy(g: Graph, a: set<nat>)
    requires a <= g.Vertices()
    ensures IsGreedy(g, a, Complete(g, a, 0))
  {
    CompleteStep(g, a, a, 0);
  }

  lemma GreedyAgree(g: Graph, a: set<nat>, k: set<nat>, l: set<nat>, n: nat)
    requires IsGreedy(g, a, k) && IsGreedy(g, a, l)
    ensures Below(k, n) == Below(l, n)
  {
    if n > 0 {
      GreedyAgree(g, a, k, l, n - 1);
      var x := n - 1;
      assert Below(k, n) == Below(k, x) + (if x in k then {x} else {});
      assert Below(l, n) == Below(l, x) + (if x in l then {x} else {});
      if x !in a && g.Has(x) {
        assert x in k <==> Compatible(g, a + Below(k, x), x);
      }
    }
  }

  lemma GreedyIsUnique(g: Graph, a: set<nat>, k: set<nat>, l: set<nat>)
    requires IsGreedy(g, a, k) && IsGreedy(g, a, l)
    ensures k == l
  {
    GreedyAgree(g, a, k, l, g.Size());
    assert k == Below(k, g.Size()) by {
      assert forall x | x in k :: g.Has(x);
    }
    assert l == Below(l, g.Size()) by {
      assert forall x | x in l :: g.Has(x);
    }
  }

  lemma GreedyIsMaximal(g: Graph, a: set<nat>, k: set<nat>)
    requires g.Valid() && IsClique(g, a) && a != {} && IsGreedy(g, a, k)
    ensures Maximal(g, k)
  {
    forall u, v | u in k && v in k && u != v
      ensures g.Adj(u, v)
    {
      assert g.Has(u) && g.Has(v);
      if u !in a && (v in a || v < u) {
        assert Compatible(g, a + Below(k, u), u);
        assert v in a + Below(k, u);
      } else if v !in a {
        assert Compatible(g, a + Below(k, v), v);
        assert u in a + Below(k, v);
        assert g.Adj(v, u);
      }
    }
    forall x: nat | g.Has(x) && x !in k
      ensures !Compatible(g, k, x)
    {
      assert !Compatible(g, a + Below(k, x), x);
      assert a + Below(k, x) <= k;
    }
  }

  lemma MaximalIff(g: Graph, k: set<nat>)
    requires g.Valid()
    ensures Maximal(g, k) <==> MaximalClique(g, k)
  {
    if MaximalClique(g, k) {
      forall x: nat | g.Has(x) && x !in k
        ensures !Compatible(g, k, x)
      {
        assert k < k + {x};
        assert Compatible(g, k, x) ==> forall y | y in k :: g.Adj(x, y) && g.Adj(y, x);
      }
    }
    if Maximal(g, k) {
      forall t: set<nat> | k < t
        ensures !IsClique(g, t)
      {
        ProperHasExtra(k, t);
        var x :| x in t - k;
        assert g.Has(x) ==> !Compatible(g, k, x);
      }
    }
  }

  /** Growing the start inside the completion does not change the completion. */
  lemma GreedyGrows(g: Graph, a: set<nat>, b: set<nat>, k: set<nat>)
    requires g.Valid() && IsClique(g, k) && IsGreedy(g, a, k) && a <= b <= k
    ensures IsGreedy(g, b, k)
  {
    forall x: nat | g.Has(x) && x !in b
      ensures x in k <==> Compatible(g, b + Below(k, x), x)
    {
      if x in k {
        assert forall y | y in b + Below(k, x) :: y in k && y != x;
      } else {
        assert !Compatible(g, a + Below(k, x), x);
        assert a + Below(k, x) <= b + Below(k, x);
      }
    }
  }

  lemma WholeIsGreedy(g: Graph, k: set<nat>)
    requires g.Valid() && Maximal(g, k)
    ensures IsGreedy(g, k, k)
  {
    forall x: nat | g.Has(x) && x !in k
      ensures !Compatible(g, k + Below(k, x), x)
    {
      assert k + Below(k, x) == k;
    }
  }

  /** `i` is the parent index of `k`: the least member from which completion gives `k`. */
  ghost predicate ParentIndex(g: Graph, k: set<nat>, i: nat) {
    i in k && IsGreedy(g, UpTo(k, i), k) && !(Below(k, i) != {} && IsGreedy(g, Below(k, i), k))
  }

  /** `p` is the parent of `k`, whose parent index is `i`. */
  ghost predicate IsParent(g: Graph, p: set<nat>, k: set<nat>, i: nat) {
    Below(k, i) != {} && IsGreedy(g, Below(k, i), p)
  }

  lemma SubsetIsClique(g: Graph, s: set<nat>, t: set<nat>)
    requires IsClique(g, t) && s <= t
    ensures IsClique(g, s)
  {
  }

  /** The literal reading of "least": smaller members do not complete to `k`, larger ones do. */
  lemma ParentIndexIsLeast(g: Graph, k: set<nat>, i: nat, j: nat)
    requires g.Valid() && Maximal(g, k) && ParentIndex(g, k, i) && j in k
    ensures IsGreedy(g, UpTo(k, j), k) <==> i <= j
  {
    if i <= j {
      GreedyGrows(g, UpTo(k, i), UpTo(k, j), k);
    } else if IsGreedy(g, UpTo(k, j), k) {
      assert j in Below(k, i);
      GreedyGrows(g, UpTo(k, j), Below(k, i), k);
      assert false;
    }
  }

  lemma ParentIndexIsUnique(g: Graph, k: set<nat>, i: nat, j: nat)
    requires g.Valid() && Maximal(g, k) && ParentIndex(g, k, i) && ParentIndex(g, k, j)
    ensures i == j
  {
    ParentIndexIsLeast(g, k, i, j);
    ParentIndexIsLeast(g, k, j, i);
  }

  lemma FindParentIndex(g: Graph, k: set<nat>, n: nat) returns (i: nat)
    requires Below(k, n) != {} && IsGreedy(g, Below(k, n), k)
    ensures ParentIndex(g, k, i)
  {
    if n == 0 {
      var x :| x in Below(k, n);
    }
    i := n - 1;
    if i !in k {
      assert Below(k, i) == Below(k, n);
      i := FindParentIndex(g, k, i);
    } else {
      assert UpTo(k, i) == Below(k, n);
      if Below(k, i) != {} && IsGreedy(g, Below(k, i), k) {
        i := FindParentIndex(g, k, i);
      }
    }
  }

  lemma HasParentIndex(g: Graph, k: set<nat>) returns (i: nat)
    requires g.Valid() && Maximal(g, k)
    ensures ParentIndex(g, k, i)
  {
    WholeIsGreedy(g, k);
    assert Below(k, g.Size()) == k by {
      assert forall x | x in k :: g.Has(x);
    }
    i := FindParentIndex(g, k, g.Size());
  }

  lemma UpToSplits(k: set<nat>, i: nat)
    requires i in k
    ensures UpTo(k, i) == Below(k, i) + {i}
  {
  }

  /** Completing the part of `k` below its parent index gives a maximal clique without it. */
  lemma ParentIsMaximal(g: Graph, k: set<nat>, i: nat, p: set<nat>)
    requires g.Valid() && Maximal(g, k) && ParentIndex(g, k, i) && IsParent(g, p, k, i)
    ensures Maximal(g, p) && p != k && i !in p
  {
    SubsetIsClique(g, Below(k, i), k);
    GreedyIsMaximal(g, Below(k, i), p);
    if i in p {
      IndexLeavesParent(g, k, i, p);
    }
  }

  lemma IndexLeavesParent(g: Graph, k: set<nat>, i: nat, p: set<nat>)
    requires g.Valid() && IsClique(g, p) && i in k && i in p
    requires IsGreedy(g, UpTo(k, i), k) && IsGreedy(g, Below(k, i), p)
    ensures p == k
  {
    assert UpTo(k, i) == Below(k, i) + {i};
    GreedyGrows(g, Below(k, i), UpTo(k, i), p);
    GreedyIsUnique(g, UpTo(k, i), p, k);
  }

  /** The parent index strictly grows from parent to child. */
  lemma ParentIsSmaller(g: Graph, k: set<nat>, i: nat, p: set<nat>, j: nat)
    requires g.Valid() && Maximal(g, p) && IsParent(g, p, k, i) && ParentIndex(g, p, j)
    ensures j < i
  {
    var x :| x in Below(k, i);
    if j >= i {
      assert Below(k, i) <= Below(p, j);
      assert x in Below(p, j);
      GreedyGrows(g, Below(k, i), Below(p, j), p);
    }
  }

  /** The members of `p` below `i` that are next to `i`. */
  ghost function Core(g: Graph, p: set<nat>, i: nat): set<nat> {
    set u | u in p && u < i && g.Adj(i, u)
  }

  /** `x` fits every member of `p` below it without being a member. */
  ghost predicate Bad(g: Graph, p: set<nat>, x: nat) {
    x !in p && Compatible(g, Below(p, x), x)
  }

  /** The test on a candidate `i`: some common neighbour `x` of the core lies below the
      whole clique, or fits `i` and lies below it, or is bad. `front` is the least member. */
  ghost predicate Spoils(g: Graph, p: set<nat>, front: nat, i: nat, x: nat) {
    Compatible(g, Core(g, p, i), x) && (x < front || (x <= i && g.Adj(x, i)) || (x > front && Bad(g, p, x)))
  }

  ghost predicate Passes(g: Graph, p: set<nat>, front: nat, i: nat) {
    Core(g, p, i) != {} && forall x :: !Spoils(g, p, front, i, x)
  }

  ghost predicate IsFront(p: set<nat>, f: nat) {
    f in p && forall x | x in p :: f <= x
  }

  /** The core of a child's index is what the child keeps of its parent. */
  lemma ChildCore(g: Graph, p: set<nat>, k: set<nat>, i: nat)
    requires g.Valid() && Maximal(g, k) && ParentIndex(g, k, i) && IsParent(g, p, k, i)
    requires IsClique(g, p)
    ensures Core(g, p, i) == Below(k, i)
  {
    assert Below(k, i) <= Core(g, p, i);
    CoreInside(g, p, k, i, i);
  }

  lemma CoreInside(g: Graph, p: set<nat>, k: set<nat>, i: nat, n: nat)
    requires g.Valid() && i in k && IsGreedy(g, UpTo(k, i), k) && IsClique(g, p) && Below(k, i) <= p && n <= i
    ensures Below(Core(g, p, i), n) <= k
  {
    if n > 0 {
      CoreInside(g, p, k, i, n - 1);
      var x := n - 1;
      if x in Core(g, p, i) {
        CoreMember(g, p, k, i, x);
      }
    }
  }

  lemma CoreMember(g: Graph, p: set<nat>, k: set<nat>, i: nat, x: nat)
    requires g.Valid() && i in k && IsGreedy(g, UpTo(k, i), k) && IsClique(g, p) && Below(k, i) <= p
    requires x in Core(g, p, i)
    ensures x in k
  {
    assert g.Has(x) && g.Adj(x, i);
    assert UpTo(k, i) + Below(k, x) == Below(k, i) + {i};
    assert x !in Below(k, i) ==> Compatible(g, UpTo(k, i) + Below(k, x), x);
  }

  /** Every child passes the test. */
  lemma ChildPasses(g: Graph, p: set<nat>, front: nat, k: set<nat>, i: nat)
    requires g.Valid() && Maximal(g, k) && ParentIndex(g, k, i) && IsParent(g, p, k, i)
    requires IsClique(g, p) && IsFront(p, front)
    ensures Passes(g, p, front, i) && Core(g, p, i) == Below(k, i)
  {
    ChildCore(g, p, k, i);
    forall x
      ensures !Spoils(g, p, front, i, x)
    {
      NotSpoiled(g, p, front, k, i, x);
    }
  }

  lemma NotSpoiled(g: Graph, p: set<nat>, front: nat, k: set<nat>, i: nat, x: nat)
    requires g.Valid() && i in k && IsGreedy(g, UpTo(k, i), k) && IsGreedy(g, Below(k, i), p)
    requires IsFront(p, front) && Core(g, p, i) == Below(k, i)
    ensures !Spoils(g, p, front, i, x)
  {
    if Compatible(g, Below(k, i), x) {
      NotBelowFront(g, p, front, k, i, x);
      NotBad(g, p, k, i, x);
      if x <= i && g.Adj(x, i) {
        FitsBelow(g, k, i, x);
      }
    }
  }

  lemma NotBelowFront(g: Graph, p: set<nat>, front: nat, k: set<nat>, i: nat, x: nat)
    requires g.Valid() && IsGreedy(g, Below(k, i), p) && IsFront(p, front) && Compatible(g, Below(k, i), x)
    ensures front <= x
  {
    assert x < front ==> Below(p, x) == {};
    Admits(g, Below(k, i), p, x);
  }

  lemma NotBad(g: Graph, p: set<nat>, k: set<nat>, i: nat, x: nat)
    requires g.Valid() && IsGreedy(g, Below(k, i), p) && Compatible(g, Below(k, i), x)
    ensures !Bad(g, p, x)
  {
    Admits(g, Below(k, i), p, x);
  }

  lemma FitsBelow(g: Graph, k: set<nat>, i: nat, x: nat)
    requires g.Valid() && i in k && IsGreedy(g, UpTo(k, i), k) && x <= i && g.Adj(x, i)
    ensures !Compatible(g, Below(k, i), x)
  {
    assert UpTo(k, i) == Below(k, i) + {i};
    assert Compatible(g, Below(k, i), x) ==> Compatible(g, UpTo(k, i), x);
    assert Below(k, x) <= UpTo(k, i);
    Admits(g, UpTo(k, i), k, x);
  }

  /** A candidate that passes yields a clique whose parent is `p`. */
  lemma PassingIsChild(g: Graph, p: set<nat>, front: nat, i: nat, k: set<nat>)
    requires g.Valid() && Maximal(g, p) && IsFront(p, front) && g.Has(i) && i !in p
    requires Passes(g, p, front, i) && IsGreedy(g, Core(g, p, i) + {i}, k)
    ensures Maximal(g, k) && UpTo(k, i) == Core(g, p, i) + {i} && Below(k, i) == Core(g, p, i)
    ensures ParentIndex(g, k, i) && IsParent(g, p, k, i)
  {
    var core := Core(g, p, i);
    PassingCore(g, p, i);
    GreedyIsMaximal(g, core + {i}, k);
    forall x | x in k && x <= i
      ensures x in core + {i}
    {
      assert !Spoils(g, p, front, i, x);
      assert i in core + {i} + Below(k, x) && core <= core + {i} + Below(k, x);
    }
    assert UpTo(k, i) == core + {i};
    assert Below(k, i) == core;
    PassingParent(g, p, front, i);
    if IsGreedy(g, core, k) {
      GreedyIsUnique(g, core, p, k);
    }
  }

  lemma PassingCore(g: Graph, p: set<nat>, i: nat)
    requires g.Valid() && IsClique(g, p) && g.Has(i)
    ensures IsClique(g, Core(g, p, i) + {i})
  {
    forall u, v | u in Core(g, p, i) + {i} && v in Core(g, p, i) + {i} && u != v
      ensures g.Adj(u, v)
    {
      if u == i {
        assert g.Adj(i, v);
      } else if v == i {
        assert g.Adj(i, u);
      }
    }
  }

  lemma PassingParent(g: Graph, p: set<nat>, front: nat, i: nat)
    requires g.Valid() && Maximal(g, p) && IsFront(p, front) && Passes(g, p, front, i)
    ensures IsGreedy(g, Core(g, p, i), p)
  {
    var core := Core(g, p, i);
    forall x: nat | g.Has(x) && x !in core
      ensures x in p <==> Compatible(g, core + Below(p, x), x)
    {
      if x in p {
        assert forall y | y in core + Below(p, x) :: y in p && y != x;
      } else {
        assert !Spoils(g, p, front, i, x);
        if Compatible(g, core + Below(p, x), x) {
          assert Compatible(g, core, x);
          assert Compatible(g, Below(p, x), x);
        }
      }
    }
  }
}
