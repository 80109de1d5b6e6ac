/** A finite forest given by parent pointers, and the trees it unfolds into. */
module Family {
  import opened Forest

  /** Nodes are numbered; `parents[x] == |parents|` marks a root, and `rank` grows from
      parent to child. */
  datatype Family = Family(parents: seq<nat>, rank: seq<nat>, bound: nat) {
    function Size(): nat {
      |parents|
    }

    ghost predicate Valid() {
      && |rank| == |parents|
      && forall x: nat | x < Size() :: NodeOk(x)
    }

    ghost predicate NodeOk(x: nat)
      requires x < |rank| == |parents|
    {
      rank[x] < bound && parents[x] <= Size() && (parents[x] < Size() ==> rank[parents[x]] < rank[x])
    }

    /** `a` is `x` or above it. */
    ghost predicate Above(a: nat, x: nat)
      requires Valid() && x < Size()
      decreases rank[x]
    {
      assert NodeOk(x);
      a == x || (parents[x] < Size() && Above(a, parents[x]))
    }

    /** The tree below `a`, and those of its children with numbers below `m`. */
    ghost function TreeOf(a: nat): Tree
      requires Valid() && a < Size()
      decreases bound - rank[a], Size() + 1
    {
      assert NodeOk(a);
      Tree(a, KidTrees(a, Size()))
    }

    ghost function KidTrees(a: nat, m: nat): seq<Tree>
      requires Valid() && a < Size() && m <= Size()
      decreases bound - rank[a], m
    {
      if m == 0 then []
      else
        assert NodeOk(m - 1);
        if parents[m - 1] == a then KidTrees(a, m - 1) + [TreeOf(m - 1)]
      else KidTrees(a, m - 1)
    }

    /** The trees of the roots of rank `r`. */
    ghost function RootTrees(r: nat, m: nat): seq<Tree>
      requires Valid() && m <= Size()
    {
      if m == 0 then []
      else if parents[m - 1] == Size() && rank[m - 1] == r then RootTrees(r, m - 1) + [TreeOf(m - 1)]
      else RootTrees(r, m - 1)
    }

    ghost predicate KidAbove(a: nat, m: nat, x: nat)
      requires Valid() && m <= Size() && x < Size()
    {
      exists c: nat :: c < m && parents[c] == a && Above(c, x)
    }

    lemma AboveRank(a: nat, x: nat)
      requires Valid() && x < Size() && a < Size() && Above(a, x)
      ensures rank[a] <= rank[x] && (rank[a] == rank[x] ==> a == x)
      decreases rank[x]
    {
      assert NodeOk(x);
      if a != x {
        AboveRank(a, parents[x]);
      }
    }

    lemma StepDown(a: nat, x: nat)
      requires Valid() && x < Size() && a < Size() && Above(a, x) && a != x
      ensures KidAbove(a, Size(), x)
      decreases rank[x]
    {
      assert NodeOk(x);
      if parents[x] == a {
        assert Above(x, x);
      } else {
        StepDown(a, parents[x]);
        var c: nat :| c < Size() && parents[c] == a && Above(c, parents[x]);
        assert Above(c, x);
      }
    }

    lemma StepUp(c: nat, x: nat)
      requires Valid() && x < Size() && c < Size() && Above(c, x) && parents[c] < Size()
      ensures Above(parents[c], x) && parents[c] != x
      decreases rank[x]
    {
      assert NodeOk(x) && NodeOk(c);
      AboveRank(c, x);
      if c != x {
        StepUp(c, parents[x]);
      } else {
        assert Above(parents[c], parents[c]);
      }
    }

    /** Of two nodes above `x`, neither above the other, none has the other's parent. */
    lemma OneBranch(c: nat, d: nat, x: nat)
      requires Valid() && x < Size() && c < Size() && d < Size() && parents[c] == parents[d]
      requires Above(c, x) && Above(d, x)
      ensures c == d
      decreases rank[x]
    {
      assert NodeOk(x);
      if c == x && d != x {
        BelowItself(d, x);
      } else if d == x && c != x {
        BelowItself(c, x);
      } else if c != x {
        OneBranch(c, d, parents[x]);
      }
    }

    /** A sibling of `x` is not above it. */
    lemma BelowItself(d: nat, x: nat)
      requires Valid() && x < Size() && d < Size() && Above(d, x) && d != x
      ensures parents[d] != parents[x]
    {
      assert NodeOk(d) && NodeOk(x);
      AboveRank(d, parents[x]);
    }

    lemma CountTree(a: nat, x: nat)
      requires Valid() && a < Size() && x < Size()
      ensures Count(TreeOf(a), x) == if Above(a, x) then 1 else 0
      decreases bound - rank[a], Size() + 1
    {
      CountKids(a, Size(), x);
      if KidAbove(a, Size(), x) {
        var c: nat :| c < Size() && parents[c] == a && Above(c, x);
        StepUp(c, x);
      } else if Above(a, x) && a != x {
        StepDown(a, x);
      }
    }

    lemma CountKids(a: nat, m: nat, x: nat)
      requires Valid() && a < Size() && m <= Size() && x < Size()
      ensures CountAll(KidTrees(a, m), x) == if KidAbove(a, m, x) then 1 else 0
      decreases bound - rank[a], m
    {
      if m > 0 {
        assert NodeOk(m - 1);
        CountKids(a, m - 1, x);
        if parents[m - 1] == a {
          CountTree(m - 1, x);
          CountConcat(KidTrees(a, m - 1), [TreeOf(m - 1)], x);
          OneTree(TreeOf(m - 1), x);
          if KidAbove(a, m - 1, x) {
            var c: nat :| c < m - 1 && parents[c] == a && Above(c, x);
            if Above(m - 1, x) {
              OneBranch(c, m - 1, x);
            }
          }
        }
        KidAboveStep(a, m, x);
      }
    }

    lemma KidAboveStep(a: nat, m: nat, x: nat)
      requires Valid() && 0 < m <= Size() && x < Size()
      ensures KidAbove(a, m, x) <==> KidAbove(a, m - 1, x) || (parents[m - 1] == a && Above(m - 1, x))
    {
    }

    lemma OneTree(t: Tree, x: nat)
      ensures CountAll([t], x) == Count(t, x)
    {
      assert [t][1..] == [];
    }

    /** The root above `x`. */
    lemma RootAbove(x: nat) returns (r: nat)
      requires Valid() && x < Size()
      ensures r < Size() && parents[r] == Size() && Above(r, x)
      decreases rank[x]
    {
      assert NodeOk(x);
      if parents[x] < Size() {
        r := RootAbove(parents[x]);
      } else {
        r := x;
      }
    }

    lemma RootTreesStep(k: nat, m: nat, x: nat)
      requires Valid() && 0 < m <= Size()
      ensures CountAll(RootTrees(k, m), x) == CountAll(RootTrees(k, m - 1), x)
                + if parents[m - 1] == Size() && rank[m - 1] == k then Count(TreeOf(m - 1), x) else 0
    {
      CountConcat(RootTrees(k, m - 1), [TreeOf(m - 1)], x);
      OneTree(TreeOf(m - 1), x);
    }

    lemma CountRootTree(a: nat, x: nat, r: nat)
      requires Valid() && a < Size() && x < Size() && parents[a] == Size()
      requires r < Size() && parents[r] == Size() && Above(r, x)
      ensures Count(TreeOf(a), x) == if a == r then 1 else 0
    {
      CountTree(a, x);
      if Above(a, x) {
        OneBranch(a, r, x);
      }
    }

    /** `x` occurs in the trees of rank `k` exactly if its root `r` is among them. */
    lemma CountRootTrees(k: nat, m: nat, x: nat, r: nat)
      requires Valid() && m <= Size() && x < Size()
      requires r < Size() && parents[r] == Size() && Above(r, x)
      ensures CountAll(RootTrees(k, m), x) == if r < m && rank[r] == k then 1 else 0
      decreases m
    {
      if m > 0 {
        CountRootTrees(k, m - 1, x, r);
        RootTreesStep(k, m, x);
        if parents[m - 1] == Size() {
          CountRootTree(m - 1, x, r);
        }
      }
    }

    ghost function RootsOf(): nat -> seq<Tree>
      requires Valid()
    {
      var f := this;
      (r: nat) => if f.Valid() then f.RootTrees(r, f.Size()) else []
    }

    lemma CountFirstRoots(k: nat, x: nat, r: nat)
      requires Valid() && x < Size() && r < Size() && parents[r] == Size() && Above(r, x)
      ensures CountRoots(RootsOf(), seq(k, i => i), x) == if rank[r] < k then 1 else 0
      decreases k
    {
      if k > 0 {
        var all := seq(k, i => i);
        CountFirstRoots(k - 1, x, r);
        assert all == seq(k - 1, i => i) + [k - 1];
        RootsConcat(RootsOf(), seq(k - 1, i => i), [k - 1], x);
        CountRootTrees(k - 1, Size(), x, r);
        assert [k - 1][1..] == [];
      }
    }

    /** Each node of the family is in exactly one place of the forest. */
    lemma OneEach(x: nat)
      requires Valid() && x < Size()
      ensures CountRoots(RootsOf(), seq(bound, i => i), x) == 1
    {
      var r := RootAbove(x);
      assert NodeOk(r);
      CountFirstRoots(bound, x, r);
    }

    lemma NoStranger(a: nat, x: nat)
      requires Valid() && a < Size() && x >= Size()
      ensures Count(TreeOf(a), x) == 0
      decreases bound - rank[a], Size() + 1
    {
      NoStrangerKid(a, Size(), x);
    }

    lemma NoStrangerKid(a: nat, m: nat, x: nat)
      requires Valid() && a < Size() && m <= Size() && x >= Size()
      ensures CountAll(KidTrees(a, m), x) == 0
      decreases bound - rank[a], m
    {
      if m > 0 {
        assert NodeOk(m - 1);
        NoStrangerKid(a, m - 1, x);
        if parents[m - 1] == a {
          NoStranger(m - 1, x);
          CountConcat(KidTrees(a, m - 1), [TreeOf(m - 1)], x);
          OneTree(TreeOf(m - 1), x);
        }
      }
    }

    lemma NoStrangerRoot(k: nat, m: nat, x: nat)
      requires Valid() && m <= Size() && x >= Size()
      ensures CountAll(RootTrees(k, m), x) == 0
      decreases m
    {
      if m > 0 {
        NoStrangerRoot(k, m - 1, x);
        RootTreesStep(k, m, x);
        NoStranger(m - 1, x);
      }
    }

    /** Nothing else is in the forest. */
    lemma OnlyThese(k: nat, x: nat)
      requires Valid() && x >= Size()
      ensures CountRoots(RootsOf(), seq(k, i => i), x) == 0
      decreases k
    {
      if k > 0 {
        OnlyThese(k - 1, x);
        assert seq(k, i => i) == seq(k - 1, i => i) + [k - 1];
        RootsConcat(RootsOf(), seq(k - 1, i => i), [k - 1], x);
        NoStrangerRoot(k - 1, Size(), x);
        assert [k - 1][1..] == [];
      }
    }

    /** The children of `a` are the tops of its subtrees. */
    lemma KidsAre(a: nat, m: nat)
      requires Valid() && a < Size() && m <= Size()
      ensures forall c: nat :: TreeAmong(KidTrees(a, m), c) <==> c < m && parents[c] == a
      decreases m
    {
      if m > 0 {
        KidsAre(a, m - 1);
        forall c: nat
          ensures TreeAmong(KidTrees(a, m), c) <==> c < m && parents[c] == a
        {
          if parents[m - 1] == a {
            AmongConcat(KidTrees(a, m - 1), [TreeOf(m - 1)], c);
            AmongOne(TreeOf(m - 1), c);
          }
        }
      }
    }

    /** The roots of rank `r` are the tops of its trees. */
    lemma RootsAre(r: nat, m: nat)
      requires Valid() && m <= Size()
      ensures forall c: nat :: TreeAmong(RootTrees(r, m), c) <==> c < m && parents[c] == Size() && rank[c] == r
      decreases m
    {
      if m > 0 {
        RootsAre(r, m - 1);
        forall c: nat
          ensures TreeAmong(RootTrees(r, m), c) <==> c < m && parents[c] == Size() && rank[c] == r
        {
          if parents[m - 1] == Size() && rank[m - 1] == r {
            AmongConcat(RootTrees(r, m - 1), [TreeOf(m - 1)], c);
            AmongOne(TreeOf(m - 1), c);
          }
        }
      }
    }
  }

  ghost predicate TreeAmong(ts: seq<Tree>, c: nat) {
    exists i :: 0 <= i < |ts| && ts[i].id == c
  }

  lemma AmongOne(t: Tree, c: nat)
    ensures TreeAmong([t], c) <==> t.id == c
  {
    assert [t][0] == t;
  }

  lemma AmongConcat(s: seq<Tree>, t: seq<Tree>, c: nat)
    ensures TreeAmong(s + t, c) <==> TreeAmong(s, c) || TreeAmong(t, c)
  {
    if TreeAmong(s, c) {
      var i :| 0 <= i < |s| && s[i].id == c;
      assert (s + t)[i].id == c;
    }
    if TreeAmong(t, c) {
      var i :| 0 <= i < |t| && t[i].id == c;
      assert (s + t)[|s| + i].id == c;
    }
  }
}
