/** k-plexes of a graph: every member misses at most `k` members, itself included. */
module KplexTheory {
  import opened Graphs

  ghost function Non(g: Graph, s: set<nat>, v: nat): set<nat> {
    set u | u in s && !g.Adj(v, u)
  }

  ghost predicate IsKplex(g: Graph, k: nat, s: set<nat>) {
    s <= g.Vertices() && forall v | v in s :: |Non(g, s, v)| <= k
  }

  ghost predicate Addable(g: Graph, k: nat, s: set<nat>, w: nat) {
    w !in s && IsKplex(g, k, s + {w})
  }

  ghost predicate Touches(g: Graph, s: set<nat>, w: nat) {
    exists x :: x in s && g.Adj(w, x)
  }

  ghost predicate Linked(g: Graph, s: set<nat>, u: nat, v: nat) {
    exists x :: x in s && g.Adj(u, x) && g.Adj(v, x)
  }

  /** Diameter at most two inside `s`. */
  ghost predicate DiamTwo(g: Graph, s: set<nat>) {
    forall u, v | u in s && v in s && u != v :: g.Adj(u, v) || Linked(g, s, u, v)
  }

  ghost predicate MaximalKplex(g: Graph, k: nat, m: set<nat>) {
    IsKplex(g, k, m) && forall t: set<nat> | m < t :: !IsKplex(g, k, t)
  }

  ghost predicate DiamTwoKplex(g: Graph, k: nat, m: set<nat>) {
    m != {} && IsKplex(g, k, m) && DiamTwo(g, m)
  }

  /** A k-plex of diameter at most two that no larger such k-plex contains. */
  ghost predicate MaximalDiamTwoKplex(g: Graph, k: nat, m: set<nat>) {
    DiamTwoKplex(g, k, m) && forall t: set<nat> | m < t :: !DiamTwoKplex(g, k, t)
  }

  /** What the search decides locally: no vertex that extends `m` is seen from `m`;
      from `k` members on, no vertex extends `m` at all. */
  ghost predicate Closed(g: Graph, k: nat, m: set<nat>) {
    forall w | Addable(g, k, m, w) :: |m| < k && !Touches(g, m, w)
  }

  ghost predicate Target(g: Graph, k: nat, m: set<nat>) {
    DiamTwoKplex(g, k, m) && Closed(g, k, m)
  }

  /** No vertex of the block of `v`, and none below `v`, is seen to extend `m`. */
  ghost predicate Blocked(g: Graph, k: nat, block: set<nat>, v: nat, m: set<nat>) {
    forall w: nat | Addable(g, k, m, w) && (w in block || w < v) :: |m| < k && !Touches(g, m, w)
  }

  /** What the search finds within a block: the final test rejects single vertices from
      `k = 3` on. */
  ghost predicate Local(g: Graph, k: nat, block: set<nat>, v: nat, m: set<nat>) {
    DiamTwoKplex(g, k, m) && (k <= 2 || |m| >= 2) && Blocked(g, k, block, v, m)
  }

  lemma NonExtend(g: Graph, s: set<nat>, x: nat, y: nat)
    requires x !in s
    ensures |Non(g, s + {x}, y)| == |Non(g, s, y)| + (if g.Adj(y, x) then 0 else 1)
  {
    if g.Adj(y, x) {
      assert Non(g, s + {x}, y) == Non(g, s, y);
    } else {
      assert Non(g, s + {x}, y) == Non(g, s, y) + {x};
    }
  }

  lemma NonMonotone(g: Graph, s: set<nat>, t: set<nat>, y: nat)
    requires s <= t
    ensures |Non(g, s, y)| <= |Non(g, t, y)|
  {
    SubsetCardinality(Non(g, s, y), Non(g, t, y));
  }

  lemma Hereditary(g: Graph, k: nat, s: set<nat>, t: set<nat>)
    requires s <= t && IsKplex(g, k, t)
    ensures IsKplex(g, k, s)
  {
    forall v | v in s
      ensures |Non(g, s, v)| <= k
    {
      NonMonotone(g, s, t, v);
    }
  }

  lemma AddableAntitone(g: Graph, k: nat, s: set<nat>, t: set<nat>, w: nat)
    requires s <= t && Addable(g, k, t, w)
    ensures Addable(g, k, s, w)
  {
    Hereditary(g, k, s + {w}, t + {w});
  }

  /** The test the code runs vertex by vertex decides whether `w` extends `s`. */
  lemma AddableIff(g: Graph, k: nat, s: set<nat>, w: nat)
    requires g.Valid() && IsKplex(g, k, s) && w in g.Vertices() && w !in s
    ensures Addable(g, k, s, w) <==>
            && |Non(g, s, w)| + 1 <= k
            && forall v | v in s && !g.Adj(w, v) :: |Non(g, s, v)| + 1 <= k
  {
    NonExtend(g, s, w, w);
    forall v | v in s
      ensures |Non(g, s + {w}, v)| == |Non(g, s, v)| + (if g.Adj(w, v) then 0 else 1)
    {
      NonExtend(g, s, w, v);
    }
    if Addable(g, k, s, w) {
      assert w in s + {w};
      forall v | v in s && !g.Adj(w, v)
        ensures |Non(g, s, v)| + 1 <= k
      {
        assert v in s + {w};
      }
    }
  }

  lemma UnionBound(g: Graph, s: set<nat>, u: nat, v: nat)
    requires g.Valid() && u in s && v in s && u != v
    ensures |s| <= |Non(g, s, u)| + |Non(g, s, v)|
                   - (if g.Adj(u, v) then 0 else 2)
                   + |set x | x in s && g.Adj(u, x) && g.Adj(v, x)|
  {
    var a, b := Non(g, s, u), Non(g, s, v);
    var c := set x | x in s && g.Adj(u, x) && g.Adj(v, x);
    assert s == (a + b) + c;
    assert |a + b| == |a| + |b| - |a * b|;
    if !g.Adj(u, v) {
      assert {u, v} <= a * b;
      SubsetCardinality({u, v}, a * b);
    }
  }

  /** A k-plex with at least 2k-1 members has diameter at most two. */
  lemma LargeIsDiamTwo(g: Graph, k: nat, s: set<nat>)
    requires g.Valid() && IsKplex(g, k, s) && |s| + 2 > 2 * k
    ensures DiamTwo(g, s)
  {
    forall u, v | u in s && v in s && u != v && !g.Adj(u, v)
      ensures Linked(g, s, u, v)
    {
      UnionBound(g, s, u, v);
      var c := set x | x in s && g.Adj(u, x) && g.Adj(v, x);
      assert c != {};
      var x :| x in c;
    }
  }

  /** Any `k` members of a k-plex include a neighbour of each vertex that extends it. */
  lemma ExtensionSeesMembers(g: Graph, k: nat, s: set<nat>, w: nat, part: set<nat>)
    requires g.Valid() && IsKplex(g, k, s) && Addable(g, k, s, w)
    requires part <= s && |part| >= k
    ensures Touches(g, part, w)
  {
    AddableIff(g, k, s, w);
    if !Touches(g, part, w) {
      assert part <= Non(g, s, w);
      SubsetCardinality(part, Non(g, s, w));
    }
  }

  /** A set of diameter two that properly contains `s` has a member outside `s` next to `s`. */
  lemma Crossing(g: Graph, s: set<nat>, m: set<nat>)
    requires g.Valid() && DiamTwo(g, m) && s < m && s != {}
    ensures exists c :: c in m - s && Touches(g, s, c)
  {
    var a :| a in s;
    ProperHasExtra(s, m);
    var b :| b in m - s;
    if !g.Adj(b, a) {
      assert Linked(g, m, b, a);
      var x :| x in m && g.Adj(b, x) && g.Adj(a, x);
      assert g.Adj(x, a);
      if x in s {
        assert Touches(g, s, b);
      } else {
        assert Touches(g, s, x);
      }
    } else {
      assert Touches(g, s, b);
    }
  }

  lemma AddedIsProper(s: set<nat>, w: nat)
    requires w !in s
    ensures s < s + {w} && |s + {w}| == |s| + 1
  {
  }

  lemma MaximalIff(g: Graph, k: nat, m: set<nat>)
    requires IsKplex(g, k, m)
    ensures MaximalKplex(g, k, m) <==> forall w :: !Addable(g, k, m, w)
  {
    if MaximalKplex(g, k, m) {
      forall w | w !in m
        ensures !Addable(g, k, m, w)
      {
        AddedIsProper(m, w);
      }
    }
    if forall w :: !Addable(g, k, m, w) {
      forall t: set<nat> | m < t
        ensures !IsKplex(g, k, t)
      {
        ProperHasExtra(m, t);
        var w :| w in t - m;
        if IsKplex(g, k, t) {
          Hereditary(g, k, m + {w}, t);
          assert Addable(g, k, m, w);
        }
      }
    }
  }

  /** The sizes for which the search's local notion is the promised one. */
  predicate Exact(k: nat, q: nat) {
    k <= 2 || q + 2 >= 2 * k
  }

  /** An extension that the search would notice has diameter two again. */
  lemma ExtensionIsDiamTwo(g: Graph, k: nat, q: nat, m: set<nat>, w: nat)
    requires g.Valid() && 1 <= k && Exact(k, q) && m != {} && |m| >= q
    requires IsKplex(g, k, m) && Addable(g, k, m, w) && (|m| >= k || Touches(g, m, w))
    ensures DiamTwo(g, m + {w})
  {
    AddedIsProper(m, w);
    if |m| + 3 > 2 * k {
      LargeIsDiamTwo(g, k, m + {w});
    } else {
      // only k = 2 with a single member is left
      assert k == 2 && |m| == 1;
      var x :| x in m && g.Adj(w, x);
      assert m == {x} by {
        SubsetCardinality({x}, m);
      }
    }
  }

  /** Within `Exact`, the targets of the search are the maximal diameter-two k-plexes. */
  lemma TargetIffMaximal(g: Graph, k: nat, q: nat, m: set<nat>)
    requires g.Valid() && 1 <= k && Exact(k, q) && |m| >= q
    ensures Target(g, k, m) <==> MaximalDiamTwoKplex(g, k, m)
  {
    if MaximalDiamTwoKplex(g, k, m) {
      forall w | Addable(g, k, m, w)
        ensures |m| < k && !Touches(g, m, w)
      {
        if |m| >= k || Touches(g, m, w) {
          ExtensionIsDiamTwo(g, k, q, m, w);
          AddedIsProper(m, w);
        }
      }
    }
    if Target(g, k, m) {
      forall t: set<nat> | m < t
        ensures !DiamTwoKplex(g, k, t)
      {
        if DiamTwoKplex(g, k, t) {
          Crossing(g, m, t);
          var c :| c in t - m && Touches(g, m, c);
          Hereditary(g, k, m + {c}, t);
          assert false;
        }
      }
    }
  }

  /** From size 2k-1 on these are simply the maximal k-plexes. */
  lemma LargeTargetIffMaximalKplex(g: Graph, k: nat, m: set<nat>)
    requires g.Valid() && 1 <= k && |m| + 2 > 2 * k
    ensures MaximalDiamTwoKplex(g, k, m) <==> MaximalKplex(g, k, m)
  {
    if IsKplex(g, k, m) {
      LargeIsDiamTwo(g, k, m);
      forall t: set<nat> | m < t && IsKplex(g, k, t)
        ensures DiamTwo(g, t)
      {
        SubsetCardinality(m, t);
        LargeIsDiamTwo(g, k, t);
      }
    }
  }
}
