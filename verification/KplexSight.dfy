/** Which sets a k-plex run reports, in terms of the relabelled graph alone. */
module KplexSight {
  import opened Graphs
  import opened KplexTheory

  ghost predicate Least(v: nat, m: set<nat>) {
    v in m && forall x | x in m :: v <= x
  }

  ghost predicate TwoSteps(g: Graph, v: nat, w: nat) {
    exists y: nat :: y > v && g.Adj(v, y) && g.Adj(y, w)
  }

  /** The vertices above `v` that the root of `v` may look at: one step from `v`, or two with
      a vertex above `v` between. */
  ghost function Sight(g: Graph, k: nat, v: nat): set<nat> {
    set w: nat | w in g.Vertices() && w > v && (g.Adj(v, w) || (k != 1 && TwoSteps(g, v, w)))
  }

  /** What the root of `v` reports. */
  ghost predicate Found(g: Graph, k: nat, v: nat, m: set<nat>) {
    Least(v, m) && Local(g, k, Sight(g, k, v), v, m)
  }

  ghost predicate FoundBelow(g: Graph, k: nat, n: nat, m: set<nat>) {
    exists v: nat :: v < n && Found(g, k, v, m)
  }

  /** What a run reports, for any `k` and `q`. */
  ghost predicate Reported(g: Graph, k: nat, q: nat, m: set<nat>) {
    |m| >= q && FoundBelow(g, k, g.Size(), m)
  }

  lemma HasLeast(m: set<nat>) returns (v: nat)
    requires m != {}
    ensures Least(v, m)
  {
    v :| v in m;
    while exists x: nat :: x in m && x < v
      invariant v in m
      decreases v
    {
      var x: nat :| x in m && x < v;
      v := x;
    }
  }

  lemma OnePlexIsClique(g: Graph, t: set<nat>, u: nat, w: nat)
    requires IsKplex(g, 1, t) && g.Valid() && u in t && w in t && u != w
    ensures g.Adj(u, w)
  {
    assert |{u, w}| == 2;
    if {u, w} <= Non(g, t, u) {
      SubsetCardinality({u, w}, Non(g, t, u));
    }
  }

  /** A vertex that a larger k-plex of diameter two has next to the set is in sight, or the
      one between is. */
  lemma CrossesInSight(g: Graph, k: nat, v: nat, m: set<nat>, t: set<nat>) returns (c: nat)
    requires g.Valid() && k >= 1 && Least(v, m) && m < t && DiamTwoKplex(g, k, t)
    ensures c in t - m && Touches(g, m, c) && (c in Sight(g, k, v) || c < v)
  {
    Crossing(g, m, t);
    c :| c in t - m && Touches(g, m, c);
    if c > v && !g.Adj(v, c) {
      if k == 1 {
        OnePlexIsClique(g, t, v, c);
      }
      assert Linked(g, t, v, c);
      var y :| y in t && g.Adj(v, y) && g.Adj(c, y);
      assert g.Adj(y, v) && g.Adj(y, c);
      if y < v {
        c := y;
      } else {
        assert TwoSteps(g, v, c);
      }
    }
  }

  /** Every reported set is a maximal k-plex of diameter two. */
  lemma FoundIsMaximal(g: Graph, k: nat, v: nat, m: set<nat>)
    requires g.Valid() && k >= 1 && Found(g, k, v, m)
    ensures MaximalDiamTwoKplex(g, k, m)
  {
    forall t: set<nat> | m < t
      ensures !DiamTwoKplex(g, k, t)
    {
      if DiamTwoKplex(g, k, t) {
        var c := CrossesInSight(g, k, v, m, t);
        Hereditary(g, k, m + {c}, t);
        assert Addable(g, k, m, c);
        assert false;
      }
    }
  }

  /** A set is reported by the root of its least vertex. */
  lemma ReportedIff(g: Graph, k: nat, q: nat, v: nat, m: set<nat>)
    requires Least(v, m)
    ensures Reported(g, k, q, m) <==> |m| >= q && Found(g, k, v, m)
  {
    if FoundBelow(g, k, g.Size(), m) {
      var u: nat :| u < g.Size() && Found(g, k, u, m);
      LeastIsOne(u, v, m);
    }
    if Found(g, k, v, m) {
      LeastInGraph(g, k, v, m);
    }
  }

  lemma LeastIsOne(u: nat, v: nat, m: set<nat>)
    requires Least(u, m) && Least(v, m)
    ensures u == v
  {
  }

  lemma LeastInGraph(g: Graph, k: nat, v: nat, m: set<nat>)
    requires DiamTwoKplex(g, k, m) && Least(v, m)
    ensures v < g.Size()
  {
    assert v in g.Vertices();
  }

  /** From `2k - 2` vertices on, and for `k <= 2`, all of these are reported. */
  lemma ExactIsFound(g: Graph, k: nat, v: nat, m: set<nat>)
    requires g.Valid() && k >= 1 && Exact(k, |m|) && Least(v, m)
    ensures Found(g, k, v, m) <==> MaximalDiamTwoKplex(g, k, m)
  {
    TargetIffMaximal(g, k, |m|, m);
    if Found(g, k, v, m) {
      FoundIsMaximal(g, k, v, m);
    }
  }

  /** What is reported among the sets of a given size. */
  lemma ReportedBySize(g: Graph, k: nat, q: nat, m: set<nat>)
    requires g.Valid() && k >= 1 && |m| >= q
    ensures Reported(g, k, q, m) ==> MaximalDiamTwoKplex(g, k, m)
    ensures Exact(k, |m|) ==> (Reported(g, k, q, m) <==> MaximalDiamTwoKplex(g, k, m))
    ensures |m| + 1 >= 2 * k ==> (Reported(g, k, q, m) <==> MaximalKplex(g, k, m))
  {
    if m != {} {
      var v := HasLeast(m);
      ReportedIff(g, k, q, v, m);
      if Found(g, k, v, m) {
        FoundIsMaximal(g, k, v, m);
      }
      if Exact(k, |m|) {
        ExactIsFound(g, k, v, m);
      }
      if |m| + 1 >= 2 * k {
        LargeTargetIffMaximalKplex(g, k, m);
      }
    }
  }
}
