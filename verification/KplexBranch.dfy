/** Why branching loses no target: heap-free facts about one node of the search. */
module KplexBranch {
  import opened Graphs
  import opened KplexTheory
  import opened KplexState

  /** Everything below a node lies between its k-plex and k-plex plus candidates. */
  ghost predicate Under(b: Block, st: State, m: set<nat>) {
    st.S(b) <= m && m <= st.S(b) + b.V(st.cands)
  }

  ghost predicate Goal(b: Block, st: State, m: set<nat>) {
    |b.sub| > 0 && Local(b.g, b.k, b.Members(), b.sub[0], m) && Under(b, st, m) && m != st.S(b)
  }

  /** `u` is next to every other member and candidate. */
  ghost predicate Universal(b: Block, st: State, u: nat) {
    && u < |b.sub|
    && forall i: nat | i in st.kplex || i in st.cands :: i == u || !b.Apart(u, i)
  }

  /** `v` is not cut by the pivot `u`. */
  ghost predicate NotCut(b: Block, st: State, u: nat, v: nat) {
    b.Apart(u, v) || exists w :: w in st.kplex && b.Apart(u, w) && b.Apart(v, w)
  }

  /** No child can be reached from here: nothing that extends the k-plex is in reach. */
  ghost predicate Stuck(b: Block, st: State) {
    forall i: nat | st.Open(b, i) :: |st.S(b)| < b.k && !Touches(b.g, st.S(b), b.sub[i])
  }

  /** A set of branches that no goal avoids. */
  ghost predicate Branches(b: Block, st: State, cs: seq<nat>) {
    && NoDup(cs)
    && (forall c | c in cs :: c in st.cands && c < |b.sub| && Touches(b.g, st.S(b), b.sub[c]))
    && (forall m: set<nat> | Goal(b, st, m) :: Meets(b, cs, m))
  }

  ghost predicate Meets(b: Block, cs: seq<nat>, m: set<nat>) {
    exists c :: c in cs && c < |b.sub| && b.sub[c] in m
  }

  lemma AllMissed(g: Graph, s: set<nat>, x: nat)
    ensures |Non(g, s, x)| == |s| <==> !Touches(g, s, x)
  {
    if !Touches(g, s, x) {
      assert Non(g, s, x) == s;
    } else {
      var y :| y in s && g.Adj(x, y);
      assert Non(g, s, x) <= s - {y};
      SubsetCardinality(Non(g, s, x), s - {y});
    }
  }

  lemma MembersCount(b: Block, ks: seq<nat>)
    requires b.Valid() && NoDup(ks) && b.Indices(ks)
    ensures |b.V(ks)| == |ks| <= |b.sub|
  {
    if ks == [] {
      assert b.V(ks) == {};
    } else {
      var n := |ks| - 1;
      assert ks == ks[..n] + [ks[n]];
      MembersCount(b, ks[..n]);
      b.VAppend(ks[..n], ks[n]);
      b.VContains(ks[..n], ks[n]);
    }
    NoDupCardinality(b.sub);
    SubsetCardinality(b.V(ks), Elems(b.sub));
  }

  /** A vertex of a goal outside the k-plex is a candidate. */
  lemma GoalCandidate(b: Block, st: State, m: set<nat>, x: nat) returns (c: nat)
    requires Under(b, st, m) && x in m && x !in st.S(b)
    ensures c in st.cands && c < |b.sub| && b.sub[c] == x
  {
    assert x in b.V(st.cands);
    c :| c in st.cands && c < |b.sub| && b.sub[c] == x;
  }

  /** Every goal has a member next to the k-plex among the candidates. */
  lemma GoalCrosses(b: Block, st: State, m: set<nat>) returns (c: nat)
    requires st.Inv(b) && Goal(b, st, m)
    ensures c in st.cands && c < |b.sub| && b.sub[c] in m && Touches(b.g, st.S(b), b.sub[c])
  {
    assert b.sub[0] in st.S(b);
    Crossing(b.g, st.S(b), m);
    var x :| x in m - st.S(b) && Touches(b.g, st.S(b), x);
    c := GoalCandidate(b, st, m, x);
  }

  lemma StuckHasNoGoal(b: Block, st: State, m: set<nat>)
    requires st.Inv(b) && Stuck(b, st)
    ensures !Goal(b, st, m)
  {
    if Goal(b, st, m) {
      var c := GoalCrosses(b, st, m);
      assert false;
    }
  }

  /** A vertex next to every candidate and the k-plex belongs to every goal. */
  lemma UniversalIsInGoal(b: Block, st: State, u: nat, m: set<nat>)
    requires st.Inv(b) && Universal(b, st, u) && Goal(b, st, m)
    ensures b.sub[u] in m
  {
    var x := b.sub[u];
    if x !in m {
      forall y | y in m
        ensures b.g.Adj(x, y)
      {
        if y in st.S(b) {
          var i: nat :| i in st.kplex && i < |b.sub| && b.sub[i] == y;
          assert !b.Apart(u, i);
        } else {
          var i := GoalCandidate(b, st, m, y);
          assert !b.Apart(u, i);
        }
      }
      assert Non(b.g, m, x) == {};
      AddableIff(b.g, b.k, m, x);
      assert b.sub[0] in m;
      assert Touches(b.g, m, x);
    }
  }

  /** Cutting by a pivot keeps a vertex of every goal. */
  lemma PivotKeepsGoal(b: Block, st: State, u: nat, m: set<nat>) returns (c: nat)
    requires st.Inv(b) && Goal(b, st, m) && |st.S(b)| >= b.k
    requires u in st.cands || u in st.excluded
    ensures c in st.cands && c < |b.sub| && b.sub[c] in m && NotCut(b, st, u, c)
  {
    var x := b.sub[u];
    assert st.Open(b, u);
    if x in m {
      b.VContains(st.kplex, u);
      c := GoalCandidate(b, st, m, x);
      assert b.Apart(u, u);
    } else if i: nat :| i in st.cands && i < |b.sub| && b.sub[i] in m && NotCut(b, st, u, i) {
      c := i;
    } else {
      SubsetCardinality(st.S(b), m);
      CutGoalExtends(b, st, u, m);
      assert false;
    }
  }

  lemma CutGoalExtends(b: Block, st: State, u: nat, m: set<nat>)
    requires st.Inv(b) && Goal(b, st, m) && st.Open(b, u) && b.sub[u] !in m
    requires forall i: nat | i in st.cands && i < |b.sub| && b.sub[i] in m :: !NotCut(b, st, u, i)
    ensures Addable(b.g, b.k, m, b.sub[u])
  {
    var x, s := b.sub[u], st.S(b);
    AddableIff(b.g, b.k, s, x);
    AddableIff(b.g, b.k, m, x);
    assert Non(b.g, m, x) <= Non(b.g, s, x) by {
      forall y | y in m && y !in s
        ensures b.g.Adj(x, y)
      {
        var i := GoalCandidate(b, st, m, y);
        assert !NotCut(b, st, u, i);
      }
    }
    SubsetCardinality(Non(b.g, m, x), Non(b.g, s, x));
    forall y | y in m && !b.g.Adj(x, y)
      ensures |Non(b.g, m, y)| + 1 <= b.k
    {
      assert y in s;
      MissesOnlyMembers(b, st, u, m, y);
      SubsetCardinality(Non(b.g, m, y), Non(b.g, s, y));
    }
  }

  lemma MissesOnlyMembers(b: Block, st: State, u: nat, m: set<nat>, y: nat)
    requires b.Valid() && u < |b.sub| && Under(b, st, m)
    requires y in st.S(b) && !b.g.Adj(b.sub[u], y)
    requires forall i: nat | i in st.cands && i < |b.sub| && b.sub[i] in m :: !NotCut(b, st, u, i)
    ensures Non(b.g, m, y) <= Non(b.g, st.S(b), y)
  {
    var j: nat :| j in st.kplex && j < |b.sub| && b.sub[j] == y;
    forall z | z in m && z !in st.S(b)
      ensures b.g.Adj(y, z)
    {
      var i := GoalCandidate(b, st, m, z);
      assert !NotCut(b, st, u, i);
      assert b.Apart(u, j);
      assert !b.Apart(i, j);
    }
  }

  lemma PivotBranches(b: Block, st: State, u: nat, cs: seq<nat>)
    requires st.Inv(b) && |st.S(b)| >= b.k && (u in st.cands || u in st.excluded)
    requires NoDup(cs) && forall v :: v in cs <==> v in st.cands && NotCut(b, st, u, v)
    ensures Branches(b, st, cs)
  {
    forall c | c in cs
      ensures c < |b.sub| && Touches(b.g, st.S(b), b.sub[c])
    {
      assert st.Open(b, c);
      ExtensionSeesMembers(b.g, b.k, st.S(b), b.sub[c], st.S(b));
    }
    forall m: set<nat> | Goal(b, st, m)
      ensures Meets(b, cs, m)
    {
      var c := PivotKeepsGoal(b, st, u, m);
    }
  }

  lemma ConnectedBranches(b: Block, st: State, cs: seq<nat>)
    requires st.Inv(b)
    requires NoDup(cs) && forall v: nat :: v in cs <==> v in st.cands && v < |b.sub| && Touches(b.g, st.S(b), b.sub[v])
    ensures Branches(b, st, cs)
  {
    forall m: set<nat> | Goal(b, st, m)
      ensures Meets(b, cs, m)
    {
      var c := GoalCrosses(b, st, m);
    }
  }

  /** A goal through the new member, avoiding the excluded branches, lies under the child. */
  lemma GoalUnderChild(b: Block, st: State, child: State, added: set<nat>, excl: seq<nat>, m: set<nat>)
    requires st.Inv(b) && b.Valid() && Goal(b, st, m) && child.S(b) == st.S(b) + added && added <= m
    requires forall i: nat | i in st.kplex :: i in child.kplex
    requires forall i: nat | i < |b.sub| && i in child.kplex :: b.sub[i] in m
    requires forall i :: i in child.cands <==> i in st.cands && i !in excl && child.Open(b, i)
    requires forall i | i in excl :: i < |b.sub| && b.sub[i] !in m
    ensures Under(b, child, m)
  {
    forall x | x in m
      ensures x in child.S(b) + b.V(child.cands)
    {
      if x !in child.S(b) {
        var i := GoalCandidate(b, st, m, x);
        Hereditary(b.g, b.k, child.S(b) + {x}, m);
        b.VContains(child.kplex, i);
        assert child.Open(b, i);
        assert i in child.cands;
      }
    }
  }

  /** What `HasDiameterTwo` accepts. */
  ghost predicate Spread(g: Graph, m: set<nat>) {
    forall u, v | u in m && v in m :: g.Adj(u, v) || Linked(g, m, u, v)
  }

  ghost predicate DiamTest(g: Graph, k: nat, m: set<nat>) {
    |m| + 2 > 2 * k || k == 2 || Spread(g, m)
  }

  /** When the test is right: it accepts the k-plexes of diameter two, except, from k = 3 on,
      single vertices, which it compares with themselves. For k = 2 it accepts an unlinked
      pair as well, which the search never builds. */
  lemma DiamTestIff(g: Graph, k: nat, m: set<nat>)
    requires g.Valid() && k >= 1 && IsKplex(g, k, m) && m != {}
    ensures DiamTest(g, k, m) <==>
              (DiamTwo(g, m) && (k <= 2 || |m| >= 2)) || (k == 2 && |m| == 2 && !DiamTwo(g, m))
  {
    if |m| + 2 > 2 * k {
      LargeIsDiamTwo(g, k, m);
    } else if k == 2 {
      SmallSets(g, m);
    } else {
      SpreadIff(g, m);
    }
  }

  lemma SmallSets(g: Graph, m: set<nat>)
    requires 1 <= |m| <= 2
    ensures |m| == 1 ==> DiamTwo(g, m)
  {
    var x :| x in m;
    assert |m - {x}| == |m| - 1;
    assert |m| == 1 ==> m - {x} == {};
    assert |m| == 1 ==> forall y | y in m :: y == x || y in m - {x};
  }

  lemma SpreadIff(g: Graph, m: set<nat>)
    requires g.Valid() && m != {}
    ensures Spread(g, m) <==> DiamTwo(g, m) && |m| >= 2
  {
    var x :| x in m;
    if Spread(g, m) {
      assert Linked(g, m, x, x);
      var y :| y in m && g.Adj(x, y);
      SubsetCardinality({x, y}, m);
      assert |{x, y}| == 2;
    }
    if DiamTwo(g, m) && |m| >= 2 {
      forall u | u in m
        ensures Linked(g, m, u, u)
      {
        HasOther(m, u);
        var v :| v in m && v != u;
        assert g.Adj(u, v) || Linked(g, m, u, v);
      }
    }
  }

  lemma HasOther(m: set<nat>, u: nat)
    requires |m| >= 2
    ensures exists v :: v in m && v != u
  {
    var one: set<nat> := {u};
    assert |one| == 1;
    if forall v | v in m :: v == u {
      SubsetCardinality(m, one);
    }
  }

  /** What every reported set is, and every such set below the node is reported. */
  ghost predicate Sound(b: Block, q: nat, m: set<nat>) {
    |b.sub| > 0 && |m| >= q && Local(b.g, b.k, b.Members(), b.sub[0], m)
  }

  lemma PairIsClose(b: Block, st: State)
    requires st.Inv(b) && |st.S(b)| == 2
    ensures DiamTwo(b.g, st.S(b))
  {
    MembersCount(b, st.kplex);
    var c := st.kplex[1];
    assert st.kplex == [] + [0] + [c];
    assert st.kplex[..1] == [] + [0];
    b.VAppend([], 0);
    b.VAppend([] + [0], c);
    assert b.V([]) == {};
  }

  lemma StuckBlocksMembers(b: Block, st: State, w: nat)
    requires st.Inv(b) && Stuck(b, st) && w in b.Members() && Addable(b.g, b.k, st.S(b), w)
    ensures |st.S(b)| < b.k && !Touches(b.g, st.S(b), w)
  {
    var i :| 0 <= i < |b.sub| && b.sub[i] == w;
    b.VContains(st.kplex, i);
    assert st.Open(b, i);
  }
}
