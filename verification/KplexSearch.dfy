/** The recursive walk below one root: `ListChildren` with the callback of
    `Sequential::RunInternal` (enumerable/diam2kplex.hpp, enumerator/sequential.hpp). */
module KplexSearch {
  import opened Graphs
  import opened KplexTheory
  import opened KplexState
  import opened KplexBranch
  import opened KplexNode

  function ToItem(b: Block, ks: seq<nat>): (item: seq<nat>)
    requires forall t | 0 <= t < |ks| :: ks[t] < |b.sub|
    ensures Elems(item) == b.V(ks)
  {
    var item := seq(|ks|, i requires 0 <= i < |ks| => b.sub[ks[i]]);
    assert forall x | x in b.V(ks) :: x in Elems(item) by {
      forall x | x in b.V(ks)
        ensures x in item
      {
        var i: nat :| i in ks && i < |b.sub| && b.sub[i] == x;
        var t :| 0 <= t < |ks| && ks[t] == i;
        assert item[t] == x;
      }
    }
    item
  }

  ghost predicate HasItem(out: seq<seq<nat>>, m: set<nat>) {
    exists j :: 0 <= j < |out| && Elems(out[j]) == m
  }

  ghost predicate Distinct(out: seq<seq<nat>>) {
    forall i, j | 0 <= i < j < |out| :: Elems(out[i]) != Elems(out[j])
  }

  ghost predicate ItemOk(b: Block, q: nat, st: State, item: seq<nat>) {
    NoDup(item) && Sound(b, q, Elems(item)) && Under(b, st, Elems(item))
  }

  /** Every reported item is sound, lies below the node, and no set is reported twice. */
  ghost predicate Listed(b: Block, q: nat, st: State, out: seq<seq<nat>>)
    requires b.Valid()
  {
    (forall j | 0 <= j < |out| :: ItemOk(b, q, st, out[j])) && Distinct(out)
  }

  /** Every sound set below the node is reported. */
  ghost predicate Complete(b: Block, q: nat, st: State, out: seq<seq<nat>>) {
    forall m: set<nat> | Sound(b, q, m) && Under(b, st, m) :: HasItem(out, m)
  }

  ghost predicate CompleteBelow(b: Block, q: nat, st: State, out: seq<seq<nat>>) {
    forall m: set<nat> | Goal(b, st, m) && |m| >= q :: HasItem(out, m)
  }

  ghost predicate NoneIs(out: seq<seq<nat>>, s: set<nat>) {
    forall j | 0 <= j < |out| :: Elems(out[j]) != s
  }

  lemma DistinctConcat(xs: seq<seq<nat>>, ys: seq<seq<nat>>)
    requires Distinct(xs) && Distinct(ys)
    requires forall i, j | 0 <= i < |xs| && 0 <= j < |ys| :: Elems(xs[i]) != Elems(ys[j])
    ensures Distinct(xs + ys)
  {
  }

  lemma HasItemConcat(xs: seq<seq<nat>>, ys: seq<seq<nat>>, m: set<nat>)
    ensures HasItem(xs + ys, m) <==> HasItem(xs, m) || HasItem(ys, m)
  {
    if i :| 0 <= i < |xs| && Elems(xs[i]) == m {
      assert (xs + ys)[i] == xs[i];
    }
    if i :| 0 <= i < |ys| && Elems(ys[i]) == m {
      assert (xs + ys)[|xs| + i] == ys[i];
    }
  }

  lemma ItemNoDup(b: Block, ks: seq<nat>)
    requires NoDup(b.sub) && b.Indices(ks) && NoDup(ks)
    ensures NoDup(ToItem(b, ks))
  {
  }

  /** The final test accepts exactly the sound sets. */
  lemma AcceptedIsSound(b: Block, q: nat, st: State)
    requires st.Inv(b)
    ensures |st.kplex| >= q && DiamTest(b.g, b.k, st.S(b)) && Blocked(b.g, b.k, b.Members(), b.sub[0], st.S(b)) <==>
              Sound(b, q, st.S(b))
  {
    MembersCount(b, st.kplex);
    NodeDiamTest(b, st);
    b.VContains(st.kplex, 0);
  }

  /** Reporting the node itself first: the callback's own part. */
  lemma ReportNode(b: Block, q: nat, st: State, accepted: bool, below: seq<seq<nat>>)
    requires st.Inv(b) && accepted == Sound(b, q, st.S(b))
    requires Listed(b, q, st, below) && NoneIs(below, st.S(b)) && CompleteBelow(b, q, st, below)
    ensures var out := (if accepted then [ToItem(b, st.kplex)] else []) + below;
            Listed(b, q, st, out) && Complete(b, q, st, out)
  {
    var first := if accepted then [ToItem(b, st.kplex)] else [];
    ReportListed(b, q, st, accepted, below);
    forall m: set<nat> | Sound(b, q, m) && Under(b, st, m)
      ensures HasItem(first + below, m)
    {
      HasItemConcat(first, below, m);
      if m == st.S(b) {
        assert Elems(first[0]) == st.S(b);
      } else {
        assert Goal(b, st, m);
      }
    }
  }

  lemma ReportListed(b: Block, q: nat, st: State, accepted: bool, below: seq<seq<nat>>)
    requires st.Inv(b) && accepted == Sound(b, q, st.S(b))
    requires Listed(b, q, st, below) && NoneIs(below, st.S(b))
    ensures Listed(b, q, st, (if accepted then [ToItem(b, st.kplex)] else []) + below)
  {
    if accepted {
      ItemNoDup(b, st.kplex);
      ListedPrepend(b, q, st, ToItem(b, st.kplex), below);
    } else {
      assert [] + below == below;
    }
  }

  lemma ListedPrepend(b: Block, q: nat, st: State, item: seq<nat>, below: seq<seq<nat>>)
    requires b.Valid() && ItemOk(b, q, st, item) && Listed(b, q, st, below) && NoneIs(below, Elems(item))
    ensures Listed(b, q, st, [item] + below)
  {
    DistinctConcat([item], below);
  }

  lemma PrunedHasNoGoal(b: Block, q: nat, st: State, m: set<nat>)
    requires st.Inv(b) && |st.cands| + |st.kplex| < q && Under(b, st, m)
    ensures |m| < q
  {
    forall t | 0 <= t < |st.cands|
      ensures st.cands[t] < |b.sub|
    {
      assert st.cands[t] in st.cands;
    }
    IncreasingIsNoDup(st.cands);
    MembersCount(b, st.kplex);
    MembersCount(b, st.cands);
    UnionCardinality(st.S(b), b.V(st.cands), m);
  }

  lemma UnionCardinality(s: set<nat>, t: set<nat>, m: set<nat>)
    requires m <= s + t
    ensures |m| <= |s| + |t|
  {
    SubsetCardinality(m, s + t);
    assert |s + t| == |s| + |t| - |s * t|;
  }

  lemma ExcludedUniversalHasNoGoal(b: Block, st: State, u: nat, m: set<nat>)
    requires st.Inv(b) && u in st.excluded && Universal(b, st, u)
    ensures !Goal(b, st, m)
  {
    if Goal(b, st, m) {
      UniversalIsInGoal(b, st, u, m);
      b.VContains(st.kplex, u);
      b.VContains(st.cands, u);
      assert false;
    }
  }

  /** The last universal candidate can still be added after the others. */
  lemma UniversalStaysOpen(b: Block, st: State, us: seq<nat>, t: nat, next: State)
    requires st.Inv(b) && Increasing(us) && t < |us|
    requires AllUniversal(b, st, us)
    requires next.Pending(b) && next.kplex == st.kplex + us[..t]
    ensures next.Open(b, us[t]) && us[t] in st.cands && Touches(b.g, next.S(b), b.sub[us[t]])
    ensures next.kplex + [us[t]] == st.kplex + us[..t + 1]
  {
    PrefixStep(us, t);
    var u := us[t];
    assert u in us && u !in us[..t];
    var x := b.sub[u];
    assert u !in next.kplex;
    b.VContains(next.kplex, u);
    forall y | y in next.S(b)
      ensures b.g.Adj(x, y)
    {
      var i: nat :| i in next.kplex && i < |b.sub| && b.sub[i] == y;
      assert i in st.kplex || i in st.cands;
      assert !b.Apart(u, i);
    }
    assert Non(b.g, next.S(b), x) == {};
    AddableIff(b.g, b.k, next.S(b), x);
    assert next.kplex[0] == 0;
    b.VContains(next.kplex, 0);
  }

  /** What the child below holds is what the parent holds beyond the added members. */
  lemma ChildIsBelow(b: Block, st: State, child: State, added: seq<nat>)
    requires st.Inv(b) && child.Inv(b) && child.kplex == st.kplex + added && |added| > 0
    requires forall a | a in added :: a in st.cands
    requires forall i | i in child.cands :: i in st.cands
    ensures child.S(b) == st.S(b) + b.V(added)
    ensures forall m: set<nat> | Under(b, child, m) :: Under(b, st, m) && m != st.S(b)
  {
    assert added[0] in child.kplex;
    assert added[0] in st.cands;
    b.VContains(st.kplex, added[0]);
    b.VContains(child.kplex, added[0]);
    assert forall i :: i in child.kplex <==> i in st.kplex || i in added;
  }

  class KplexSearch {
    const b: Block
    const q: nat
    const enablePivoting: bool

    constructor (b: Block, q: nat, enablePivoting: bool)
      requires b.Valid()
      ensures this.b == b && this.q == q && this.enablePivoting == enablePivoting
    {
      this.b, this.q, this.enablePivoting := b, q, enablePivoting;
    }

    /** `solution_cb`: report the node, then list its children. */
    method SolutionCb(node: Node) returns (out: seq<seq<nat>>)
      requires node.Value().Inv(b)
      ensures Listed(b, q, node.Value(), out) && Complete(b, q, node.Value(), out)
      decreases |b.sub| - |node.kplex|, 1
    {
      ghost var st := node.Value();
      var accepted := node.IsReallyMaximal(b, q);
      out := if accepted then [ToItem(b, node.kplex)] else [];
      var below := ListChildren(node);
      AcceptedIsSound(b, q, st);
      ReportNode(b, q, st, accepted, below);
      out := out + below;
    }

    method ListChildren(node: Node) returns (out: seq<seq<nat>>)
      requires node.Value().Inv(b)
      ensures Listed(b, q, node.Value(), out) && NoneIs(out, node.Value().S(b))
      ensures CompleteBelow(b, q, node.Value(), out)
      decreases |b.sub| - |node.kplex|, 0
    {
      ghost var st := node.Value();
      var maximal := node.IsMaximal(b);
      if maximal {
        forall m: set<nat> { StuckHasNoGoal(b, st, m); }
        return [];
      }
      var prune := node.CanPrune(q);
      if prune {
        forall m: set<nat> | Under(b, st, m) { PrunedHasNoGoal(b, q, st, m); }
        return [];
      }
      var universalInExcl := node.HasUniversalInExcl(b);
      if universalInExcl {
        ghost var u :| u in st.excluded && Universal(b, st, u);
        forall m: set<nat> { ExcludedUniversalHasNoGoal(b, st, u, m); }
        return [];
      }
      var universals, sortedCands := node.GetCands(b, enablePivoting);
      if |universals| != 0 {
        out := FastForward(node, universals);
      } else {
        out := Branch(node, sortedCands);
      }
    }

    /** A universal candidate belongs to every target: add them all at once. */
    method FastForward(node: Node, universals: seq<nat>) returns (out: seq<seq<nat>>)
      requires node.Value().Inv(b) && |universals| > 0 && Increasing(universals)
      requires AllUniversal(b, node.Value(), universals)
      ensures Listed(b, q, node.Value(), out) && NoneIs(out, node.Value().S(b))
      ensures CompleteBelow(b, q, node.Value(), out)
      decreases |b.sub| - |node.kplex|, 0, 0
    {
      ghost var st := node.Value();
      var child := new Node();
      child.Assign(node);
      st.InvIsPending(b);
      AddAll(child, universals, st);
      child.UpdateCandAndExcl(b, [], seq(|b.sub|, _ => false));
      ghost var next := child.Value();
      ChildIsBelow(b, st, next, universals);
      MembersCount(b, next.kplex);
      out := SolutionCb(child);
      FastForwardEnd(b, q, st, universals, next, out);
    }

    /** `for (u : universals) child_node.AddToKplex(u)` */
    method AddAll(child: Node, universals: seq<nat>, ghost st: State)
      requires child.Value() == st && st.Inv(b) && Increasing(universals) && AllUniversal(b, st, universals)
      modifies child
      ensures AddedTo(b, st, universals, child.Value())
    {
      st.InvIsPending(b);
      for t := 0 to |universals|
        invariant AddedTo(b, st, universals[..t], child.Value())
      {
        AddOne(child, universals, t, st);
      }
      WholePrefix(universals);
    }

    method AddOne(child: Node, universals: seq<nat>, t: nat, ghost st: State)
      requires st.Inv(b) && Increasing(universals) && AllUniversal(b, st, universals) && t < |universals|
      requires AddedTo(b, st, universals[..t], child.Value())
      modifies child
      ensures AddedTo(b, st, universals[..t + 1], child.Value())
    {
      UniversalStaysOpen(b, st, universals, t, child.Value());
      child.AddToKplex(b, universals[t]);
    }

    method MakeChild(node: Node, child: Node, c: nat, addToExcl: seq<nat>, addBits: seq<bool>)
      requires node != child && node.Value().Inv(b)
      requires node.Value().Open(b, c) && c in node.cands && Touches(b.g, node.Value().S(b), b.sub[c])
      requires NoDup(addToExcl) && |addBits| == |b.sub| && c !in addToExcl
      requires forall i | i in addToExcl :: i in node.cands && i !in node.kplex
      requires forall i: nat | i < |b.sub| :: addBits[i] <==> i in addToExcl
      modifies child
      ensures child.Value().Inv(b) && child.kplex == node.kplex + [c]
      ensures forall i :: i in child.cands <==> i in node.cands && i !in addToExcl && child.Value().Open(b, i)
    {
      child.Assign(node);
      child.Value().InvIsPending(b);
      child.AddToKplex(b, c);
      child.UpdateCandAndExcl(b, addToExcl, addBits);
    }

    /** One branch: what lies below its child goes to the output. */
    method OneBranch(node: Node, child: Node, cs: seq<nat>, t: nat, addToExcl: seq<nat>, addBits: seq<bool>,
        out: seq<seq<nat>>) returns (all: seq<seq<nat>>)
      requires node != child && node.Value().Inv(b) && Branches(b, node.Value(), cs) && t < |cs|
      requires addToExcl == cs[..t] && |addBits| == |b.sub|
      requires forall i: nat | i < |b.sub| :: addBits[i] <==> i in cs[..t]
      requires BranchesDone(b, q, node.Value(), cs[..t], out)
      modifies child
      ensures node.Value() == old(node.Value()) && BranchesDone(b, q, node.Value(), cs[..t + 1], all)
      decreases |b.sub| - |node.kplex|, 0, 0
    {
      ghost var st := node.Value();
      BranchOpen(b, st, cs, t);
      MakeChild(node, child, cs[t], addToExcl, addBits);
      ghost var next := child.Value();
      MembersCount(b, next.kplex);
      var r := SolutionCb(child);
      BranchStep(b, q, st, cs, t, next, out, r);
      all := out + r;
    }

    /** One child for each branch; later children exclude the earlier ones. */
    method Branch(node: Node, cs: seq<nat>) returns (out: seq<seq<nat>>)
      requires node.Value().Inv(b) && Branches(b, node.Value(), cs)
      ensures Listed(b, q, node.Value(), out) && NoneIs(out, node.Value().S(b))
      ensures CompleteBelow(b, q, node.Value(), out)
      decreases |b.sub| - |node.kplex|, 0, 1
    {
      ghost var st := node.Value();
      out := [];
      var addToExcl: seq<nat> := [];
      var addBits := seq(|b.sub|, _ => false);
      var child := new Node();
      for t := 0 to |cs|
        invariant node.Value() == st
        invariant addToExcl == cs[..t] && |addBits| == |b.sub|
        invariant forall i: nat | i < |b.sub| :: addBits[i] <==> i in cs[..t]
        invariant BranchesDone(b, q, st, cs[..t], out)
      {
        out := OneBranch(node, child, cs, t, addToExcl, addBits, out);
        BranchOpen(b, st, cs, t);
        addToExcl := addToExcl + [cs[t]];
        addBits := addBits[cs[t] := true];
      }
      BranchEnd(b, q, st, cs, out);
    }
  }

  ghost predicate AllUniversal(b: Block, st: State, us: seq<nat>) {
    forall u | u in us :: u in st.cands && Universal(b, st, u)
  }

  ghost predicate AddedTo(b: Block, st: State, us: seq<nat>, cur: State) {
    cur.Pending(b) && cur.kplex == st.kplex + us && cur.cands == st.cands && cur.excluded == st.excluded
  }

  lemma FastForwardEnd(b: Block, q: nat, st: State, us: seq<nat>, next: State, out: seq<seq<nat>>)
    requires st.Inv(b) && next.Inv(b) && next.kplex == st.kplex + us && |us| > 0
    requires AllUniversal(b, st, us)
    requires forall i :: i in next.cands <==> i in st.cands && next.Open(b, i)
    requires Listed(b, q, next, out) && Complete(b, q, next, out)
    ensures Listed(b, q, st, out) && NoneIs(out, st.S(b))
    ensures CompleteBelow(b, q, st, out)
  {
    ChildIsBelow(b, st, next, us);
    forall j | 0 <= j < |out|
      ensures ItemOk(b, q, st, out[j]) && Elems(out[j]) != st.S(b)
    {
      assert ItemOk(b, q, next, out[j]);
    }
    forall m: set<nat> | Goal(b, st, m) && |m| >= q
      ensures HasItem(out, m)
    {
      GoalUnderUniversals(b, st, us, next, m);
    }
  }

  lemma GoalUnderUniversals(b: Block, st: State, us: seq<nat>, next: State, m: set<nat>)
    requires st.Inv(b) && next.Inv(b) && next.kplex == st.kplex + us && |us| > 0
    requires AllUniversal(b, st, us)
    requires forall i :: i in next.cands <==> i in st.cands && next.Open(b, i)
    requires Goal(b, st, m)
    ensures Under(b, next, m)
  {
    ChildIsBelow(b, st, next, us);
    forall u | u in us
      ensures u < |b.sub| && b.sub[u] in m
    {
      UniversalIsInGoal(b, st, u, m);
    }
    forall i: nat | i < |b.sub| && i in next.kplex
      ensures b.sub[i] in m
    {
      b.VContains(next.kplex, i);
    }
    GoalUnderChild(b, st, next, b.V(us), [], m);
  }

  /** The state of the branching loop after the branches `cs`. */
  ghost predicate BranchesDone(b: Block, q: nat, st: State, cs: seq<nat>, out: seq<seq<nat>>)
    requires b.Valid()
  {
    && Listed(b, q, st, out) && NoneIs(out, st.S(b))
    && (forall j | 0 <= j < |out| :: Meets(b, cs, Elems(out[j])))
    && (forall m: set<nat> | Goal(b, st, m) && |m| >= q && Meets(b, cs, m) :: HasItem(out, m))
  }

  lemma BranchOpen(b: Block, st: State, cs: seq<nat>, t: nat)
    requires st.Inv(b) && Branches(b, st, cs) && t < |cs|
    ensures st.Open(b, cs[t]) && cs[t] in st.cands && Touches(b.g, st.S(b), b.sub[cs[t]])
    ensures NoDup(cs[..t]) && cs[..t + 1] == cs[..t] + [cs[t]] && cs[t] !in cs[..t]
    ensures forall i | i in cs[..t] :: i in st.cands && i !in st.kplex && i < |b.sub|
  {
    assert cs[t] in cs;
    PrefixStep(cs, t);
    forall i | i in cs[..t]
      ensures i in st.cands && i !in st.kplex && i < |b.sub|
    {
      assert i in cs;
      assert st.Open(b, i);
    }
  }

  lemma BranchStep(b: Block, q: nat, st: State, cs: seq<nat>, t: nat, next: State, out: seq<seq<nat>>, r: seq<seq<nat>>)
    requires st.Inv(b) && Branches(b, st, cs) && t < |cs| && BranchesDone(b, q, st, cs[..t], out)
    requires next.Inv(b) && next.kplex == st.kplex + [cs[t]]
    requires forall i :: i in next.cands <==> i in st.cands && i !in cs[..t] && next.Open(b, i)
    requires Listed(b, q, next, r) && Complete(b, q, next, r)
    ensures BranchesDone(b, q, st, cs[..t + 1], out + r)
  {
    BranchStepListed(b, q, st, cs, t, next, out, r);
    forall m: set<nat> | Goal(b, st, m) && |m| >= q && Meets(b, cs[..t + 1], m)
      ensures HasItem(out + r, m)
    {
      HasItemConcat(out, r, m);
      if !Meets(b, cs[..t], m) {
        GoalUnderBranch(b, st, cs, t, next, m);
      }
    }
  }

  lemma BranchStepListed(b: Block, q: nat, st: State, cs: seq<nat>, t: nat, next: State, out: seq<seq<nat>>, r: seq<seq<nat>>)
    requires st.Inv(b) && Branches(b, st, cs) && t < |cs| && next.Inv(b) && next.kplex == st.kplex + [cs[t]]
    requires Listed(b, q, st, out) && NoneIs(out, st.S(b)) && Listed(b, q, next, r)
    requires forall j | 0 <= j < |out| :: Meets(b, cs[..t], Elems(out[j]))
    requires forall i | i in next.cands :: i in st.cands && i !in cs[..t]
    ensures Listed(b, q, st, out + r) && NoneIs(out + r, st.S(b))
    ensures forall j | 0 <= j < |out + r| :: Meets(b, cs[..t + 1], Elems((out + r)[j]))
  {
    forall j | 0 <= j < |r|
      ensures ItemOk(b, q, st, r[j]) && Elems(r[j]) != st.S(b)
      ensures !Meets(b, cs[..t], Elems(r[j])) && Meets(b, cs[..t + 1], Elems(r[j]))
    {
      BranchItem(b, q, st, cs, t, next, r[j]);
    }
    DistinctConcat(out, r);
    forall j | 0 <= j < |out|
      ensures Meets(b, cs[..t + 1], Elems(out[j]))
    {
      MeetsMore(b, cs, t, Elems(out[j]));
    }
  }

  /** An item below the branch is below the node, and belongs to this branch only. */
  lemma BranchItem(b: Block, q: nat, st: State, cs: seq<nat>, t: nat, next: State, item: seq<nat>)
    requires st.Inv(b) && Branches(b, st, cs) && t < |cs| && next.Inv(b) && next.kplex == st.kplex + [cs[t]]
    requires forall i | i in next.cands :: i in st.cands && i !in cs[..t]
    requires ItemOk(b, q, next, item)
    ensures ItemOk(b, q, st, item) && Elems(item) != st.S(b)
    ensures !Meets(b, cs[..t], Elems(item)) && Meets(b, cs[..t + 1], Elems(item))
  {
    BranchOpen(b, st, cs, t);
    ChildIsBelow(b, st, next, [cs[t]]);
    MeetsOnlyThis(b, st, cs, t, next, Elems(item));
  }

  lemma MeetsMore(b: Block, cs: seq<nat>, t: nat, m: set<nat>)
    requires t < |cs| && Meets(b, cs[..t], m)
    ensures Meets(b, cs[..t + 1], m)
  {
    var c :| c in cs[..t] && c < |b.sub| && b.sub[c] in m;
    assert c in cs[..t + 1];
  }

  lemma MeetsOnlyThis(b: Block, st: State, cs: seq<nat>, t: nat, next: State, m: set<nat>)
    requires st.Inv(b) && Branches(b, st, cs) && t < |cs| && next.Inv(b)
    requires next.kplex == st.kplex + [cs[t]] && Under(b, next, m)
    requires forall i | i in next.cands :: i in st.cands && i !in cs[..t]
    ensures !Meets(b, cs[..t], m) && Meets(b, cs[..t + 1], m)
  {
    BranchOpen(b, st, cs, t);
    b.VContains(next.kplex, cs[t]);
    assert cs[t] in next.kplex;
    assert cs[t] in cs[..t + 1];
    forall i | i in cs[..t]
      ensures i < |b.sub| && b.sub[i] !in m
    {
      assert i in st.cands && i !in st.kplex;
      b.VContains(next.kplex, i);
      b.VContains(next.cands, i);
    }
  }

  lemma GoalUnderBranch(b: Block, st: State, cs: seq<nat>, t: nat, next: State, m: set<nat>)
    requires st.Inv(b) && Branches(b, st, cs) && t < |cs| && next.Inv(b)
    requires next.kplex == st.kplex + [cs[t]]
    requires forall i :: i in next.cands <==> i in st.cands && i !in cs[..t] && next.Open(b, i)
    requires Goal(b, st, m) && Meets(b, cs[..t + 1], m) && !Meets(b, cs[..t], m)
    ensures Under(b, next, m)
  {
    BranchOpen(b, st, cs, t);
    var c := cs[t];
    b.VAppend(st.kplex, c);
    assert b.sub[c] in m;
    forall i: nat | i < |b.sub| && i in next.kplex
      ensures b.sub[i] in m
    {
      b.VContains(next.kplex, i);
    }
    GoalUnderChild(b, st, next, {b.sub[c]}, cs[..t], m);
  }

  lemma BranchEnd(b: Block, q: nat, st: State, cs: seq<nat>, out: seq<seq<nat>>)
    requires b.Valid() && Branches(b, st, cs) && BranchesDone(b, q, st, cs[..|cs|], out)
    ensures CompleteBelow(b, q, st, out)
  {
    WholePrefix(cs);
    forall m: set<nat> | Goal(b, st, m) && |m| >= q
      ensures HasItem(out, m)
    {
      assert Meets(b, cs, m);
    }
  }
}
