/** One node of the k-plex search (`Diam2KplexNodeImpl`, enumerable/diam2kplex.hpp). */
module KplexNode {
  import opened Graphs
  import opened KplexTheory
  import opened KplexState
  import opened KplexBranch

  /** The candidates that the pivot `u` does not cut. */
  ghost function Uncut(b: Block, st: State, u: nat): set<nat> {
    set v | v in st.cands && NotCut(b, st, u, v)
  }

  lemma UncutSize(b: Block, st: State, u: nat, r: seq<nat>)
    requires NoDup(r) && forall v :: v in r <==> v in st.cands && NotCut(b, st, u, v)
    ensures |r| == |Uncut(b, st, u)|
  {
    NoDupCardinality(r);
    assert Elems(r) == Uncut(b, st, u);
  }

  lemma UncutAtMost(b: Block, st: State, u: nat)
    requires Increasing(st.cands)
    ensures |Uncut(b, st, u)| <= |st.cands|
  {
    IncreasingIsNoDup(st.cands);
    NoDupCardinality(st.cands);
    SubsetCardinality(Uncut(b, st, u), Elems(st.cands));
  }

  ghost function UncutCounts(b: Block, st: State, us: seq<nat>): (r: seq<nat>)
    ensures |r| == |us|
  {
    seq(|us|, i requires 0 <= i < |us| => |Uncut(b, st, us[i])|)
  }

  /** `best` with count `n` is the start or one of `us`, and no count is smaller. */
  ghost predicate Improves(us: seq<nat>, counts: seq<nat>, best0: nat, n0: nat, best: nat, n: nat) {
    && |us| == |counts| && n <= n0
    && ((best == best0 && n == n0) || exists i :: 0 <= i < |us| && best == us[i] && n == counts[i])
    && forall i | 0 <= i < |counts| :: n <= counts[i]
  }

  lemma ImprovesMore(us: seq<nat>, counts: seq<nat>, best0: nat, n0: nat, best: nat, n: nat, t: nat, m: nat)
    requires |us| == |counts| && t < |us| && counts[t] == m
    requires Improves(us[..t], counts[..t], best0, n0, best, n)
    ensures Improves(us[..t + 1], counts[..t + 1], best0, n0, if m < n then us[t] else best, if m < n then m else n)
  {
    PrefixStep(us, t);
    PrefixStep(counts, t);
  }

  lemma PivotIsBest(b: Block, st: State, best1: nat, n1: nat, best: nat, n: nat)
    requires Increasing(st.cands) && |st.cands| > 0
    requires Improves(st.cands, UncutCounts(b, st, st.cands), st.cands[0], |st.cands|, best1, n1)
    requires Improves(st.excluded, UncutCounts(b, st, st.excluded), best1, n1, best, n)
    ensures best in st.cands || best in st.excluded
    ensures forall u | u in st.cands || u in st.excluded :: |Uncut(b, st, best)| <= |Uncut(b, st, u)|
  {
    UncutAtMost(b, st, best);
    forall u | u in st.cands || u in st.excluded
      ensures n <= |Uncut(b, st, u)|
    {
      if u in st.cands {
        var i :| 0 <= i < |st.cands| && st.cands[i] == u;
        assert UncutCounts(b, st, st.cands)[i] == |Uncut(b, st, u)|;
      } else {
        var i :| 0 <= i < |st.excluded| && st.excluded[i] == u;
        assert UncutCounts(b, st, st.excluded)[i] == |Uncut(b, st, u)|;
      }
    }
    assert |Uncut(b, st, best)| <= n;
  }

  /** The first `i` members leave room for `v`. */
  ghost predicate FitsFirst(b: Block, st: State, i: nat, v: nat) {
    i <= |st.kplex| && forall t | 0 <= t < i :: st.kplex[t] < |b.sub| && FitsOne(b, st, b.sub[st.kplex[t]], v)
  }

  ghost predicate FitsOne(b: Block, st: State, x: nat, v: nat) {
    b.g.Adj(v, x) || |Non(b.g, st.S(b), x)| + 1 <= b.k
  }

  lemma FitsNext(b: Block, st: State, i: nat, v: nat)
    requires FitsFirst(b, st, i, v) && i < |st.kplex| && st.kplex[i] < |b.sub| && FitsOne(b, st, b.sub[st.kplex[i]], v)
    ensures FitsFirst(b, st, i + 1, v)
  {
  }

  /** The branches without pivot: the candidates next to the k-plex. */
  ghost predicate TouchingOnly(b: Block, st: State, r: seq<nat>) {
    forall v: nat :: v in r <==> v in st.cands && v < |b.sub| && Touches(b.g, st.S(b), b.sub[v])
  }

  /** The branches with pivot: the candidates that a best pivot does not cut. */
  ghost predicate UncutByBest(b: Block, st: State, r: seq<nat>) {
    exists u :: (u in st.cands || u in st.excluded) && IsBest(b, st, u) && Elems(r) == Uncut(b, st, u)
  }

  ghost predicate IsBest(b: Block, st: State, u: nat) {
    forall w | w in st.cands || w in st.excluded :: |Uncut(b, st, u)| <= |Uncut(b, st, w)|
  }

  lemma UncutListed(b: Block, st: State, u: nat, r: seq<nat>)
    requires (u in st.cands || u in st.excluded) && IsBest(b, st, u)
    requires forall v :: v in r <==> v in st.cands && NotCut(b, st, u, v)
    ensures UncutByBest(b, st, r)
  {
    assert Elems(r) == Uncut(b, st, u);
  }

  /** Sorting the branches does not change the choice. */
  lemma SameChoice(b: Block, st: State, xs: seq<nat>, ys: seq<nat>)
    requires Elems(xs) == Elems(ys)
    ensures UncutByBest(b, st, xs) ==> UncutByBest(b, st, ys)
    ensures TouchingOnly(b, st, xs) ==> TouchingOnly(b, st, ys)
  {
    assert forall v :: v in xs <==> v in Elems(xs);
    assert forall v :: v in ys <==> v in Elems(ys);
  }

  ghost predicate CanJoin(b: Block, st: State, c: nat) {
    st.Pending(b) && st.Open(b, c) && c in st.cands && Touches(b.g, st.S(b), b.sub[c])
  }

  /** `next` has one more member, counted. */
  ghost predicate Joined(b: Block, st: State, c: nat, next: State) {
    && c < |st.status| && next.kplex == st.kplex + [c] && next.status == st.status[c := IN_KPLEX]
    && next.cands == st.cands && next.excluded == st.excluded
    && Tallied(b, next.counters, next.nonNeighs, st.kplex + [c], [], 0)
  }

  lemma AddedIsPending(b: Block, c: nat, st: State, next: State)
    requires CanJoin(b, st, c) && Joined(b, st, c, next)
    ensures next.Pending(b) && next.S(b) == st.S(b) + {b.sub[c]}
  {
    st.AddKeepsPending(b, c, next);
  }

  /** Every member that misses `v` can miss one more. */
  ghost predicate EachFits(b: Block, st: State, v: nat) {
    forall x | x in st.S(b) && !b.g.Adj(v, x) :: |Non(b.g, st.S(b), x)| + 1 <= b.k
  }

  lemma MisfitFound(b: Block, st: State, i: nat, v: nat)
    requires st.Counted(b) && i < |st.kplex| && !b.g.Adj(v, b.sub[st.kplex[i]])
    requires st.counters[st.kplex[i]] + 1 > b.k
    ensures !EachFits(b, st, v)
  {
    st.ScanMember(b, i, v);
  }

  lemma FitsAll(b: Block, st: State, v: nat)
    requires st.Counted(b) && FitsFirst(b, st, |st.kplex|, v)
    ensures EachFits(b, st, v)
  {
    forall x | x in st.S(b) && !b.g.Adj(v, x)
      ensures |Non(b.g, st.S(b), x)| + 1 <= b.k
    {
      var i: nat :| i in st.kplex && i < |b.sub| && b.sub[i] == x;
      var t :| 0 <= t < |st.kplex| && st.kplex[t] == i;
      assert FitsOne(b, st, b.sub[st.kplex[t]], v);
    }
  }

  class Node {
    var kplex: seq<nat>
    var counters: seq<nat>
    var status: seq<nat>
    var nonNeighs: seq<nat>
    var cands: seq<nat>
    var excluded: seq<nat>

    ghost function Value(): State
      reads this
    {
      State(kplex, counters, status, nonNeighs, cands, excluded)
    }

    constructor ()
      ensures Value() == State([], [], [], [], [], [])
    {
      kplex, counters, status, nonNeighs, cands, excluded := [], [], [], [], [], [];
    }

    /** `child_node = node` */
    method Assign(other: Node)
      modifies this
      ensures Value() == old(other.Value())
    {
      kplex, counters, status := other.kplex, other.counters, other.status;
      nonNeighs, cands, excluded := other.nonNeighs, other.cands, other.excluded;
    }

    /** `CanAdd`: `idx` is a block index or, for the smaller vertices outside the
        block, the vertex itself. */
    method CanAdd(b: Block, idx: nat, isIndex: bool) returns (r: bool)
      requires Value().Counted(b)
      requires isIndex ==> idx < |b.sub| && (status[idx] == IN_KPLEX || idx !in kplex)
      requires !isIndex ==> b.g.Has(idx) && idx !in Value().S(b)
      ensures isIndex && status[idx] == IN_KPLEX ==> !r
      ensures isIndex && status[idx] != IN_KPLEX ==> r == Value().Open(b, idx)
      ensures !isIndex ==> r == Addable(b.g, b.k, Value().S(b), idx)
    {
      if isIndex && status[idx] == IN_KPLEX {
        return false;
      }
      var v := if isIndex then b.sub[idx] else idx;
      if isIndex {
        b.VContains(kplex, idx);
      }
      AddableIff(b.g, b.k, Value().S(b), v);
      r := FitsMembers(b, v);
    }

    /** The loop of `CanAdd`: the members that miss `v` can each miss one more, and they
        are few enough. */
    method FitsMembers(b: Block, v: nat) returns (r: bool)
      requires Value().Counted(b)
      ensures r <==> |Non(b.g, Value().S(b), v)| + 1 <= b.k && EachFits(b, Value(), v)
    {
      var vCnt := 1;
      ghost var st := Value();
      assert Non(b.g, b.V([]), v) == {};
      for i := 0 to |kplex|
        invariant vCnt == 1 + |Non(b.g, b.V(kplex[..i]), v)|
        invariant FitsFirst(b, st, i, v)
      {
        st.ScanMember(b, i, v);
        if !b.g.Adj(v, b.sub[kplex[i]]) {
          vCnt := vCnt + 1;
          if counters[kplex[i]] + 1 > b.k {
            MisfitFound(b, st, i, v);
            return false;
          }
        }
        FitsNext(b, st, i, v);
      }
      WholePrefix(kplex);
      FitsAll(b, st, v);
      return vCnt <= b.k;
    }

    method AddToKplex(b: Block, c: nat)
      requires CanJoin(b, Value(), c)
      modifies this
      ensures Value().Pending(b)
      ensures kplex == old(kplex) + [c] && Value().S(b) == old(Value().S(b)) + {b.sub[c]}
      ensures cands == old(cands) && excluded == old(excluded)
    {
      ghost var st := Value();
      st.PendingTally(b, c);
      kplex := kplex + [c];
      status := status[c := IN_KPLEX];
      CountMisses(b, c, st.kplex);
      AddedIsPending(b, c, st, Value());
    }

    /** The loop of `AddToKplex` over the indices that are not adjacent to `c`. */
    method CountMisses(b: Block, c: nat, ghost ks: seq<nat>)
      requires b.Valid() && c < |b.sub| && Tallied(b, counters, nonNeighs, ks, [], 0)
      modifies this`counters, this`nonNeighs
      ensures Tallied(b, counters, nonNeighs, ks + [c], [], 0)
    {
      TallyOpen(b, counters, nonNeighs, ks, c);
      for t := 0 to |b.nadj[c]|
        invariant Tallied(b, counters, nonNeighs, ks, b.nadj[c][..t], c)
      {
        var e := b.nadj[c][t];
        NadjEntry(b, c, t);
        TallyStep(b, counters, nonNeighs, ks, b.nadj[c][..t], c, e);
        if counters[e] < b.k {
          nonNeighs := nonNeighs[Slot(b.k, e) + counters[e] := c];
        }
        counters := counters[e := Wrap(counters[e] + 1)];
      }
      WholePrefix(b.nadj[c]);
      TallyDone(b, counters, nonNeighs, ks, c);
    }
  
    /** The first two loops of `UpdateCandAndExcl`: append to `excluded` what is still open. */
    method KeepExcluded(b: Block, xs: seq<nat>)
      requires Value().Counted(b) && NoDup(xs) && NoDup(excluded)
      requires forall i | i in xs :: i < |b.sub| && i !in kplex && status[i] != IN_KPLEX && i !in excluded
      modifies this`excluded, this`status
      ensures NoDup(excluded) && |status| == |b.sub|
      ensures forall i :: i in excluded <==> i in old(excluded) || (i in xs && Value().Open(b, i))
      ensures forall i | 0 <= i < |status| ::
          if i in xs then status[i] == IN_EXCL || status[i] == NO_STATUS else status[i] == old(status[i])
    {
      ghost var st := Value();
      for t := 0 to |xs|
        invariant NoDup(excluded) && |status| == |b.sub|
        invariant forall i :: i in excluded <==> i in st.excluded || (i in xs[..t] && st.Open(b, i))
        invariant forall i | 0 <= i < |status| ::
            if i in xs[..t] then status[i] == IN_EXCL || status[i] == NO_STATUS else status[i] == st.status[i]
      {
        var e := xs[t];
        assert e in xs && e !in xs[..t];
        PrefixStep(xs, t);
        var canAdd := CanAdd(b, e, true);
        if canAdd {
          excluded := excluded + [e];
          status := status[e := IN_EXCL];
        } else {
          status := status[e := NO_STATUS];
        }
      }
      WholePrefix(xs);
    }

    /** The last loop of `UpdateCandAndExcl`. */
    method KeepCands(b: Block, addBits: seq<bool>)
      requires Value().Counted(b) && Increasing(cands) && |addBits| == |b.sub|
      requires forall i | i in cands :: i < |b.sub| && (status[i] == IN_KPLEX || i !in kplex)
      modifies this`cands, this`status
      ensures Increasing(cands) && |status| == |b.sub|
      ensures forall i :: i in cands <==> i in old(cands) && old(Value()).Stays(b, addBits, i)
      ensures forall i | 0 <= i < |status| ::
          if i in old(cands) then status[i] == (if i in cands then IN_CAND else NO_STATUS)
          else status[i] == old(status[i])
    {
      ghost var st := Value();
      var cache := cands;
      cands := [];
      for t := 0 to |cache|
        invariant Increasing(cands) && |status| == |b.sub|
        invariant forall i :: i in cands <==> i in cache[..t] && st.Stays(b, addBits, i)
        invariant forall i | 0 <= i < |status| ::
            if i in cache[..t] then status[i] == (if i in cands then IN_CAND else NO_STATUS)
            else status[i] == st.status[i]
      {
        var e := cache[t];
        assert e in cache;
        IncreasingPrefix(cache, t);
        assert e !in cache[..t];
        IncreasingAppend(cands, e);
        var canAdd := false;
        if !addBits[e] {
          canAdd := CanAdd(b, e, true);
        }
        if canAdd {
          cands := cands + [e];
          status := status[e := IN_CAND];
        } else {
          status := status[e := NO_STATUS];
        }
      }
      WholePrefix(cache);
    }

    method UpdateCandAndExcl(b: Block, addToExcl: seq<nat>, addBits: seq<bool>)
      requires Value().Pending(b) && NoDup(addToExcl) && |addBits| == |b.sub|
      requires forall i: nat | i < |b.sub| :: addBits[i] <==> i in addToExcl
      requires forall i | i in addToExcl :: i in cands && i !in kplex
      modifies this`cands, this`excluded, this`status
      ensures Value().Inv(b)
      ensures forall i :: i in cands <==> i in old(cands) && i !in addToExcl && Value().Open(b, i)
    {
      ghost var st := Value();
      var excludedCache := excluded;
      excluded := [];
      KeepExcluded(b, excludedCache);
      KeepExcluded(b, addToExcl);
      KeepCands(b, addBits);
    }

    /** `Init`: the node of the block's first vertex alone. */
    method Init(b: Block)
      requires b.Valid()
      modifies this
      ensures Value().Inv(b)
      ensures kplex == [0] && (forall i :: i in cands <==> 1 <= i < |b.sub|)
    {
      kplex, cands, excluded := [0], [], [];
      counters := seq(|b.sub|, _ => 0);
      status := seq(|b.sub|, _ => NO_STATUS);
      SlotIsProduct(b.k, |b.sub|);
      nonNeighs := seq(b.k * |b.sub|, _ => 0);
      status := status[0 := IN_KPLEX];
      assert Tallied(b, counters, nonNeighs, [], [], 0) by {
        RoomForAll(b, nonNeighs);
      }
      CountMisses(b, 0, []);
      assert [] + [0] == [0];
      for i := 1 to |b.sub|
        invariant kplex == [0] && excluded == [] && Tallied(b, counters, nonNeighs, [0], [], 0)
        invariant Increasing(cands) && |status| == |b.sub|
        invariant forall x :: x in cands <==> 1 <= x < i
        invariant status[0] == IN_KPLEX
        invariant forall x | 1 <= x < |b.sub| :: status[x] == (if x < i then IN_CAND else NO_STATUS)
      {
        IncreasingAppend(cands, i);
        cands := cands + [i];
        status := status[i := IN_CAND];
      }
      SingletonState(b, Value());
    }

    /** `IsMaximal`: nothing in the block that the search would follow extends the k-plex. */
    method IsMaximal(b: Block) returns (r: bool)
      requires Value().Inv(b)
      ensures r == Stuck(b, Value())
    {
      ghost var st := Value();
      if |kplex| + 1 > b.k {
        StuckWhenFull(b, st);
        return |cands| == 0 && |excluded| == 0;
      }
      for t := 0 to |cands|
        invariant NoneTouches(b, st, st.cands[..t])
      {
        OpenTouches(b, st, cands[t]);
        if counters[cands[t]] != |kplex| {
          return false;
        }
        PrefixStep(st.cands, t);
      }
      for t := 0 to |excluded|
        invariant NoneTouches(b, st, st.excluded[..t])
      {
        OpenTouches(b, st, excluded[t]);
        if counters[excluded[t]] != |kplex| {
          return false;
        }
        PrefixStep(st.excluded, t);
      }
      WholePrefix(st.cands);
      WholePrefix(st.excluded);
      StuckWhenApart(b, st);
      return true;
    }

    method CanPrune(q: nat) returns (r: bool)
      ensures r == (|cands| + |kplex| < q)
    {
      r := |cands| + |kplex| < q;
    }

    method HasUniversalInExcl(b: Block) returns (r: bool)
      requires Value().Inv(b)
      ensures r == exists u :: u in excluded && Universal(b, Value(), u)
    {
      ghost var st := Value();
      for t := 0 to |excluded|
        invariant forall u | u in st.excluded[..t] :: !Universal(b, st, u)
      {
        var u := excluded[t];
        PrefixStep(st.excluded, t);
        UniversalIff(b, st, u);
        if counters[u] != 0 {
          continue;
        }
        var isUniversal := true;
        for j := 0 to |b.nadj[u]|
          invariant isUniversal && NoCandAmong(st, b.nadj[u][..j])
        {
          assert b.nadj[u][j] in b.nadj[u];
          PrefixStep(b.nadj[u], j);
          if status[b.nadj[u][j]] != IN_CAND {
            continue;
          }
          isUniversal := false;
          break;
        }
        WholePrefix(b.nadj[u]);
        if isUniversal {
          return true;
        }
      }
      WholePrefix(st.excluded);
      return false;
    }

    /** The test at the heart of `not_cuts`: is `v` next to the pivot `u` and to every
        member that `u` misses? */
    method IsCut(b: Block, u: nat, v: nat) returns (ok: bool)
      requires Value().Inv(b) && (u in cands || u in excluded) && v < |b.sub|
      ensures ok == !NotCut(b, Value(), u, v)
    {
      assert Value().Open(b, u);
      if !b.g.Adj(b.sub[u], b.sub[v]) {
        return false;
      }
      NotCutIff(b, Value(), u, v);
      SlotsOf(b, Value(), u);
      ListedAreIndices(b, b.NonList(kplex, u));
      ok := SeesAllMissed(b, u, v, b.NonList(kplex, u));
    }

    /** `v` is adjacent to every member that `u` is not adjacent to. */
    method SeesAllMissed(b: Block, u: nat, v: nat, ghost l: seq<nat>) returns (ok: bool)
      requires b.Valid() && u < |counters| && counters[u] == |l| <= b.k && v < |b.sub|
      requires SlotsAre(nonNeighs, b.k, u, l) && b.Indices(l)
      ensures ok <==> SeesFirst(b, v, l, |l|)
    {
      for i := 0 to counters[u]
        invariant SeesFirst(b, v, l, i)
      {
        SlotHolds(b, nonNeighs, u, l, i);
        SeesNext(b, v, l, i);
        if !b.g.Adj(b.sub[v], b.sub[nonNeighs[Slot(b.k, u) + i]]) {
          return false;
        }
      }
      return true;
    }

    /** `not_cuts`: the candidates that the pivot `u` does not cut, in the order found. */
    method NotCuts(b: Block, u: nat) returns (r: seq<nat>)
      requires Value().Inv(b) && (u in cands || u in excluded)
      ensures NoDup(r) && forall v :: v in r <==> v in cands && NotCut(b, Value(), u, v)
    {
      ghost var st := Value();
      r := [];
      if b.k != 1 {
        for t := 0 to |cands|
          invariant NoDup(r) && forall v :: v in r <==> v in st.cands[..t] && NotCut(b, st, u, v)
        {
          IncreasingPrefix(st.cands, t);
          var v := cands[t];
          assert v in st.cands;
          var cut := IsCut(b, u, v);
          if !cut {
            r := r + [v];
          }
        }
        WholePrefix(st.cands);
      } else {
        r := MissedCands(b, u);
        forall v
          ensures v in st.cands && v in b.nadj[u] <==> v in st.cands && NotCut(b, st, u, v)
        {
          CliquePivot(b, st, u, v);
        }
      }
    }

    method MissedCands(b: Block, u: nat) returns (r: seq<nat>)
      requires Value().Inv(b) && u < |b.sub|
      ensures NoDup(r) && forall v :: v in r <==> v in cands && v in b.nadj[u]
    {
      ghost var l, cs := b.nadj[u], cands;
      r := [];
      for t := 0 to |b.nadj[u]|
        invariant NoDup(r) && forall v :: v in r <==> v in cs && v in l[..t]
      {
        NadjEntry(b, u, t);
        var v := b.nadj[u][t];
        assert status[v] == IN_CAND <==> v in cs;
        if status[v] == IN_CAND {
          r := r + [v];
        }
      }
      WholePrefix(l);
    }

    /** How many other candidates `u` misses. */
    method CountCandMisses(b: Block, u: nat) returns (n: nat)
      requires Value().Inv(b) && u in cands
      ensures n == |CandMisses(b, Value(), u)|
      ensures u < |b.sub| == |counters| && (n == 0 && counters[u] == 0 <==> Universal(b, Value(), u))
    {
      ghost var st := Value();
      UniversalCandIff(b, st, u);
      ghost var l := b.nadj[u];
      assert CandMissesAmong(b, st, u, []) == {};
      n := 0;
      for j := 0 to |b.nadj[u]|
        invariant n == |CandMissesAmong(b, st, u, l[..j])|
      {
        var v := b.nadj[u][j];
        NadjEntry(b, u, j);
        MissesStep(b, st, u, l[..j], v);
        if status[v] == IN_CAND && u != v {
          n := n + 1;
        }
      }
      WholePrefix(l);
    }

    /** The first loop of `GetCands`. */
    method FindUniversals(b: Block) returns (universals: seq<nat>, candCounters: seq<nat>)
      requires Value().Inv(b)
      ensures Increasing(universals) && forall u :: u in universals <==> u in cands && Universal(b, Value(), u)
      ensures |candCounters| == |b.sub|
      ensures forall x | x in cands :: x < |b.sub| && candCounters[x] == |CandMisses(b, Value(), x)|
    {
      ghost var st := Value();
      universals := [];
      candCounters := seq(|b.sub|, _ => 0);
      for t := 0 to |cands|
        invariant |candCounters| == |b.sub| && Increasing(universals)
        invariant forall x | x in st.cands[..t] :: x < |b.sub| && candCounters[x] == |CandMisses(b, st, x)|
        invariant forall x :: x in universals <==> x in st.cands[..t] && Universal(b, st, x)
      {
        var u := cands[t];
        IncreasingPrefix(st.cands, t);
        var n := CountCandMisses(b, u);
        candCounters := candCounters[u := n];
        if counters[u] == 0 && candCounters[u] == 0 {
          IncreasingAppend(universals, u);
          universals := universals + [u];
        }
      }
      WholePrefix(st.cands);
    }

    /** The pivot that leaves the fewest candidates uncut. */
    method BestPivot(b: Block) returns (best: nat)
      requires Value().Inv(b) && |cands| > 0
      ensures best in cands || best in excluded
      ensures forall u | u in cands || u in excluded :: |Uncut(b, Value(), best)| <= |Uncut(b, Value(), u)|
    {
      ghost var st := Value();
      var bestNotCuts;
      best, bestNotCuts := BetterPivot(b, cands, UncutCounts(b, st, cands), cands[0], |cands|);
      ghost var best1, least1 := best, bestNotCuts;
      best, bestNotCuts := BetterPivot(b, excluded, UncutCounts(b, st, excluded), best, bestNotCuts);
      PivotIsBest(b, st, best1, least1, best, bestNotCuts);
    }

    /** One of the two loops over possible pivots. */
    method BetterPivot(b: Block, us: seq<nat>, ghost counts: seq<nat>, best0: nat, notCuts0: nat)
        returns (best: nat, notCuts: nat)
      requires Value().Inv(b) && (forall u | u in us :: u in cands || u in excluded)
      requires counts == UncutCounts(b, Value(), us)
      ensures Improves(us, counts, best0, notCuts0, best, notCuts)
    {
      ghost var st := Value();
      best, notCuts := best0, notCuts0;
      for t := 0 to |us|
        invariant Improves(us[..t], counts[..t], best0, notCuts0, best, notCuts)
      {
        var n := CountUncut(b, us[t]);
        ImprovesMore(us, counts, best0, notCuts0, best, notCuts, t, n);
        if n < notCuts {
          best, notCuts := us[t], n;
        }
      }
      WholePrefix(us);
      WholePrefix(counts);
    }

    method CountUncut(b: Block, u: nat) returns (n: nat)
      requires Value().Inv(b) && (u in cands || u in excluded)
      ensures n == |Uncut(b, Value(), u)|
    {
      var r := NotCuts(b, u);
      UncutSize(b, Value(), u, r);
      n := |r|;
    }

    /** Without pivot: the candidates next to the k-plex. */
    method TouchingCands(b: Block) returns (r: seq<nat>)
      requires Value().Inv(b)
      ensures Branches(b, Value(), r) && TouchingOnly(b, Value(), r)
    {
      ghost var st := Value();
      r := [];
      for t := 0 to |cands|
        invariant NoDup(r)
        invariant forall v: nat :: v in r <==>
            v in st.cands[..t] && v < |b.sub| && Touches(b.g, st.S(b), b.sub[v])
      {
        IncreasingPrefix(st.cands, t);
        OpenTouches(b, st, cands[t]);
        if counters[cands[t]] != |kplex| {
          r := r + [cands[t]];
        }
      }
      WholePrefix(st.cands);
      ConnectedBranches(b, st, r);
    }

    /** `GetCands`: the universal candidates and, if there is none, the branches to
        follow, those that miss most first. */
    method GetCands(b: Block, enablePivoting: bool) returns (universals: seq<nat>, realCands: seq<nat>)
      requires Value().Inv(b)
      ensures Increasing(universals) && forall u :: u in universals <==> u in cands && Universal(b, Value(), u)
      ensures universals != [] ==> realCands == []
      ensures universals == [] ==> Branches(b, Value(), realCands)
      ensures universals == [] ==> forall i, j | 0 <= i < j < |realCands| ::
          Weight(b, Value(), realCands[i]) >= Weight(b, Value(), realCands[j])
      ensures universals == [] && cands != [] ==>
          if enablePivoting && |kplex| >= b.k then UncutByBest(b, Value(), realCands) else TouchingOnly(b, Value(), realCands)
    {
      ghost var st := Value();
      realCands := [];
      if |cands| == 0 {
        NoCandsNoGoal(b, st);
        return [], [];
      }
      var candCounters;
      universals, candCounters := FindUniversals(b);
      if |universals| != 0 {
        return;
      }
      if enablePivoting && |kplex| + 1 > b.k {
        MembersCount(b, kplex);
        var best := BestPivot(b);
        realCands := NotCuts(b, best);
        PivotBranches(b, st, best, realCands);
        UncutListed(b, st, best, realCands);
      } else {
        realCands := TouchingCands(b);
      }
      ghost var unsorted := realCands;
      realCands := MostMissingFirst(b, realCands, candCounters);
      SameChoice(b, st, unsorted, realCands);
    }

    method MostMissingFirst(b: Block, unsorted: seq<nat>, candCounters: seq<nat>) returns (r: seq<nat>)
      requires Value().Inv(b) && Branches(b, Value(), unsorted) && |candCounters| == |b.sub|
      requires forall x | x in cands :: x < |b.sub| && candCounters[x] == |CandMisses(b, Value(), x)|
      ensures Branches(b, Value(), r) && Elems(r) == Elems(unsorted)
      ensures forall i, j | 0 <= i < j < |r| :: Weight(b, Value(), r[i]) >= Weight(b, Value(), r[j])
    {
      ghost var st := Value();
      var keys := AddUp(counters, candCounters);
      KeysAreWeights(b, st, keys, candCounters);
      r := SortDescending(unsorted, keys);
      BranchesPermute(b, st, unsorted, r);
      SameMultiset(unsorted, r);
      assert forall i | 0 <= i < |r| :: r[i] in st.cands;
    }

    method HaveCommon(b: Block, u: nat, v: nat) returns (r: bool)
      requires Value().Inv(b) && u < |b.sub| && v < |b.sub|
      ensures r == Linked(b.g, Value().S(b), b.sub[u], b.sub[v])
    {
      ghost var s := Value().S(b);
      for t := 0 to |kplex|
        invariant forall x | x in kplex[..t] :: x < |b.sub| && !(b.g.Adj(b.sub[u], b.sub[x]) && b.g.Adj(b.sub[v], b.sub[x]))
      {
        PrefixStep(kplex, t);
        b.VContains(kplex, kplex[t]);
        if b.g.Adj(b.sub[u], b.sub[kplex[t]]) && b.g.Adj(b.sub[v], b.sub[kplex[t]]) {
          return true;
        }
      }
      WholePrefix(kplex);
      return false;
    }

    method HasDiameterTwo(b: Block) returns (r: bool)
      requires Value().Inv(b)
      ensures r == DiamTest(b.g, b.k, Value().S(b))
      ensures r <==> DiamTwo(b.g, Value().S(b)) && (b.k <= 2 || |kplex| >= 2)
    {
      ghost var s, ks := Value().S(b), kplex;
      MembersCount(b, kplex);
      NodeDiamTest(b, Value());
      if |kplex| + 2 > 2 * b.k {
        return true;
      }
      if b.k == 2 {
        return true;
      }
      for i := 0 to |kplex|
        invariant forall x | x in ks[..i] :: CloseToAll(b, s, ks, x)
      {
        PrefixStep(ks, i);
        var close := IsCloseToAll(b, kplex[i]);
        if !close {
          FarIsNotSpread(b, ks, kplex[i]);
          return false;
        }
      }
      WholePrefix(ks);
      return true;
    }

    /** The inner loop of `HasDiameterTwo`. */
    method IsCloseToAll(b: Block, v: nat) returns (r: bool)
      requires Value().Inv(b) && v in kplex && v < |b.sub|
      ensures r == CloseToAll(b, Value().S(b), kplex, v)
    {
      ghost var s, ks := Value().S(b), kplex;
      for j := 0 to |kplex|
        invariant CloseToAll(b, s, ks[..j], v)
      {
        var u := kplex[j];
        PrefixStep(ks, j);
        if b.g.Adj(b.sub[u], b.sub[v]) {
          continue;
        }
        var haveCommon := HaveCommon(b, u, v);
        if !haveCommon {
          return false;
        }
      }
      WholePrefix(ks);
      return true;
    }

    /** `IsReallyMaximal`: the filter on reported nodes. */
    method IsReallyMaximal(b: Block, q: nat) returns (r: bool)
      requires Value().Inv(b)
      ensures r == (|kplex| >= q && DiamTest(b.g, b.k, Value().S(b)) &&
                    Blocked(b.g, b.k, b.Members(), b.sub[0], Value().S(b)))
    {
      ghost var st := Value();
      StuckIsBlocked(b, st);
      var maximal := IsMaximal(b);
      if !maximal {
        return false;
      }
      if |kplex| < q {
        return false;
      }
      var close := HasDiameterTwo(b);
      if !close {
        return false;
      }
      r := NoneBelowExtends(b);
      ghost var n := if |kplex| < b.k then |kplex| else b.k;
      if r {
        NoneSmaller(b, st, n);
      } else {
        SmallerIsSeen(b, st, n);
      }
    }

    /** The last loop of `IsReallyMaximal`: the neighbours of the first `k` members. */
    method NoneBelowExtends(b: Block) returns (r: bool)
      requires Value().Inv(b)
      ensures r == Scanned(b, Value(), kplex[..if |kplex| < b.k then |kplex| else b.k])
    {
      ghost var st := Value();
      ghost var n := if |kplex| < b.k then |kplex| else b.k;
      var i := 0;
      while i < b.k && i < |kplex|
        invariant i <= n && ScannedFirst(b, st, i)
      {
        MemberIndex(b, st, i);
        var found := SmallerExtension(b, kplex[i]);
        ScanNext(b, st, i);
        if found {
          NotScanned(b, st, n, i);
          return false;
        }
        i := i + 1;
      }
      return true;
    }

    /** The inner loop of `IsReallyMaximal`: does a neighbour of member `x` below the
        block extend the k-plex? */
    method SmallerExtension(b: Block, x: nat) returns (found: bool)
      requires Value().Inv(b) && x in kplex && x < |b.sub|
      ensures found == !NoSmaller(b, Value(), x)
    {
      ghost var st := Value();
      ghost var l := b.g.adj[b.sub[x]];
      for t := 0 to |b.g.adj[b.sub[x]]|
        invariant forall w | w in l[..t] :: w < b.sub[0] && !Addable(b.g, b.k, st.S(b), w)
      {
        var n := b.g.adj[b.sub[x]][t];
        PrefixStep(l, t);
        assert b.g.Adj(b.sub[x], n);
        if n >= b.sub[0] {
          assert forall w | w in l && w < b.sub[0] :: w in l[..t];
          return false;
        }
        SmallerIsOutside(b, st.kplex, n);
        var canAdd := CanAdd(b, n, false);
        if canAdd {
          return true;
        }
      }
      WholePrefix(l);
      return false;
    }
  }

  lemma NodeDiamTest(b: Block, st: State)
    requires st.Inv(b)
    ensures DiamTest(b.g, b.k, st.S(b)) <==> DiamTwo(b.g, st.S(b)) && (b.k <= 2 || |st.kplex| >= 2)
  {
    MembersCount(b, st.kplex);
    b.VContains(st.kplex, 0);
    DiamTestIff(b.g, b.k, st.S(b));
    if |st.S(b)| == 2 {
      PairIsClose(b, st);
    }
  }

  ghost predicate CloseToAll(b: Block, s: set<nat>, xs: seq<nat>, v: nat) {
    && v < |b.sub|
    && forall u | u in xs :: u < |b.sub| && (b.g.Adj(b.sub[u], b.sub[v]) || Linked(b.g, s, b.sub[u], b.sub[v]))
  }

  lemma FarIsNotSpread(b: Block, ks: seq<nat>, v: nat)
    requires b.Valid() && b.Indices(ks) && v in ks && v < |b.sub| && !CloseToAll(b, b.V(ks), ks, v)
    ensures !Spread(b.g, b.V(ks))
  {
    var u :| u in ks && !(b.g.Adj(b.sub[u], b.sub[v]) || Linked(b.g, b.V(ks), b.sub[u], b.sub[v]));
    b.VContains(ks, u);
    b.VContains(ks, v);
  }

  /** No neighbour of member `x` below the block extends the k-plex. */
  ghost predicate NoSmaller(b: Block, st: State, x: nat) {
    x < |b.sub| && forall w | b.g.Adj(b.sub[x], w) && w < b.sub[0] :: !Addable(b.g, b.k, st.S(b), w)
  }

  lemma SmallerIsOutside(b: Block, ks: seq<nat>, n: nat)
    requires b.Valid() && n < b.sub[0]
    ensures b.g.Has(n) && n !in b.V(ks)
  {
  }

  lemma StuckIsBlocked(b: Block, st: State)
    requires st.Inv(b)
    ensures !Stuck(b, st) ==> !Blocked(b.g, b.k, b.Members(), b.sub[0], st.S(b))
    ensures |st.kplex| == |st.S(b)|
  {
    MembersCount(b, st.kplex);
    if !Stuck(b, st) {
      var i: nat :| st.Open(b, i) && !(|st.S(b)| < b.k && !Touches(b.g, st.S(b), b.sub[i]));
      assert b.sub[i] in b.Members();
    }
  }

  lemma SmallerIsSeen(b: Block, st: State, n: nat)
    requires st.Inv(b) && n <= |st.kplex| && !Scanned(b, st, st.kplex[..n])
    ensures !Blocked(b.g, b.k, b.Members(), b.sub[0], st.S(b))
  {
    var x :| x in st.kplex[..n] && !NoSmaller(b, st, x);
    assert x in st.kplex && x < |b.sub|;
    var w: nat :| b.g.Adj(b.sub[x], w) && w < b.sub[0] && Addable(b.g, b.k, st.S(b), w);
    b.VContains(st.kplex, x);
    assert b.g.Adj(w, b.sub[x]);
    assert Touches(b.g, st.S(b), w);
  }

  ghost predicate Scanned(b: Block, st: State, xs: seq<nat>) {
    forall x | x in xs :: NoSmaller(b, st, x)
  }

  ghost predicate ScannedFirst(b: Block, st: State, n: nat) {
    n <= |st.kplex| && Scanned(b, st, st.kplex[..n])
  }

  lemma MemberIndex(b: Block, st: State, i: nat)
    requires st.Members(b) && i < |st.kplex|
    ensures st.kplex[i] in st.kplex && st.kplex[i] < |b.sub|
  {
  }

  lemma ScanNext(b: Block, st: State, i: nat)
    requires ScannedFirst(b, st, i) && i < |st.kplex|
    ensures NoSmaller(b, st, st.kplex[i]) ==> ScannedFirst(b, st, i + 1)
  {
    PrefixStep(st.kplex, i);
  }

  lemma NotScanned(b: Block, st: State, n: nat, i: nat)
    requires i < n <= |st.kplex| && !NoSmaller(b, st, st.kplex[i])
    ensures !Scanned(b, st, st.kplex[..n])
  {
    assert st.kplex[..n][i] == st.kplex[i];
  }

  /** Scanning the neighbours of the first `k` members misses no smaller extension. */
  lemma NoneSmaller(b: Block, st: State, n: nat)
    requires st.Inv(b) && Stuck(b, st) && n <= |st.kplex| && (n == b.k || n == |st.kplex|)
    requires Scanned(b, st, st.kplex[..n])
    ensures Blocked(b.g, b.k, b.Members(), b.sub[0], st.S(b))
  {
    MembersCount(b, st.kplex);
    forall w: nat | Addable(b.g, b.k, st.S(b), w) && (w in b.Members() || w < b.sub[0])
      ensures |st.S(b)| < b.k && !Touches(b.g, st.S(b), w)
    {
      if w in b.Members() {
        StuckBlocksMembers(b, st, w);
      } else {
        SmallerUnseen(b, st, n, w);
      }
    }
  }

  lemma SmallerUnseen(b: Block, st: State, n: nat, w: nat)
    requires st.Inv(b) && n <= |st.kplex| == |st.S(b)| && (n == b.k || n == |st.kplex|)
    requires w < b.sub[0] && Addable(b.g, b.k, st.S(b), w) && Scanned(b, st, st.kplex[..n])
    ensures |st.S(b)| < b.k && !Touches(b.g, st.S(b), w)
  {
    var ks := st.kplex[..n];
    UnseenBySome(b, st, ks, w);
    if n == b.k {
      assert b.Indices(ks);
      MembersCount(b, ks);
      assert b.V(ks) <= st.S(b);
      ExtensionSeesMembers(b.g, b.k, st.S(b), w, b.V(ks));
    } else {
      assert ks == st.kplex;
      if |ks| >= b.k {
        ExtensionSeesMembers(b.g, b.k, st.S(b), w, st.S(b));
      }
    }
  }

  lemma UnseenBySome(b: Block, st: State, ks: seq<nat>, w: nat)
    requires b.g.Valid() && |b.sub| > 0 && w < b.sub[0] && Addable(b.g, b.k, st.S(b), w) && Scanned(b, st, ks)
    ensures !Touches(b.g, b.V(ks), w)
  {
    if Touches(b.g, b.V(ks), w) {
      assert false;
    }
  }

  function AddUp(a: seq<nat>, c: seq<nat>): (r: seq<nat>)
    requires |a| == |c|
    ensures |r| == |a| && forall i | 0 <= i < |a| :: r[i] == a[i] + c[i]
  {
    seq(|a|, i requires 0 <= i < |a| => a[i] + c[i])
  }

  lemma KeysAreWeights(b: Block, st: State, keys: seq<nat>, cc: seq<nat>)
    requires st.Inv(b) && |keys| == |cc| == |b.sub| == |st.counters|
    requires forall i | 0 <= i < |keys| :: keys[i] == st.counters[i] + cc[i]
    requires forall x | x in st.cands :: x < |b.sub| && cc[x] == |CandMisses(b, st, x)|
    ensures forall x | x in st.cands :: x < |b.sub| && keys[x] == Weight(b, st, x)
  {
    forall x | x in st.cands
      ensures x < |b.sub| && keys[x] == Weight(b, st, x)
    {
      SlotsOf(b, st, x);
    }
  }

  function Key(keys: seq<nat>, x: nat): nat {
    if x < |keys| then keys[x] else 0
  }

  predicate Descending(r: seq<nat>, keys: seq<nat>) {
    |r| <= 1 || (Key(keys, r[0]) >= Key(keys, r[1]) && Descending(r[1..], keys))
  }

  function Insert(r: seq<nat>, x: nat, keys: seq<nat>): (t: seq<nat>)
    requires Descending(r, keys)
    ensures multiset(t) == multiset(r) + multiset{x} && Descending(t, keys)
    ensures |t| > 0 && (t[0] == x || (r != [] && t[0] == r[0]))
  {
    if r == [] || Key(keys, x) > Key(keys, r[0]) then
      [x] + r
    else
      assert r == [r[0]] + r[1..];
      var rest := Insert(r[1..], x, keys);
      assert ([r[0]] + rest)[1..] == rest;
      [r[0]] + rest
  }

  lemma DescendingPairs(r: seq<nat>, keys: seq<nat>, i: nat, j: nat)
    requires Descending(r, keys) && i < j < |r|
    ensures Key(keys, r[i]) >= Key(keys, r[j])
  {
    if i > 0 {
      DescendingPairs(r[1..], keys, i - 1, j - 1);
    } else if j > 1 {
      DescendingPairs(r[1..], keys, 0, j - 1);
    }
  }

  /** `std::sort` by decreasing key; callers learn nothing about the order of ties. */
  method SortDescending(xs: seq<nat>, keys: seq<nat>) returns (r: seq<nat>)
    ensures multiset(r) == multiset(xs)
    ensures forall i: nat, j: nat | i < j < |r| :: Key(keys, r[i]) >= Key(keys, r[j])
  {
    r := [];
    for n := 0 to |xs|
      invariant multiset(r) == multiset(xs[..n]) && Descending(r, keys)
    {
      PrefixStep(xs, n);
      r := Insert(r, xs[n], keys);
    }
    WholePrefix(xs);
    forall i: nat, j: nat | i < j < |r|
      ensures Key(keys, r[i]) >= Key(keys, r[j])
    {
      DescendingPairs(r, keys, i, j);
    }
  }

  ghost function CandMissesAmong(b: Block, st: State, u: nat, among: seq<nat>): set<nat> {
    set v | v in among && v in st.cands && v != u
  }

  ghost function CandMisses(b: Block, st: State, u: nat): set<nat> {
    set v | v in st.cands && v != u && b.Apart(u, v)
  }

  /** How many members and candidates `u` misses. */
  ghost function Weight(b: Block, st: State, u: nat): nat {
    |b.NonList(st.kplex, u)| + |CandMisses(b, st, u)|
  }

  lemma MissesStep(b: Block, st: State, u: nat, among: seq<nat>, v: nat)
    requires v !in among
    ensures |CandMissesAmong(b, st, u, among + [v])|
         == |CandMissesAmong(b, st, u, among)| + (if v in st.cands && v != u then 1 else 0)
  {
    if v in st.cands && v != u {
      assert CandMissesAmong(b, st, u, among + [v]) == CandMissesAmong(b, st, u, among) + {v};
    } else {
      assert CandMissesAmong(b, st, u, among + [v]) == CandMissesAmong(b, st, u, among);
    }
  }

  lemma UniversalCandIff(b: Block, st: State, u: nat)
    requires st.Inv(b) && u in st.cands
    ensures u < |b.sub| && CandMissesAmong(b, st, u, b.nadj[u]) == CandMisses(b, st, u)
    ensures Universal(b, st, u) <==> st.counters[u] == 0 && |CandMisses(b, st, u)| == 0
  {
    OpenTouches(b, st, u);
    if Universal(b, st, u) {
      assert CandMisses(b, st, u) == {};
    }
    if |CandMisses(b, st, u)| == 0 {
      forall i | i in st.cands
        ensures i == u || !b.Apart(u, i)
      {
        assert i !in CandMisses(b, st, u);
      }
    }
  }

  lemma NoCandsNoGoal(b: Block, st: State)
    requires st.Inv(b) && st.cands == []
    ensures Branches(b, st, [])
  {
    forall m: set<nat> | Goal(b, st, m)
      ensures Meets(b, [], m)
    {
      var c := GoalCrosses(b, st, m);
    }
  }

  /** `v` is adjacent to the first `n` of the indices in `l`. */
  ghost predicate SeesFirst(b: Block, v: nat, l: seq<nat>, n: nat) {
    n <= |l| && forall x: nat | x < n :: !b.Apart(v, l[x])
  }

  lemma SeesNext(b: Block, v: nat, l: seq<nat>, n: nat)
    requires n < |l| && v < |b.sub| && l[n] < |b.sub| && SeesFirst(b, v, l, n)
    ensures b.g.Adj(b.sub[v], b.sub[l[n]]) ==> SeesFirst(b, v, l, n + 1)
    ensures !b.g.Adj(b.sub[v], b.sub[l[n]]) ==> !SeesFirst(b, v, l, |l|)
  {
  }

  lemma ListedAreIndices(b: Block, l: seq<nat>)
    requires forall j | j in l :: j < |b.sub|
    ensures b.Indices(l)
  {
    assert forall t | 0 <= t < |l| :: l[t] in l;
  }

  lemma SlotHolds(b: Block, slots: seq<nat>, u: nat, l: seq<nat>, i: nat)
    requires SlotsAre(slots, b.k, u, l) && b.Indices(l) && i < |l| <= b.k
    ensures Slot(b.k, u) + i < |slots| && slots[Slot(b.k, u) + i] == l[i] && l[i] < |b.sub|
  {
  }

  lemma SlotsOf(b: Block, st: State, u: nat)
    requires st.Inv(b) && (u in st.cands || u in st.excluded)
    ensures u < |b.sub| && st.counters[u] == |b.NonList(st.kplex, u)| <= b.k
    ensures SlotsAre(st.nonNeighs, b.k, u, b.NonList(st.kplex, u))
    ensures forall j | j in b.NonList(st.kplex, u) :: j < |b.sub|
  {
    assert st.Open(b, u);
    st.CounterIs(b, u);
    st.MemberCount(b, u);
    b.NonListMembers(st.kplex, u);
    assert Row(b, st.counters, st.nonNeighs, u, Partial(b, st.kplex, [], 0, u));
    assert Partial(b, st.kplex, [], 0, u) == b.NonList(st.kplex, u);
  }

  lemma NotCutIff(b: Block, st: State, u: nat, v: nat)
    requires !b.Apart(u, v)
    ensures NotCut(b, st, u, v) <==> !SeesFirst(b, v, b.NonList(st.kplex, u), |b.NonList(st.kplex, u)|)
  {
    b.NonListMembers(st.kplex, u);
    var l := b.NonList(st.kplex, u);
    if NotCut(b, st, u, v) {
      var w :| w in st.kplex && b.Apart(u, w) && b.Apart(v, w);
      assert w in l;
    }
    if x :| 0 <= x < |l| && b.Apart(v, l[x]) {
      assert l[x] in l;
    }
  }

  /** With k = 1 the k-plex is a clique and the pivot misses none of it. */
  lemma CliquePivot(b: Block, st: State, u: nat, v: nat)
    requires st.Inv(b) && b.k == 1 && (u in st.cands || u in st.excluded)
    ensures u < |b.sub|
    ensures v in st.cands ==> (v in b.nadj[u] <==> NotCut(b, st, u, v))
  {
    assert st.Open(b, u);
    AddableIff(b.g, b.k, st.S(b), b.sub[u]);
    OpenTouches(b, st, u);
  }

  lemma BranchesPermute(b: Block, st: State, cs: seq<nat>, ds: seq<nat>)
    requires Branches(b, st, cs) && multiset(cs) == multiset(ds)
    ensures Branches(b, st, ds)
  {
    SameMultiset(cs, ds);
    forall m: set<nat> | Goal(b, st, m)
      ensures Meets(b, ds, m)
    {
      assert Meets(b, cs, m);
    }
  }

  ghost predicate NoneTouches(b: Block, st: State, xs: seq<nat>) {
    forall i | i in xs :: i < |b.sub| && !Touches(b.g, st.S(b), b.sub[i])
  }

  ghost predicate NoCandAmong(st: State, xs: seq<nat>) {
    forall i | i in xs :: i !in st.cands
  }

  lemma StuckWhenFull(b: Block, st: State)
    requires st.Inv(b) && |st.kplex| >= b.k
    ensures Stuck(b, st) <==> st.cands == [] && st.excluded == []
  {
    MembersCount(b, st.kplex);
    if st.cands != [] {
      assert st.Open(b, st.cands[0]);
    } else if st.excluded != [] {
      assert st.Open(b, st.excluded[0]);
    }
  }

  lemma StuckWhenApart(b: Block, st: State)
    requires st.Inv(b) && |st.kplex| < b.k && NoneTouches(b, st, st.cands) && NoneTouches(b, st, st.excluded)
    ensures Stuck(b, st)
  {
    MembersCount(b, st.kplex);
  }

  lemma UniversalIff(b: Block, st: State, u: nat)
    requires st.Inv(b) && u in st.excluded
    ensures u < |b.sub|
    ensures Universal(b, st, u) <==> st.counters[u] == 0 && NoCandAmong(st, b.nadj[u])
  {
    OpenTouches(b, st, u);
    if Universal(b, st, u) {
      forall i | i in b.nadj[u]
        ensures i !in st.cands
      {
        assert b.Apart(u, i);
      }
    }
    if NoCandAmong(st, b.nadj[u]) {
      forall i | i in st.cands
        ensures !b.Apart(u, i)
      {
        assert i !in b.nadj[u];
      }
    }
  }

  lemma RoomForAll(b: Block, nn: seq<nat>)
    requires |nn| == Slot(b.k, |b.sub|)
    ensures forall i: nat | i < |b.sub| :: Slot(b.k, i) + b.k <= |nn|
  {
    forall i: nat | i < |b.sub|
      ensures Slot(b.k, i) + b.k <= |nn|
    {
      SlotsApart(b.k, i, |b.sub|);
    }
  }

  lemma SingletonState(b: Block, st: State)
    requires b.Valid() && st.kplex == [0] && st.excluded == [] && Increasing(st.cands)
    requires forall x :: x in st.cands <==> 1 <= x < |b.sub|
    requires |st.status| == |b.sub| && st.status[0] == IN_KPLEX
    requires forall x | 1 <= x < |b.sub| :: st.status[x] == IN_CAND
    requires Tallied(b, st.counters, st.nonNeighs, [0], [], 0)
    ensures st.Inv(b)
  {
    assert [0] == [] + [0];
    b.VAppend([], 0);
    assert b.V([]) == {};
    var s := st.S(b);
    assert s == {b.sub[0]} == {b.sub[0], b.sub[0]};
    PairIsKplex(b.g, b.k, b.sub[0], b.sub[0]);
    assert st.Members(b);
    forall i: nat | 1 <= i < |b.sub|
      ensures st.Open(b, i)
    {
      PairIsKplex(b.g, b.k, b.sub[0], b.sub[i]);
      assert s + {b.sub[i]} == {b.sub[0], b.sub[i]};
    }
    assert forall i: nat | st.Open(b, i) :: i in st.cands;
  }

  lemma PairIsKplex(g: Graph, k: nat, u: nat, v: nat)
    requires g.Valid() && g.Has(u) && g.Has(v) && k >= 1
    requires u == v || k >= 2 || g.Adj(u, v)
    ensures IsKplex(g, k, {u, v})
  {
    forall x | x in {u, v}
      ensures |Non(g, {u, v}, x)| <= k
    {
      SubsetCardinality(Non(g, {u, v}, x), {u, v});
      if k == 1 {
        SubsetCardinality(Non(g, {u, v}, x), {x});
      }
    }
  }

  lemma OpenTouches(b: Block, st: State, i: nat)
    requires st.Inv(b) && (i in st.cands || i in st.excluded)
    ensures st.Open(b, i) && i < |st.status|
    ensures i < |b.sub| == |st.counters| && st.counters[i] == |Non(b.g, st.S(b), b.sub[i])|
    ensures st.counters[i] == |st.kplex| <==> !Touches(b.g, st.S(b), b.sub[i])
    ensures st.counters[i] == 0 <==> forall j | j in st.kplex :: !b.Apart(i, j)
  {
    assert st.Open(b, i);
    st.MemberCount(b, i);
    MembersCount(b, st.kplex);
    AllMissed(b.g, st.S(b), b.sub[i]);
    if st.counters[i] == 0 {
      forall j | j in st.kplex
        ensures !b.Apart(i, j)
      {
        b.VContains(st.kplex, j);
        assert b.sub[j] !in Non(b.g, st.S(b), b.sub[i]);
      }
    } else {
      var x :| x in Non(b.g, st.S(b), b.sub[i]);
    }
  }
}
