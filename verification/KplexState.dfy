/** The value of one node of the k-plex search and its invariant
    (`Diam2KplexNodeImpl`, enumerable/diam2kplex.hpp). */
module KplexState {
  import opened Graphs
  import opened KplexTheory

  /** `uint8_t` counters wrap at 256. */
  function Wrap(x: nat): nat {
    x % 256
  }

  const NO_STATUS: nat := 0
  const IN_KPLEX: nat := 1
  const IN_CAND: nat := 2
  const IN_EXCL: nat := 3

  /** What every call on a node shares: the graph, the block of the current root
      (`subgraph`) and, for each block index, the indices it is not adjacent to. */
  datatype Block = Block(g: Graph, k: nat, sub: seq<nat>, nadj: seq<seq<nat>>) {

    ghost predicate Valid() {
      && g.Valid() && 1 <= k <= 255
      && ValidSubgraph(g, k, sub)
      && ValidComplement()
    }

    ghost predicate ValidComplement() {
      && |nadj| == |sub|
      && (forall i | 0 <= i < |nadj| :: Increasing(nadj[i]))
      && (forall i: nat, j: nat | i < |sub| :: j in nadj[i] <==> j < |sub| && Apart(i, j))
    }

    predicate Apart(i: nat, j: nat) {
      i < |sub| && j < |sub| && !g.Adj(sub[i], sub[j])
    }

    ghost predicate Indices(xs: seq<nat>) {
      forall t | 0 <= t < |xs| :: xs[t] < |sub|
    }

    /** The vertices behind a list of block indices. */
    ghost function V(xs: seq<nat>): set<nat> {
      set i: nat | i in xs && i < |sub| :: sub[i]
    }

    ghost function Members(): set<nat> {
      Elems(sub)
    }

    /** The members of `ks` that index `i` is not adjacent to, in the order of `ks`. */
    ghost function NonList(ks: seq<nat>, i: nat): seq<nat> {
      if ks == [] then []
      else
        var n := |ks| - 1;
        NonList(ks[..n], i) + (if Apart(i, ks[n]) then [ks[n]] else [])
    }

    lemma NonListAppend(ks: seq<nat>, c: nat, i: nat)
      ensures NonList(ks + [c], i) == NonList(ks, i) + (if Apart(i, c) then [c] else [])
    {
      assert (ks + [c])[..|ks|] == ks;
    }

    lemma IndicesAppend(xs: seq<nat>, c: nat)
      requires Indices(xs) && NoDup(xs) && c < |sub| && c !in xs
      ensures Indices(xs + [c]) && NoDup(xs + [c])
    {
      NoDupConcat(xs, [c]);
    }

    lemma VAppend(xs: seq<nat>, c: nat)
      requires c < |sub|
      ensures V(xs + [c]) == V(xs) + {sub[c]}
    {
      forall v | v in V(xs) + {sub[c]}
        ensures v in V(xs + [c])
      {
        if v == sub[c] {
          assert c in xs + [c];
        } else {
          var i: nat :| i in xs && i < |sub| && sub[i] == v;
          assert i in xs + [c];
        }
      }
    }

    lemma VContains(xs: seq<nat>, i: nat)
      requires NoDup(sub) && i < |sub|
      ensures i in xs <==> sub[i] in V(xs)
    {
    }

    lemma NonListMembers(ks: seq<nat>, i: nat)
      ensures forall j :: j in NonList(ks, i) <==> j in ks && Apart(i, j)
    {
      if ks != [] {
        var n := |ks| - 1;
        NonListMembers(ks[..n], i);
        assert ks == ks[..n] + [ks[n]];
      }
    }

    lemma NonListIsNon(ks: seq<nat>, i: nat)
      requires NoDup(sub) && i < |sub| && NoDup(ks) && Indices(ks)
      ensures |NonList(ks, i)| == |Non(g, V(ks), sub[i])|
    {
      if ks == [] {
        assert Non(g, V(ks), sub[i]) == {};
      } else {
        var n := |ks| - 1;
        var pre, c := ks[..n], ks[n];
        NonListIsNon(pre, i);
        assert c !in pre;
        NonListLast(pre, c, i);
        assert ks == pre + [c];
      }
    }

    lemma NonListLast(pre: seq<nat>, c: nat, i: nat)
      requires NoDup(sub) && i < |sub| && c < |sub| && c !in pre
      requires |NonList(pre, i)| == |Non(g, V(pre), sub[i])|
      ensures |NonList(pre + [c], i)| == |Non(g, V(pre + [c]), sub[i])|
    {
      VAppend(pre, c);
      NonListAppend(pre, c, i);
      VContains(pre, c);
      NonExtend(g, V(pre), sub[c], sub[i]);
    }
  }

  ghost predicate ValidSubgraph(g: Graph, k: nat, sub: seq<nat>) {
    && |sub| >= 1 && NoDup(sub)
    && (forall i | 0 <= i < |sub| :: g.Has(sub[i]))
    && (forall i | 1 <= i < |sub| :: sub[0] < sub[i])
    && (k == 1 ==> forall i | 1 <= i < |sub| :: g.Adj(sub[0], sub[i]))
  }

  /** `k * i`, the offset of index `i` in `non_neighs`. */
  function Slot(k: nat, i: nat): nat {
    if i == 0 then 0 else Slot(k, i - 1) + k
  }

  lemma SlotIsProduct(k: nat, i: nat)
    ensures Slot(k, i) == k * i
  {
    if i > 0 {
      SlotIsProduct(k, i - 1);
      assert k * i == k * (i - 1) + k;
    }
  }

  lemma SlotsApart(k: nat, i: nat, j: nat)
    requires i < j
    ensures Slot(k, i) + k <= Slot(k, j)
  {
    if j > i + 1 {
      SlotsApart(k, i, j - 1);
    }
  }

  /** The slots of index `i` in `non_neighs` start with the list `l`. */
  ghost predicate SlotsAre(slots: seq<nat>, k: nat, i: nat, l: seq<nat>) {
    Slot(k, i) + k <= |slots| && forall t: nat | t < |l| && t < k :: slots[Slot(k, i) + t] == l[t]
  }

  lemma SlotWrite(slots: seq<nat>, k: nat, e: nat, n: nat, c: nat, i: nat, l: seq<nat>)
    requires n < k && Slot(k, e) + k <= |slots|
    requires SlotsAre(slots, k, i, l)
    ensures i != e ==> SlotsAre(slots[Slot(k, e) + n := c], k, i, l)
    ensures i == e && n == |l| ==> SlotsAre(slots[Slot(k, e) + n := c], k, i, l + [c])
  {
    if i < e {
      SlotsApart(k, i, e);
    } else if e < i {
      SlotsApart(k, e, i);
    }
  }

  /** The list of index `i` once `ks` and the first `t` entries of `nadj[c]` are counted. */
  ghost function Partial(b: Block, ks: seq<nat>, nc: seq<nat>, c: nat, i: nat): seq<nat> {
    b.NonList(ks, i) + (if i in nc then [c] else [])
  }

  ghost predicate Row(b: Block, cn: seq<nat>, nn: seq<nat>, i: nat, l: seq<nat>)
    requires i < |cn|
  {
    cn[i] == Wrap(|l|) && (|l| <= b.k ==> SlotsAre(nn, b.k, i, l))
  }

  /** `counters` and `non_neighs` describe the members `ks`, plus `c` for the indices in `nc`. */
  ghost predicate Tallied(b: Block, cn: seq<nat>, nn: seq<nat>, ks: seq<nat>, nc: seq<nat>, c: nat) {
    && |cn| == |b.sub| && |nn| == Slot(b.k, |b.sub|)
    && forall i: nat | i < |b.sub| :: Row(b, cn, nn, i, Partial(b, ks, nc, c, i))
  }

  lemma TallyStep(b: Block, cn: seq<nat>, nn: seq<nat>, ks: seq<nat>, nc: seq<nat>, c: nat, e: nat)
    requires b.k <= 255 && Tallied(b, cn, nn, ks, nc, c) && e < |b.sub| && e !in nc
    ensures Slot(b.k, e) + b.k <= |nn|
    ensures var nn' := if cn[e] < b.k then nn[Slot(b.k, e) + cn[e] := c] else nn;
            Tallied(b, cn[e := Wrap(cn[e] + 1)], nn', ks, nc + [e], c)
  {
    SlotsApart(b.k, e, |b.sub|);
    var nn' := if cn[e] < b.k then nn[Slot(b.k, e) + cn[e] := c] else nn;
    var cn' := cn[e := Wrap(cn[e] + 1)];
    forall i: nat | i < |b.sub|
      ensures Row(b, cn', nn', i, Partial(b, ks, nc + [e], c, i))
    {
      var l := Partial(b, ks, nc, c, i);
      assert Row(b, cn, nn, i, l);
      assert i in nc + [e] <==> i in nc || i == e;
      RowStep(b, cn, nn, c, e, i, l);
      assert Partial(b, ks, nc + [e], c, i) == if i == e then l + [c] else l;
    }
  }

  lemma RowStep(b: Block, cn: seq<nat>, nn: seq<nat>, c: nat, e: nat, i: nat, l: seq<nat>)
    requires b.k <= 255 && e < |cn| && Slot(b.k, e) + b.k <= |nn|
    requires i < |cn| && Row(b, cn, nn, i, l)
    ensures var nn' := if cn[e] < b.k then nn[Slot(b.k, e) + cn[e] := c] else nn;
            Row(b, cn[e := Wrap(cn[e] + 1)], nn', i, if i == e then l + [c] else l)
  {
    if cn[e] < b.k && SlotsAre(nn, b.k, i, l) {
      SlotWrite(nn, b.k, e, cn[e], c, i, l);
    }
  }

  lemma TallyDone(b: Block, cn: seq<nat>, nn: seq<nat>, ks: seq<nat>, c: nat)
    requires b.Valid() && c < |b.sub| && Tallied(b, cn, nn, ks, b.nadj[c], c)
    ensures Tallied(b, cn, nn, ks + [c], [], 0)
  {
    forall i: nat | i < |b.sub|
      ensures Row(b, cn, nn, i, Partial(b, ks + [c], [], 0, i))
    {
      b.NonListAppend(ks, c, i);
      assert i in b.nadj[c] <==> b.Apart(i, c);
      assert Partial(b, ks + [c], [], 0, i) == Partial(b, ks, b.nadj[c], c, i);
    }
  }

  lemma NadjEntry(b: Block, c: nat, t: nat)
    requires b.Valid() && c < |b.sub| && t < |b.nadj[c]|
    ensures var l, e := b.nadj[c], b.nadj[c][t]; e < |b.sub| && e !in l[..t] && l[..t + 1] == l[..t] + [e]
  {
    assert b.nadj[c][t] in b.nadj[c];
  }

  /** The value of a node. */
  datatype State = State(
    kplex: seq<nat>,
    counters: seq<nat>,
    status: seq<nat>,
    nonNeighs: seq<nat>,
    cands: seq<nat>,
    excluded: seq<nat>)
  {
    ghost function S(b: Block): set<nat> {
      b.V(kplex)
    }

    /** Block indices that extend the k-plex. */
    ghost predicate Open(b: Block, i: nat) {
      i < |b.sub| && i !in kplex && Addable(b.g, b.k, S(b), b.sub[i])
    }

    ghost predicate Stays(b: Block, addBits: seq<bool>, i: nat) {
      i < |addBits| && i < |status| && !addBits[i] && status[i] != IN_KPLEX && Open(b, i)
    }

    ghost predicate Members(b: Block) {
      && |kplex| >= 1 && kplex[0] == 0 && NoDup(kplex) && b.Indices(kplex)
      && IsKplex(b.g, b.k, S(b))
      && GrownList(b, kplex)
    }

    /** The members with their bookkeeping; `AddToKplex` alone keeps this. */
    ghost predicate Counted(b: Block) {
      && b.Valid() && Members(b)
      && |status| == |b.sub| && Tallied(b, counters, nonNeighs, kplex, [], 0)
    }

    ghost predicate Lists(b: Block) {
      && Increasing(cands) && NoDup(excluded)
      && (forall i | i in cands :: i < |b.sub| && i !in excluded)
      && (forall i | i in excluded :: i < |b.sub| && i !in kplex)
    }

    /** The node invariant: candidates and excluded vertices split exactly the block
        vertices that extend the k-plex, and `status` marks the candidates. */
    ghost predicate Inv(b: Block) {
      && Counted(b) && Lists(b)
      && (forall i: nat :: i in cands || i in excluded <==> Open(b, i))
      && (forall i | 0 <= i < |b.sub| :: status[i] == IN_CAND <==> i in cands)
      && (forall i | i in excluded :: status[i] != IN_KPLEX)
    }

    /** Between `AddToKplex` and `UpdateCandAndExcl`: the lists are those of the parent
        and still hold every vertex that extends the k-plex. */
    ghost predicate Pending(b: Block) {
      && Counted(b) && Lists(b) && Marked(b)
      && (forall i: nat | Open(b, i) :: i in cands || i in excluded)
    }

    /** The status of candidates, some of which may have become members, and of the excluded. */
    ghost predicate Marked(b: Block)
      requires |status| == |b.sub| && Lists(b)
    {
      && (forall i | 0 <= i < |b.sub| :: status[i] == IN_CAND <==> i in cands && i !in kplex)
      && (forall i | i in cands && i in kplex :: status[i] == IN_KPLEX)
      && (forall i | i in excluded :: status[i] != IN_KPLEX)
    }

    lemma InvIsPending(b: Block)
      requires Inv(b)
      ensures Pending(b)
    {
    }

    lemma CounterIs(b: Block, i: nat)
      requires Counted(b) && i < |b.sub|
      ensures counters[i] == Wrap(|Non(b.g, S(b), b.sub[i])|)
      ensures |b.NonList(kplex, i)| == |Non(b.g, S(b), b.sub[i])|
    {
      b.NonListIsNon(kplex, i);
      assert Row(b, counters, nonNeighs, i, Partial(b, kplex, [], 0, i));
    }

    lemma MemberCount(b: Block, i: nat)
      requires Counted(b) && i < |b.sub| && (i in kplex || Open(b, i))
      ensures counters[i] == |Non(b.g, S(b), b.sub[i])| <= b.k
    {
      CounterIs(b, i);
      MemberMisses(b, i);
      OpenMisses(b, i);
    }

    lemma MemberMisses(b: Block, i: nat)
      requires b.Valid() && Members(b) && i < |b.sub|
      ensures i in kplex ==> |Non(b.g, S(b), b.sub[i])| <= b.k
    {
      b.VContains(kplex, i);
    }

    lemma OpenMisses(b: Block, i: nat)
      requires b.Valid() && Members(b) && i < |b.sub|
      ensures Open(b, i) ==> |Non(b.g, S(b), b.sub[i])| + 1 <= b.k
    {
      b.VContains(kplex, i);
      if Open(b, i) {
        AddableIff(b.g, b.k, S(b), b.sub[i]);
      }
    }

    lemma ScanMember(b: Block, i: nat, v: nat)
      requires Counted(b) && i < |kplex|
      ensures b.sub[kplex[i]] in S(b)
      ensures counters[kplex[i]] == |Non(b.g, S(b), b.sub[kplex[i]])|
      ensures |Non(b.g, b.V(kplex[..i + 1]), v)|
           == |Non(b.g, b.V(kplex[..i]), v)| + (if b.g.Adj(v, b.sub[kplex[i]]) then 0 else 1)
    {
      PrefixNon(b, kplex, i, v);
      assert kplex[i] in kplex;
      MemberCount(b, kplex[i]);
    }

    lemma AddKeepsMembers(b: Block, c: nat)
      requires Members(b) && Open(b, c) && Touches(b.g, S(b), b.sub[c])
      ensures this.(kplex := kplex + [c]).Members(b)
      ensures b.V(kplex + [c]) == S(b) + {b.sub[c]}
    {
      b.VAppend(kplex, c);
      GrownAppend(b, kplex, c);
      b.IndicesAppend(kplex, c);
    }

    lemma OpenShrinks(b: Block, c: nat, i: nat)
      requires c < |b.sub| && this.(kplex := kplex + [c]).Open(b, i)
      ensures Open(b, i) && i != c
    {
      b.VAppend(kplex, c);
      AddableAntitone(b.g, b.k, S(b), b.V(kplex + [c]), b.sub[i]);
      assert i !in kplex + [c];
    }

    /** Adding the open candidate `c` keeps the pending state, whatever became of the counters. */
    lemma AddKeepsPending(b: Block, c: nat, next: State)
      requires Pending(b) && Open(b, c) && c in cands && Touches(b.g, S(b), b.sub[c])
      requires Tallied(b, next.counters, next.nonNeighs, kplex + [c], [], 0)
      requires next.kplex == kplex + [c] && next.status == status[c := IN_KPLEX]
      requires next.cands == cands && next.excluded == excluded
      ensures next.Pending(b) && next.S(b) == S(b) + {b.sub[c]}
    {
      AddKeepsMembers(b, c);
      AddKeepsMarks(b, c, next);
      AddKeepsSplit(b, c, next);
    }

    lemma PendingTally(b: Block, c: nat)
      requires Pending(b) && c in cands
      ensures b.Valid() && c < |b.sub| == |status| && Tallied(b, counters, nonNeighs, kplex, [], 0)
    {
    }

    lemma AddKeepsMarks(b: Block, c: nat, next: State)
      requires |status| == |b.sub| && Lists(b) && Marked(b) && c in cands && c !in excluded
      requires next.kplex == kplex + [c] && next.status == status[c := IN_KPLEX]
      requires next.cands == cands && next.excluded == excluded
      ensures next.Lists(b) && next.Marked(b)
    {
    }

    /** What is open for the larger k-plex was a candidate or excluded before. */
    lemma AddKeepsSplit(b: Block, c: nat, next: State)
      requires Pending(b) && c < |b.sub| && next.kplex == kplex + [c]
      ensures forall i: nat | next.Open(b, i) :: i in cands || i in excluded
    {
      forall i: nat | next.Open(b, i)
        ensures i in cands || i in excluded
      {
        OpenShrinks(b, c, i);
      }
    }
  }

  /** Every member after the first was next to an earlier one when it came in. */
  ghost predicate GrownList(b: Block, ks: seq<nat>) {
    |ks| <= 1 ||
    var n := |ks| - 1;
    ks[n] < |b.sub| && Touches(b.g, b.V(ks[..n]), b.sub[ks[n]]) && GrownList(b, ks[..n])
  }

  lemma GrownAppend(b: Block, ks: seq<nat>, c: nat)
    requires GrownList(b, ks) && c < |b.sub| && Touches(b.g, b.V(ks), b.sub[c])
    ensures GrownList(b, ks + [c])
  {
    assert (ks + [c])[..|ks|] == ks;
  }

  lemma TallyOpen(b: Block, cn: seq<nat>, nn: seq<nat>, ks: seq<nat>, c: nat)
    requires b.Valid() && c < |b.sub| && Tallied(b, cn, nn, ks, [], 0)
    ensures Tallied(b, cn, nn, ks, b.nadj[c][..0], c)
  {
    forall i: nat | i < |b.sub|
      ensures Row(b, cn, nn, i, Partial(b, ks, [], c, i))
    {
      assert Partial(b, ks, [], c, i) == Partial(b, ks, [], 0, i);
    }
  }

  lemma PrefixNon(b: Block, ks: seq<nat>, i: nat, v: nat)
    requires b.Valid() && NoDup(ks) && b.Indices(ks) && i < |ks|
    ensures |Non(b.g, b.V(ks[..i + 1]), v)|
         == |Non(b.g, b.V(ks[..i]), v)| + (if b.g.Adj(v, b.sub[ks[i]]) then 0 else 1)
  {
    var c := ks[i];
    PrefixStep(ks, i);
    b.VAppend(ks[..i], c);
    b.VContains(ks[..i], c);
    NonExtend(b.g, b.V(ks[..i]), b.sub[c], v);
  }
}
