/** The reference-counted lock-free free list (util/concurrentqueue.hpp, `FreeList`) as
    sequentially consistent interleavings of any number of threads. */
module FreeList {
  import opened Sums

  const SHOULD_BE_ON_FREELIST: int := 0x8000_0000

  /** `refs & REFS_MASK` */
  function Masked(refs: int): int {
    refs % SHOULD_BE_ON_FREELIST
  }

  datatype Ref = Null | At(n: nat)

  /** Where a thread is. `back` is where it goes on after `add_knowing_refcount_is_zero`. */
  datatype PC =
    | Idle
    | Add(n: nat)                            // fetch_add(SHOULD_BE_ON_FREELIST)
    | LoadHead(n: nat, back: Back)           // add_knowing: load the head
    | SetNext(n: nat, h: Ref, back: Back)    // freeListNext.store(head)
    | SetRefs(n: nat, h: Ref, back: Back)    // freeListRefs.store(1)
    | Swing(n: nat, h: Ref, back: Back)      // CAS(head, node)
    | Retract(n: nat, h: Ref, back: Back)    // fetch_add(SHOULD_BE_ON_FREELIST - 1)
    | Start                                  // try_get: load the head
    | Peek(h: Ref)                           // loop test and load of refs
    | Grab(n: nat, seen: int)                // CAS(refs, refs + 1)
    | ReadNext(n: nat)
    | Take(n: nat, next: Ref)                // CAS(head, next)
    | Release(n: nat)                        // fetch_add(-2), return the node
    | LetGo(n: nat, h: Ref)                  // fetch_add(-1) after a failed CAS

  datatype Back = ToCaller | ToLoop(h: Ref)

  /** Who a node belongs to, from the outside. */
  datatype Status =
    | Out                 // handed to a caller
    | Flagged             // added, but readers still hold it
    | Adding(t: nat)      // thread t prepares to link it
    | Publishing(t: nat)  // its refcount is set, the head not yet swung
    | Linked
    | Taken(t: nat)       // unlinked by thread t, not yet returned

  datatype State = State(
    pcs: seq<PC>,
    head: Ref,
    next: seq<Ref>,
    refs: seq<int>,
    status: seq<Status>,
    chain: seq<nat>)      // the nodes reachable from the head, in order

  datatype Action =
    | CallAdd(m: nat) | DoAdd | DoLoadHead | DoSetNext | DoSetRefs | DoSwing | DoRetract
    | CallGet | DoStart | DoPeek | DoGrab | DoReadNext | DoTake | DoRelease | DoLetGo

  ghost predicate Enabled(s: State, t: nat, a: Action) {
    t < |s.pcs| && |s.next| == |s.refs| == |s.status| &&
    var pc := s.pcs[t];
    match a
    case CallAdd(m) => pc.Idle? && m < |s.status| && s.status[m] == Out
    case DoAdd => pc.Add? && pc.n < |s.refs|
    case DoLoadHead => pc.LoadHead? && pc.n < |s.refs|
    case DoSetNext => pc.SetNext? && pc.n < |s.refs|
    case DoSetRefs => pc.SetRefs? && pc.n < |s.refs|
    case DoSwing => pc.Swing? && pc.n < |s.refs|
    case DoRetract => pc.Retract? && pc.n < |s.refs|
    case CallGet => pc.Idle?
    case DoStart => pc.Start?
    case DoPeek => pc.Peek? && (pc.h.At? ==> pc.h.n < |s.refs|)
    case DoGrab => pc.Grab? && pc.n < |s.refs|
    case DoReadNext => pc.ReadNext? && pc.n < |s.refs|
    case DoTake => pc.Take? && pc.n < |s.refs|
    case DoRelease => pc.Release? && pc.n < |s.refs|
    case DoLetGo => pc.LetGo? && pc.n < |s.refs|
  }

  ghost function Goto(s: State, t: nat, pc: PC): State
    requires t < |s.pcs|
  {
    s.(pcs := s.pcs[t := pc])
  }

  ghost function Mark(s: State, n: nat, st: Status): State
    requires n < |s.status|
  {
    s.(status := s.status[n := st])
  }

  function Resume(back: Back): PC {
    match back
    case ToCaller => Idle
    case ToLoop(h) => Peek(h)
  }

  ghost function Apply(s: State, t: nat, a: Action): State
    requires Enabled(s, t, a)
  {
    var pc := s.pcs[t];
    match a
    case CallAdd(m) => Mark(Goto(s, t, Add(m)), m, Adding(t))
    case DoAdd =>
      // the caller gives the node up; if nobody reads it, this thread links it
      var s1 := s.(refs := s.refs[pc.n := s.refs[pc.n] + SHOULD_BE_ON_FREELIST]);
      if s.refs[pc.n] == 0 then Goto(s1, t, LoadHead(pc.n, ToCaller))
      else Mark(Goto(s1, t, Idle), pc.n, Flagged)
    case DoLoadHead => Goto(s, t, SetNext(pc.n, s.head, pc.back))
    case DoSetNext => Goto(s, t, SetRefs(pc.n, pc.h, pc.back)).(next := s.next[pc.n := pc.h])
    case DoSetRefs =>
      Mark(Goto(s, t, Swing(pc.n, pc.h, pc.back)), pc.n, Publishing(t)).(refs := s.refs[pc.n := 1])
    case DoSwing =>
      if s.head == pc.h then
        Mark(Goto(s, t, Resume(pc.back)), pc.n, Linked).(head := At(pc.n), chain := [pc.n] + s.chain)
      else
        Goto(s, t, Retract(pc.n, s.head, pc.back))
    case DoRetract =>
      var s1 := s.(refs := s.refs[pc.n := s.refs[pc.n] + SHOULD_BE_ON_FREELIST - 1]);
      if s.refs[pc.n] == 1 then Mark(Goto(s1, t, SetNext(pc.n, pc.h, pc.back)), pc.n, Adding(t))
      else Mark(Goto(s1, t, Resume(pc.back)), pc.n, Flagged)
    case CallGet => Goto(s, t, Start)
    case DoStart => Goto(s, t, Peek(s.head))
    case DoPeek =>
      if pc.h == Null then Goto(s, t, Idle)
      else if Masked(s.refs[pc.h.n]) == 0 then Goto(s, t, Start)
      else Goto(s, t, Grab(pc.h.n, s.refs[pc.h.n]))
    case DoGrab =>
      if s.refs[pc.n] == pc.seen then
        Goto(s, t, ReadNext(pc.n)).(refs := s.refs[pc.n := pc.seen + 1])
      else Goto(s, t, Start)
    case DoReadNext => Goto(s, t, Take(pc.n, s.next[pc.n]))
    case DoTake =>
      if s.head == At(pc.n) then
        Mark(Goto(s, t, Release(pc.n)), pc.n, Taken(t))
          .(head := pc.next, chain := if s.chain == [] then [] else s.chain[1..])
      else Goto(s, t, LetGo(pc.n, s.head))
    case DoRelease =>
      Mark(Goto(s, t, Idle), pc.n, Out).(refs := s.refs[pc.n := s.refs[pc.n] - 2])
    case DoLetGo =>
      var s1 := s.(refs := s.refs[pc.n := s.refs[pc.n] - 1]);
      if s.refs[pc.n] == SHOULD_BE_ON_FREELIST + 1 then
        Mark(Goto(s1, t, LoadHead(pc.n, ToLoop(pc.h))), pc.n, Adding(t))
      else Goto(s1, t, Peek(pc.h))
  }

  /** The thread holds a reference on node `n`. */
  predicate Reads(pc: PC, n: nat) {
    match pc
    case ReadNext(h) => h == n
    case Take(h, _) => h == n
    case Release(h) => h == n
    case LetGo(prev, _) => prev == n
    case _ => false
  }

  ghost function ReadWeights(pcs: seq<PC>, n: nat): seq<nat> {
    seq(|pcs|, i requires 0 <= i < |pcs| => if Reads(pcs[i], n) then 1 else 0)
  }

  ghost function Readers(pcs: seq<PC>, n: nat): nat {
    Sum(ReadWeights(pcs, n))
  }

  lemma ReadersUpdate(pcs: seq<PC>, t: nat, pc: PC, n: nat)
    requires t < |pcs|
    ensures Readers(pcs[t := pc], n) + (if Reads(pcs[t], n) then 1 else 0)
         == Readers(pcs, n) + (if Reads(pc, n) then 1 else 0)
  {
    var ws := ReadWeights(pcs, n);
    assert ReadWeights(pcs[t := pc], n) == ws[t := if Reads(pc, n) then 1 else 0];
    SumUpdate(ws, t, if Reads(pc, n) then 1 else 0);
  }

  lemma ReadersBound(pcs: seq<PC>, n: nat)
    ensures Readers(pcs, n) <= |pcs|
    ensures Readers(pcs, n) == 0 <==> forall t | 0 <= t < |pcs| :: !Reads(pcs[t], n)
  {
    var ws := ReadWeights(pcs, n);
    SumOfBits(ws);
    assert forall t | 0 <= t < |pcs| :: ws[t] == if Reads(pcs[t], n) then 1 else 0;
  }

  /** The refcount: readers, one for the list (or the thread about to link or return the
      node), and the flag bit. */
  ghost function Expected(s: State, n: nat): int
    requires n < |s.status|
  {
    Readers(s.pcs, n)
    + (match s.status[n]
       case Publishing(_) => 1
       case Linked => 1
       case Taken(_) => 1
       case Out => 0
       case Flagged => SHOULD_BE_ON_FREELIST
       case Adding(t) => if t < |s.pcs| && s.pcs[t].Add? then 0 else SHOULD_BE_ON_FREELIST)
  }

  /** The node that thread `t` is adding or returning carries its mark. */
  ghost predicate PcOk(s: State, t: nat, pc: PC) {
    match pc
    case Idle => true
    case Add(n) => n < |s.status| && s.status[n] == Adding(t)
    case LoadHead(n, b) => n < |s.status| && s.status[n] == Adding(t) && BackOk(s, b)
    case SetNext(n, h, b) => n < |s.status| && s.status[n] == Adding(t) && RefOk(s, h) && BackOk(s, b)
    case SetRefs(n, h, b) => n < |s.status| == |s.next| && s.status[n] == Adding(t) && RefOk(s, h) && BackOk(s, b) && s.next[n] == h
    case Swing(n, h, b) => n < |s.status| == |s.next| && s.status[n] == Publishing(t) && RefOk(s, h) && BackOk(s, b) && s.next[n] == h
    case Retract(n, h, b) => n < |s.status| && s.status[n] == Publishing(t) && RefOk(s, h) && BackOk(s, b)
    case Start => true
    case Peek(h) => RefOk(s, h)
    case Grab(h, refs) => h < |s.status| && Masked(refs) != 0
    case ReadNext(h) => h < |s.status|
    case Take(h, next) => h < |s.status| == |s.next| && next == s.next[h]
    case Release(h) => h < |s.status| && s.status[h] == Taken(t)
    case LetGo(prev, h) => prev < |s.status| && RefOk(s, h)
  }

  predicate RefOk(s: State, h: Ref) {
    h.At? ==> h.n < |s.status|
  }

  predicate BackOk(s: State, b: Back) {
    b.ToLoop? ==> RefOk(s, b.h)
  }

  /** The node a thread is responsible for. */
  function Mine(pc: PC): Ref {
    match pc
    case Add(n) => At(n)
    case LoadHead(n, _) => At(n)
    case SetNext(n, _, _) => At(n)
    case SetRefs(n, _, _) => At(n)
    case Swing(n, _, _) => At(n)
    case Retract(n, _, _) => At(n)
    case Release(h) => At(h)
    case _ => Null
  }

  function Owner(st: Status): Ref {
    match st
    case Adding(t) => At(t)
    case Publishing(t) => At(t)
    case Taken(t) => At(t)
    case _ => Null
  }

  function After(chain: seq<nat>, i: nat): Ref {
    if i < |chain| then At(chain[i]) else Null
  }

  predicate LinkOk(next: seq<Ref>, chain: seq<nat>, i: nat)
    requires i < |chain|
  {
    chain[i] < |next| && next[chain[i]] == After(chain, i + 1)
  }

  ghost predicate ChainOk(s: State) {
    && s.head == After(s.chain, 0)
    && (forall i, j | 0 <= i < j < |s.chain| :: s.chain[i] != s.chain[j])
    && (forall i: nat | i < |s.chain| :: LinkOk(s.next, s.chain, i))
    && (forall n: nat | n < |s.status| :: n in s.chain <==> s.status[n] == Linked)
  }

  /** Bookkeeping of one node: its refcount is exactly its readers plus one reference for
      the list, and a flagged node has a reader who will link it. */
  ghost predicate NodeOk(s: State, n: nat)
    requires n < |s.status|
  {
    && n < |s.refs| && s.refs[n] == Expected(s, n)
    && (Owner(s.status[n]).At? ==> Owner(s.status[n]).n < |s.pcs| && Mine(s.pcs[Owner(s.status[n]).n]) == At(n))
    && (s.status[n] == Flagged ==> Readers(s.pcs, n) > 0)
    && (s.status[n].Adding? && !s.pcs[s.status[n].t].Add? ==> Readers(s.pcs, n) == 0)
  }

  ghost predicate Inv(s: State) {
    && |s.next| == |s.refs| == |s.status| && |s.pcs| + 1 < SHOULD_BE_ON_FREELIST
    && (forall t: nat | t < |s.pcs| :: PcOk(s, t, s.pcs[t]))
    && (forall n: nat | n < |s.status| :: NodeOk(s, n))
    && ChainOk(s)
  }

  predicate Concerns(pc: PC, n: nat) {
    Mine(pc) == Null || Mine(pc) == At(n)
  }

  /** The step of thread `t` touches nothing but node `n`. */
  ghost predicate Framed(s: State, s': State, t: nat, n: nat) {
    && t < |s.pcs| && |s'.pcs| == |s.pcs| && s'.pcs == s.pcs[t := s'.pcs[t]]
    && |s'.next| == |s.next| == |s'.refs| == |s.refs| == |s'.status| == |s.status|
    && (forall m: nat | m < |s.status| && m != n ::
          s'.status[m] == s.status[m] && s'.next[m] == s.next[m] && s'.refs[m] == s.refs[m])
    && Concerns(s.pcs[t], n) && Concerns(s'.pcs[t], n)
    && (forall m: nat | m != n :: !Reads(s.pcs[t], m) && !Reads(s'.pcs[t], m))
    && (n < |s.status| ==> s'.status[n] == s.status[n] || Owner(s.status[n]) == Null || Owner(s.status[n]) == At(t))
    && (n < |s.status| ==> s'.next[n] == s.next[n] || (Owner(s.status[n]) == At(t) && Readers(s.pcs, n) == 0))
  }

  lemma OtherThreads(s: State, s': State, t: nat, n: nat, u: nat)
    requires Inv(s) && Framed(s, s', t, n) && u < |s.pcs| && u != t
    ensures PcOk(s', u, s'.pcs[u])
  {
    assert PcOk(s, u, s.pcs[u]);
    if n < |s.status| {
      ReadersBound(s.pcs, n);
    }
  }

  lemma OtherNodes(s: State, s': State, t: nat, n: nat, m: nat)
    requires Inv(s) && Framed(s, s', t, n) && m < |s.status| && m != n
    ensures NodeOk(s', m)
  {
    assert NodeOk(s, m);
    ReadersUpdate(s.pcs, t, s'.pcs[t], m);
  }

  lemma FrameKeeps(s: State, s': State, t: nat, n: nat)
    requires Inv(s) && Framed(s, s', t, n)
    requires PcOk(s', t, s'.pcs[t]) && (n < |s.status| ==> NodeOk(s', n)) && ChainOk(s')
    ensures Inv(s')
  {
    forall u: nat | u < |s'.pcs|
      ensures PcOk(s', u, s'.pcs[u])
    {
      if u != t {
        OtherThreads(s, s', t, n, u);
      }
    }
    forall m: nat | m < |s'.status|
      ensures NodeOk(s', m)
    {
      if m != n {
        OtherNodes(s, s', t, n, m);
      }
    }
  }

  /** The node that thread `t` works on, or none. */
  function Focus(s: State, pc: PC): nat {
    match pc
    case Add(n) => n
    case LoadHead(n, _) => n
    case SetNext(n, _, _) => n
    case SetRefs(n, _, _) => n
    case Swing(n, _, _) => n
    case Retract(n, _, _) => n
    case Grab(n, _) => n
    case ReadNext(n) => n
    case Take(n, _) => n
    case Release(n) => n
    case LetGo(n, _) => n
    case _ => |s.status|
  }

  lemma FocusFacts(s: State, t: nat, pc: PC)
    requires Inv(s) && t < |s.pcs|
    ensures var n := Focus(s, s.pcs[t]);
            && PcOk(s, t, s.pcs[t]) && RefOk(s, s.head)
            && (n < |s.status| ==> NodeOk(s, n))
            && Readers(s.pcs[t := pc], n) + (if Reads(s.pcs[t], n) then 1 else 0)
               == Readers(s.pcs, n) + (if Reads(pc, n) then 1 else 0)
            && Readers(s.pcs, n) <= |s.pcs| && (Reads(s.pcs[t], n) ==> Readers(s.pcs, n) > 0)
  {
    var n := Focus(s, s.pcs[t]);
    assert PcOk(s, t, s.pcs[t]);
    assert s.chain != [] ==> LinkOk(s.next, s.chain, 0);
    ReadersUpdate(s.pcs, t, pc, n);
    ReadersBound(s.pcs, n);
  }

  /** The masked refcount is zero exactly when nobody reads the node and it is not listed. */
  lemma MaskedCount(s: State, n: nat)
    requires Inv(s) && n < |s.status|
    ensures Masked(s.refs[n]) == 0 <==>
            Readers(s.pcs, n) == 0 && !(s.status[n].Publishing? || s.status[n].Linked? || s.status[n].Taken?)
  {
    assert NodeOk(s, n);
    ReadersBound(s.pcs, n);
  }

  lemma KeepDoAdd(s: State, t: nat)
    requires Inv(s) && Enabled(s, t, DoAdd)
    ensures Inv(Apply(s, t, DoAdd))
  {
    var s' := Apply(s, t, DoAdd);
    FocusFacts(s, t, s'.pcs[t]);
    FrameKeeps(s, s', t, Focus(s, s.pcs[t]));
  }

  lemma KeepDoLoadHead(s: State, t: nat)
    requires Inv(s) && Enabled(s, t, DoLoadHead)
    ensures Inv(Apply(s, t, DoLoadHead))
  {
    var s' := Apply(s, t, DoLoadHead);
    FocusFacts(s, t, s'.pcs[t]);
    FrameKeeps(s, s', t, Focus(s, s.pcs[t]));
  }

  /** The node being prepared is not in the list. */
  lemma LinksUnaffected(s: State, t: nat)
    requires Inv(s) && Enabled(s, t, DoSetNext)
    ensures ChainOk(Apply(s, t, DoSetNext))
  {
    var s' := Apply(s, t, DoSetNext);
    assert PcOk(s, t, s.pcs[t]);
    forall i: nat | i < |s.chain|
      ensures LinkOk(s'.next, s'.chain, i)
    {
      assert LinkOk(s.next, s.chain, i) && s.chain[i] in s.chain;
    }
  }

  lemma KeepDoSetNext(s: State, t: nat)
    requires Inv(s) && Enabled(s, t, DoSetNext)
    ensures Inv(Apply(s, t, DoSetNext))
  {
    var s' := Apply(s, t, DoSetNext);
    LinksUnaffected(s, t);
    FocusFacts(s, t, s'.pcs[t]);
    FrameKeeps(s, s', t, Focus(s, s.pcs[t]));
  }

  lemma KeepDoSetRefs(s: State, t: nat)
    requires Inv(s) && Enabled(s, t, DoSetRefs)
    ensures Inv(Apply(s, t, DoSetRefs))
  {
    var s' := Apply(s, t, DoSetRefs);
    FocusFacts(s, t, s'.pcs[t]);
    FrameKeeps(s, s', t, Focus(s, s.pcs[t]));
  }

  lemma Relink(s: State, n: nat)
    requires Inv(s) && n < |s.status| && s.status[n] != Linked
    ensures n !in s.chain && After([n] + s.chain, 0) == At(n)
    ensures forall i: nat :: After([n] + s.chain, i + 1) == After(s.chain, i)
  {
  }

  lemma ChainGrows(s: State, t: nat)
    requires Inv(s) && Enabled(s, t, DoSwing) && PcOk(s, t, s.pcs[t])
    ensures ChainOk(Apply(s, t, DoSwing))
  {
    var n := s.pcs[t].n;
    var s' := Apply(s, t, DoSwing);
    Relink(s, n);
    assert forall m: nat :: m in [n] + s.chain <==> m == n || m in s.chain;
    forall i: nat | i < |s'.chain|
      ensures LinkOk(s'.next, s'.chain, i)
    {
      if s.head == s.pcs[t].h && i > 0 {
        assert LinkOk(s.next, s.chain, i - 1);
      } else {
        assert i < |s.chain| && s.head != s.pcs[t].h ==> LinkOk(s.next, s.chain, i);
      }
    }
  }

  lemma KeepDoSwing(s: State, t: nat)
    requires Inv(s) && Enabled(s, t, DoSwing)
    ensures Inv(Apply(s, t, DoSwing))
  {
    assert PcOk(s, t, s.pcs[t]);
    var s' := Apply(s, t, DoSwing);
    ChainGrows(s, t);
    FocusFacts(s, t, s'.pcs[t]);
    FrameKeeps(s, s', t, Focus(s, s.pcs[t]));
  }

  lemma KeepDoRetract(s: State, t: nat)
    requires Inv(s) && Enabled(s, t, DoRetract)
    ensures Inv(Apply(s, t, DoRetract))
  {
    var s' := Apply(s, t, DoRetract);
    FocusFacts(s, t, s'.pcs[t]);
    FrameKeeps(s, s', t, Focus(s, s.pcs[t]));
  }

  lemma KeepCallGet(s: State, t: nat)
    requires Inv(s) && Enabled(s, t, CallGet)
    ensures Inv(Apply(s, t, CallGet))
  {
    var s' := Apply(s, t, CallGet);
    FocusFacts(s, t, s'.pcs[t]);
    FrameKeeps(s, s', t, Focus(s, s.pcs[t]));
  }

  lemma KeepDoStart(s: State, t: nat)
    requires Inv(s) && Enabled(s, t, DoStart)
    ensures Inv(Apply(s, t, DoStart))
  {
    var s' := Apply(s, t, DoStart);
    FocusFacts(s, t, s'.pcs[t]);
    FrameKeeps(s, s', t, Focus(s, s.pcs[t]));
  }

  lemma KeepDoPeek(s: State, t: nat)
    requires Inv(s) && Enabled(s, t, DoPeek)
    ensures Inv(Apply(s, t, DoPeek))
  {
    var s' := Apply(s, t, DoPeek);
    FocusFacts(s, t, s'.pcs[t]);
    FrameKeeps(s, s', t, Focus(s, s.pcs[t]));
  }

  lemma KeepDoGrab(s: State, t: nat)
    requires Inv(s) && Enabled(s, t, DoGrab)
    ensures Inv(Apply(s, t, DoGrab))
  {
    MaskedCount(s, s.pcs[t].n);
    var s' := Apply(s, t, DoGrab);
    FocusFacts(s, t, s'.pcs[t]);
    FrameKeeps(s, s', t, Focus(s, s.pcs[t]));
  }

  lemma KeepDoReadNext(s: State, t: nat)
    requires Inv(s) && Enabled(s, t, DoReadNext)
    ensures Inv(Apply(s, t, DoReadNext))
  {
    var s' := Apply(s, t, DoReadNext);
    FocusFacts(s, t, s'.pcs[t]);
    FrameKeeps(s, s', t, Focus(s, s.pcs[t]));
  }

  /** The head is linked, and its next pointer is the rest of the list. */
  lemma Unlink(s: State, n: nat)
    requires Inv(s) && s.head == At(n)
    ensures n < |s.status| && s.status[n] == Linked && s.chain != [] && s.chain[0] == n
    ensures n !in s.chain[1..] && s.next[n] == After(s.chain[1..], 0)
    ensures forall i: nat :: After(s.chain[1..], i) == After(s.chain, i + 1)
  {
    assert n in s.chain;
    assert LinkOk(s.next, s.chain, 0);
  }

  lemma ChainShrinks(s: State, t: nat)
    requires Inv(s) && Enabled(s, t, DoTake) && PcOk(s, t, s.pcs[t])
    ensures ChainOk(Apply(s, t, DoTake))
  {
    var s' := Apply(s, t, DoTake);
    if s.head == At(s.pcs[t].n) {
      Unlink(s, s.pcs[t].n);
      forall i: nat | i < |s'.chain|
        ensures LinkOk(s'.next, s'.chain, i)
      {
        assert LinkOk(s.next, s.chain, i + 1);
      }
      assert s.chain == [s.pcs[t].n] + s'.chain;
    }
  }

  lemma KeepDoTake(s: State, t: nat)
    requires Inv(s) && Enabled(s, t, DoTake)
    ensures Inv(Apply(s, t, DoTake))
  {
    assert PcOk(s, t, s.pcs[t]);
    if s.head == At(s.pcs[t].n) {
      Unlink(s, s.pcs[t].n);
    }
    ChainShrinks(s, t);
    var s' := Apply(s, t, DoTake);
    FocusFacts(s, t, s'.pcs[t]);
    FrameKeeps(s, s', t, Focus(s, s.pcs[t]));
  }

  lemma KeepDoRelease(s: State, t: nat)
    requires Inv(s) && Enabled(s, t, DoRelease)
    ensures Inv(Apply(s, t, DoRelease))
  {
    var s' := Apply(s, t, DoRelease);
    FocusFacts(s, t, s'.pcs[t]);
    FrameKeeps(s, s', t, Focus(s, s.pcs[t]));
  }

  lemma KeepDoLetGo(s: State, t: nat)
    requires Inv(s) && Enabled(s, t, DoLetGo)
    ensures Inv(Apply(s, t, DoLetGo))
  {
    var s' := Apply(s, t, DoLetGo);
    FocusFacts(s, t, s'.pcs[t]);
    FrameKeeps(s, s', t, Focus(s, s.pcs[t]));
  }

  lemma KeepCallAdd(s: State, t: nat, m: nat)
    requires Inv(s) && Enabled(s, t, CallAdd(m))
    ensures Inv(Apply(s, t, CallAdd(m)))
  {
    var s' := Apply(s, t, CallAdd(m));
    assert NodeOk(s, m);
    ReadersUpdate(s.pcs, t, s'.pcs[t], m);
    FrameKeeps(s, s', t, m);
  }

  lemma KeepInv(s: State, t: nat, a: Action)
    requires Inv(s) && Enabled(s, t, a)
    ensures Inv(Apply(s, t, a))
  {
    match a
    case CallAdd(m) => KeepCallAdd(s, t, m);
    case DoAdd => KeepDoAdd(s, t);
    case DoLoadHead => KeepDoLoadHead(s, t);
    case DoSetNext => KeepDoSetNext(s, t);
    case DoSetRefs => KeepDoSetRefs(s, t);
    case DoSwing => KeepDoSwing(s, t);
    case DoRetract => KeepDoRetract(s, t);
    case CallGet => KeepCallGet(s, t);
    case DoStart => KeepDoStart(s, t);
    case DoPeek => KeepDoPeek(s, t);
    case DoGrab => KeepDoGrab(s, t);
    case DoReadNext => KeepDoReadNext(s, t);
    case DoTake => KeepDoTake(s, t);
    case DoRelease => KeepDoRelease(s, t);
    case DoLetGo => KeepDoLetGo(s, t);
  }

  /** `threads` idle threads, all `nodes` nodes with the callers, an empty list. */
  ghost function Init(threads: nat, nodes: nat): State {
    State(seq(threads, _ => Idle), Null, seq(nodes, _ => Null), seq(nodes, _ => 0), seq(nodes, _ => Out), [])
  }

  ghost predicate IsRun(run: seq<State>, steps: seq<(nat, Action)>) {
    && |run| == |steps| + 1
    && forall i | 0 <= i < |steps| ::
         Enabled(run[i], steps[i].0, steps[i].1) && run[i + 1] == Apply(run[i], steps[i].0, steps[i].1)
  }

  lemma InitInv(threads: nat, nodes: nat)
    requires threads + 1 < SHOULD_BE_ON_FREELIST
    ensures Inv(Init(threads, nodes))
  {
    var s := Init(threads, nodes);
    forall n: nat | n < nodes
      ensures NodeOk(s, n)
    {
      ReadersBound(s.pcs, n);
    }
  }

  lemma RunInv(run: seq<State>, steps: seq<(nat, Action)>, threads: nat, nodes: nat, i: nat)
    requires threads + 1 < SHOULD_BE_ON_FREELIST && IsRun(run, steps) && run[0] == Init(threads, nodes) && i < |run|
    ensures Inv(run[i])
  {
    if i == 0 {
      InitInv(threads, nodes);
    } else {
      RunInv(run, steps, threads, nodes, i - 1);
      KeepInv(run[i - 1], steps[i - 1].0, steps[i - 1].1);
    }
  }

  /** On every run, a head swap installs the true successor, and the flag bit is clear (the
      assertion in `try_get`). */
  lemma TakeIsNotStale(run: seq<State>, steps: seq<(nat, Action)>, threads: nat, nodes: nat, i: nat)
    requires threads + 1 < SHOULD_BE_ON_FREELIST && IsRun(run, steps) && run[0] == Init(threads, nodes)
    requires i < |steps| && steps[i].1 == DoTake && run[i].head == At(run[i].pcs[steps[i].0].n)
    ensures var s, pc := run[i], run[i].pcs[steps[i].0];
            pc.next == s.next[pc.n] == After(s.chain, 1) && s.refs[pc.n] < SHOULD_BE_ON_FREELIST
  {
    RunInv(run, steps, threads, nodes, i);
    TakeFindsSuccessor(run[i], steps[i].0);
  }

  lemma TakeFindsSuccessor(s: State, t: nat)
    requires Inv(s) && Enabled(s, t, DoTake) && s.head == At(s.pcs[t].n)
    ensures s.pcs[t].next == s.next[s.pcs[t].n] == After(s.chain, 1)
    ensures s.refs[s.pcs[t].n] < SHOULD_BE_ON_FREELIST
  {
    var n := s.pcs[t].n;
    Unlink(s, n);
    assert PcOk(s, t, s.pcs[t]) && NodeOk(s, n);
    ReadersBound(s.pcs, n);
  }

  /** On every run, a node is linked only while it is not in the list, in front of the
      current head. */
  lemma LinksOnce(run: seq<State>, steps: seq<(nat, Action)>, threads: nat, nodes: nat, i: nat)
    requires threads + 1 < SHOULD_BE_ON_FREELIST && IsRun(run, steps) && run[0] == Init(threads, nodes)
    requires i < |steps| && steps[i].1 == DoSwing && run[i].head == run[i].pcs[steps[i].0].h
    ensures var s, n := run[i], run[i].pcs[steps[i].0].n; n !in s.chain && s.next[n] == s.head
  {
    RunInv(run, steps, threads, nodes, i);
    var s, t := run[i], steps[i].0;
    assert PcOk(s, t, s.pcs[t]);
    Relink(s, s.pcs[t].n);
  }

  /** Calls of `add` on node `n`, and returns of `n` from `try_get`. */
  ghost function Adds(steps: seq<(nat, Action)>, n: nat): nat {
    if steps == [] then 0
    else Adds(steps[..|steps| - 1], n) + (if steps[|steps| - 1].1 == CallAdd(n) then 1 else 0)
  }

  ghost predicate Returns(s: State, t: nat, a: Action, n: nat) {
    a == DoRelease && t < |s.pcs| && s.pcs[t] == Release(n)
  }

  ghost function Gets(run: seq<State>, steps: seq<(nat, Action)>, n: nat): nat
    requires |run| > |steps|
  {
    if steps == [] then 0
    else
      var k := |steps| - 1;
      Gets(run[..k + 1], steps[..k], n) + (if Returns(run[k], steps[k].0, steps[k].1, n) then 1 else 0)
  }

  /** On every run each `add` is answered by at most one return of the node, and a node is
      with the callers exactly when all its `add`s have been answered. */
  lemma OneReturnPerAdd(run: seq<State>, steps: seq<(nat, Action)>, threads: nat, nodes: nat, n: nat)
    requires threads + 1 < SHOULD_BE_ON_FREELIST && IsRun(run, steps) && run[0] == Init(threads, nodes) && n < nodes
    ensures n < |run[|steps|].status|
    ensures Adds(steps, n) == Gets(run, steps, n) + (if run[|steps|].status[n] == Out then 0 else 1)
    decreases |steps|
  {
    if steps != [] {
      var k := |steps| - 1;
      var t, a := steps[k].0, steps[k].1;
      assert IsRun(run[..k + 1], steps[..k]);
      OneReturnPerAdd(run[..k + 1], steps[..k], threads, nodes, n);
      RunInv(run, steps, threads, nodes, k);
      StatusMoves(run[k], t, a, n);
    }
  }

  lemma StatusMoves(s: State, t: nat, a: Action, n: nat)
    requires Inv(s) && Enabled(s, t, a) && n < |s.status|
    ensures var s' := Apply(s, t, a);
            && |s'.status| == |s.status|
            && (a == CallAdd(n) ==> s.status[n] == Out && s'.status[n] != Out)
            && (Returns(s, t, a, n) ==> s.status[n] != Out && s'.status[n] == Out)
            && (a != CallAdd(n) && !Returns(s, t, a, n) ==> (s'.status[n] == Out <==> s.status[n] == Out))
  {
    assert PcOk(s, t, s.pcs[t]);
    if Focus(s, s.pcs[t]) < |s.status| {
      assert NodeOk(s, Focus(s, s.pcs[t]));
      ReadersBound(s.pcs, Focus(s, s.pcs[t]));
    }
    if a.DoTake? && s.head == At(s.pcs[t].n) {
      Unlink(s, s.pcs[t].n);
    }
  }

  /** Inside `try_get`. */
  predicate Getting(pc: PC) {
    match pc
    case Start => true
    case Peek(_) => true
    case Grab(_, _) => true
    case ReadNext(_) => true
    case Take(_, _) => true
    case Release(_) => true
    case LetGo(_, _) => true
    case LoadHead(_, b) => b.ToLoop?
    case SetNext(_, _, b) => b.ToLoop?
    case SetRefs(_, _, b) => b.ToLoop?
    case Swing(_, _, b) => b.ToLoop?
    case Retract(_, _, b) => b.ToLoop?
    case _ => false
  }

  /** Inside `try_get`, with a null head in hand. */
  predicate HoldsNull(pc: PC) {
    match pc
    case Peek(h) => h == Null
    case LetGo(_, h) => h == Null
    case LoadHead(_, b) => b == ToLoop(Null)
    case SetNext(_, _, b) => b == ToLoop(Null)
    case SetRefs(_, _, b) => b == ToLoop(Null)
    case Swing(_, _, b) => b == ToLoop(Null)
    case Retract(_, _, b) => b == ToLoop(Null)
    case _ => false
  }

  /** At some moment since thread `t` last called `try_get` the list was empty. */
  ghost predicate SawEmpty(run: seq<State>, steps: seq<(nat, Action)>, t: nat, i: nat)
    requires i < |run| && i <= |steps|
  {
    exists j: nat :: j <= i && EmptySince(run, steps, t, j, i)
  }

  ghost predicate EmptySince(run: seq<State>, steps: seq<(nat, Action)>, t: nat, j: nat, i: nat)
    requires j <= i < |run| && i <= |steps|
  {
    run[j].chain == [] && forall l | j <= l < i && steps[l].0 == t :: steps[l].1 != CallGet
  }

  lemma NullStep(s: State, u: nat, a: Action, t: nat)
    requires Inv(s) && Enabled(s, u, a) && t < |s.pcs|
    ensures var s' := Apply(s, u, a);
            && |s'.pcs| == |s.pcs| && (u != t ==> s'.pcs[t] == s.pcs[t])
            && (HoldsNull(s'.pcs[t]) ==> HoldsNull(s.pcs[t]) || (u == t && s.chain == []))
            && (HoldsNull(s.pcs[t]) && u == t ==> a != CallGet)
  {
  }

  lemma NullMeansEmpty(run: seq<State>, steps: seq<(nat, Action)>, threads: nat, nodes: nat, t: nat, i: nat)
    requires threads + 1 < SHOULD_BE_ON_FREELIST && IsRun(run, steps) && run[0] == Init(threads, nodes)
    requires i < |run| && t < |run[i].pcs| && HoldsNull(run[i].pcs[t])
    ensures SawEmpty(run, steps, t, i)
  {
    if i > 0 {
      var u, a := steps[i - 1].0, steps[i - 1].1;
      RunInv(run, steps, threads, nodes, i - 1);
      NullStep(run[i - 1], u, a, t);
      if HoldsNull(run[i - 1].pcs[t]) {
        NullMeansEmpty(run, steps, threads, nodes, t, i - 1);
        var j: nat :| j <= i - 1 && EmptySince(run, steps, t, j, i - 1);
        assert EmptySince(run, steps, t, j, i);
      } else {
        assert a != CallGet;
        assert EmptySince(run, steps, t, i - 1, i);
      }
    }
  }

  /** How `try_get` ends: it returns a node, or it returns null and the list was empty at some
      moment during the call. */
  lemma GetEnds(run: seq<State>, steps: seq<(nat, Action)>, threads: nat, nodes: nat, i: nat)
    requires threads + 1 < SHOULD_BE_ON_FREELIST && IsRun(run, steps) && run[0] == Init(threads, nodes)
    requires i < |steps| && steps[i].0 < |run[i].pcs| && Getting(run[i].pcs[steps[i].0])
    ensures var t := steps[i].0;
            && t < |run[i + 1].pcs|
            && (!Getting(run[i + 1].pcs[t]) ==>
                  (exists n :: Returns(run[i], t, steps[i].1, n)) || SawEmpty(run, steps, t, i))
  {
    var s, t, a := run[i], steps[i].0, steps[i].1;
    if !Getting(run[i + 1].pcs[t]) {
      if a.DoRelease? {
        assert Returns(s, t, a, s.pcs[t].n);
      } else {
        NullMeansEmpty(run, steps, threads, nodes, t, i);
      }
    }
  }

  ghost predicate Quiet(s: State) {
    forall t | 0 <= t < |s.pcs| :: s.pcs[t].Idle?
  }

  lemma QuietNode(s: State, n: nat)
    requires Inv(s) && Quiet(s) && n < |s.status|
    ensures n < |s.refs| && (s.status[n] == Out || (s.status[n] == Linked && n in s.chain))
    ensures s.refs[n] == if s.status[n] == Linked then 1 else 0
  {
    assert NodeOk(s, n);
    ReadersBound(s.pcs, n);
  }

  /** The states that one thread passes through when it runs alone. */
  ghost predicate RunsAlone(s: State, t: nat, actions: seq<Action>, s': State)
    decreases |actions|
  {
    if actions == [] then s' == s
    else Enabled(s, t, actions[0]) && RunsAlone(Apply(s, t, actions[0]), t, actions[1..], s')
  }

  lemma RunsOn(s: State, t: nat, before: seq<Action>, m: State, after: seq<Action>, s': State)
    requires RunsAlone(s, t, before, m) && RunsAlone(m, t, after, s')
    ensures RunsAlone(s, t, before + after, s')
    decreases |before|
  {
    if before == [] {
      assert before + after == after;
    } else {
      assert (before + after)[1..] == before[1..] + after;
      RunsOn(Apply(s, t, before[0]), t, before[1..], m, after, s');
    }
  }

  lemma Single(s: State, t: nat, a: Action)
    requires Enabled(s, t, a)
    ensures RunsAlone(s, t, [a], Apply(s, t, a))
  {
    assert [a][1..] == [];
  }

  /** The thread gets hold of the head. */
  lemma GrabAlone(s: State, t: nat) returns (s': State)
    requires Inv(s) && Quiet(s) && t < |s.pcs| && s.chain != []
    ensures s.chain[0] < |s.refs|
    ensures RunsAlone(s, t, [CallGet, DoStart, DoPeek, DoGrab], s')
    ensures s' == Goto(s, t, ReadNext(s.chain[0])).(refs := s.refs[s.chain[0] := 2])
  {
    var n := s.chain[0];
    assert LinkOk(s.next, s.chain, 0) && n in s.chain;
    QuietNode(s, n);
    var s1 := Apply(s, t, CallGet);
    var s2 := Apply(s1, t, DoStart);
    var s3 := Apply(s2, t, DoPeek);
    s' := Apply(s3, t, DoGrab);
    Single(s, t, CallGet);
    Single(s1, t, DoStart);
    Single(s2, t, DoPeek);
    Single(s3, t, DoGrab);
    RunsOn(s, t, [CallGet], s1, [DoStart], s2);
    RunsOn(s, t, [CallGet] + [DoStart], s2, [DoPeek], s3);
    RunsOn(s, t, [CallGet] + [DoStart] + [DoPeek], s3, [DoGrab], s');
    assert [CallGet] + [DoStart] + [DoPeek] + [DoGrab] == [CallGet, DoStart, DoPeek, DoGrab];
    assert s'.pcs == s.pcs[t := ReadNext(n)];
  }

  /** And takes it off the list. */
  lemma TakeAlone(s: State, t: nat, m: State) returns (s': State)
    requires Inv(s) && Quiet(s) && t < |s.pcs| && s.chain != [] && s.chain[0] < |s.refs|
    requires m == Goto(s, t, ReadNext(s.chain[0])).(refs := s.refs[s.chain[0] := 2])
    ensures s.chain[0] < |s.status| && RunsAlone(m, t, [DoReadNext, DoTake, DoRelease], s')
    ensures Quiet(s') && s'.chain == s.chain[1..] && s'.status == s.status[s.chain[0] := Out]
  {
    var n := s.chain[0];
    assert LinkOk(s.next, s.chain, 0);
    var s1 := Apply(m, t, DoReadNext);
    var s2 := Apply(s1, t, DoTake);
    s' := Apply(s2, t, DoRelease);
    Single(m, t, DoReadNext);
    Single(s1, t, DoTake);
    Single(s2, t, DoRelease);
    RunsOn(m, t, [DoReadNext], s1, [DoTake], s2);
    RunsOn(m, t, [DoReadNext] + [DoTake], s2, [DoRelease], s');
    assert [DoReadNext] + [DoTake] + [DoRelease] == [DoReadNext, DoTake, DoRelease];
    assert s'.pcs == s.pcs[t := Idle];
  }

  const GET: seq<Action> := [CallGet, DoStart, DoPeek, DoGrab] + [DoReadNext, DoTake, DoRelease]

  /** On every run: with no operation under way, a `try_get` that runs alone returns the head of
      the list. */
  lemma GetAlone(run: seq<State>, steps: seq<(nat, Action)>, threads: nat, nodes: nat, i: nat, t: nat) returns (s': State)
    requires threads + 1 < SHOULD_BE_ON_FREELIST && IsRun(run, steps) && run[0] == Init(threads, nodes)
    requires i < |run| && Quiet(run[i]) && t < |run[i].pcs| && run[i].chain != []
    ensures var s := run[i];
            && s.chain[0] < |s.status| && RunsAlone(s, t, GET, s')
            && Quiet(s') && s'.chain == s.chain[1..] && s'.status == s.status[s.chain[0] := Out]
  {
    RunInv(run, steps, threads, nodes, i);
    var m := GrabAlone(run[i], t);
    s' := TakeAlone(run[i], t, m);
    RunsOn(run[i], t, [CallGet, DoStart, DoPeek, DoGrab], m, [DoReadNext, DoTake, DoRelease], s');
  }

  const ADD: seq<Action> := [DoAdd, DoLoadHead, DoSetNext] + [DoSetRefs, DoSwing]

  /** The node is ready to be linked in front of the head. */
  lemma PrepareAlone(s: State, t: nat, n: nat) returns (s': State)
    requires Inv(s) && Quiet(s) && t < |s.pcs| && n < |s.status| && s.status[n] == Out
    ensures Enabled(s, t, CallAdd(n)) && RunsAlone(Apply(s, t, CallAdd(n)), t, [DoAdd, DoLoadHead, DoSetNext], s')
    ensures s' == State(s.pcs[t := SetRefs(n, s.head, ToCaller)], s.head, s.next[n := s.head],
                        s.refs[n := SHOULD_BE_ON_FREELIST], s.status[n := Adding(t)], s.chain)
  {
    QuietNode(s, n);
    var s0 := Apply(s, t, CallAdd(n));
    var s1 := Apply(s0, t, DoAdd);
    var s2 := Apply(s1, t, DoLoadHead);
    s' := Apply(s2, t, DoSetNext);
    Single(s0, t, DoAdd);
    Single(s1, t, DoLoadHead);
    Single(s2, t, DoSetNext);
    RunsOn(s0, t, [DoAdd], s1, [DoLoadHead], s2);
    RunsOn(s0, t, [DoAdd] + [DoLoadHead], s2, [DoSetNext], s');
    assert [DoAdd] + [DoLoadHead] + [DoSetNext] == [DoAdd, DoLoadHead, DoSetNext];
    assert s'.pcs == s.pcs[t := SetRefs(n, s.head, ToCaller)];
  }

  /** On every run: with no operation under way, an `add` that runs alone puts the node in front
      of the list. */
  lemma AddAlone(run: seq<State>, steps: seq<(nat, Action)>, threads: nat, nodes: nat, i: nat, t: nat, n: nat) returns (s': State)
    requires threads + 1 < SHOULD_BE_ON_FREELIST && IsRun(run, steps) && run[0] == Init(threads, nodes)
    requires i < |run| && Quiet(run[i]) && t < |run[i].pcs| && n < |run[i].status| && run[i].status[n] == Out
    ensures Enabled(run[i], t, CallAdd(n)) && RunsAlone(Apply(run[i], t, CallAdd(n)), t, ADD, s')
    ensures Quiet(s') && s'.chain == [n] + run[i].chain && s'.status == run[i].status[n := Linked]
  {
    RunInv(run, steps, threads, nodes, i);
    var m := PrepareAlone(run[i], t, n);
    var s1 := Apply(m, t, DoSetRefs);
    s' := Apply(s1, t, DoSwing);
    Single(m, t, DoSetRefs);
    Single(s1, t, DoSwing);
    RunsOn(m, t, [DoSetRefs], s1, [DoSwing], s');
    assert [DoSetRefs] + [DoSwing] == [DoSetRefs, DoSwing];
    RunsOn(Apply(run[i], t, CallAdd(n)), t, [DoAdd, DoLoadHead, DoSetNext], m, [DoSetRefs, DoSwing], s');
    assert s'.pcs == run[i].pcs[t := Idle];
  }

  /** On every run, when no operation is under way every node is with a caller or in the list. */
  lemma NoNodeLost(run: seq<State>, steps: seq<(nat, Action)>, threads: nat, nodes: nat, i: nat, n: nat)
    requires threads + 1 < SHOULD_BE_ON_FREELIST && IsRun(run, steps) && run[0] == Init(threads, nodes)
    requires i < |run| && n < |run[i].status| && forall t | 0 <= t < |run[i].pcs| :: run[i].pcs[t].Idle?
    ensures run[i].status[n] == Out || n in run[i].chain
    ensures n < |run[i].refs| && run[i].refs[n] == if n in run[i].chain then 1 else 0
  {
    RunInv(run, steps, threads, nodes, i);
    assert NodeOk(run[i], n);
    ReadersBound(run[i].pcs, n);
  }
}
