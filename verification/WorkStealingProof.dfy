/** No node is lost or handled twice by the work-stealing runner, whatever the
    interleaving, and the spin barrier keeps its two sides apart. */
module WorkStealingProof {
  import opened Forest
  import opened Sums
  import opened WorkStealing

  datatype Measure =
    | Waiting
    | Arrived(g: nat)
    | Resetting
    | Bumping
    | ToExpand(x: nat)
    | ToReport(x: nat)

  /** Between `++waiting` and `--waiting`. */
  predicate Counted(pc: PC) {
    pc.Spin? || pc.Check? || pc.Leave? || (pc.Wait? && pc.first) || pc.TryLock? || pc.Section? || pc.Unlock? || pc.Depart?
  }

  /** Has decremented `spaces` for the barrier that ends generation `g`. */
  predicate HasArrived(pc: PC, g: nat) {
    pc.Wait? && (pc.stage.Reset? || pc.stage.Bump? || (pc.stage.Await? && pc.stage.my == g))
  }

  ghost function Tops(ts: seq<Tree>, x: nat): nat {
    if ts == [] then 0 else (if ts[0].id == x then 1 else 0) + Tops(ts[1..], x)
  }

  ghost function FrameExpand(f: Frame, x: nat): nat {
    CountAll(f.todo, x) + CountAll(f.serving, x)
  }

  ghost function FrameReport(f: Frame, x: nat): nat {
    CountAll(f.todo, x) + CountAll(f.serving, x) + Tops(f.unreported, x)
  }

  ghost function FramesExpand(fs: seq<Frame>, x: nat): nat {
    if fs == [] then 0 else FramesExpand(fs[..|fs| - 1], x) + FrameExpand(fs[|fs| - 1], x)
  }

  ghost function FramesReport(fs: seq<Frame>, x: nat): nat {
    if fs == [] then 0 else FramesReport(fs[..|fs| - 1], x) + FrameReport(fs[|fs| - 1], x)
  }

  ghost function Weight(c: Config, m: Measure, th: Thread): nat {
    match m
    case Waiting => if Counted(th.pc) then 1 else 0
    case Arrived(g) => if HasArrived(th.pc, g) then 1 else 0
    case Resetting => if th.pc.Wait? && th.pc.stage.Reset? then 1 else 0
    case Bumping => if th.pc.Wait? && th.pc.stage.Bump? then 1 else 0
    case ToExpand(x) =>
      FramesExpand(th.frames, x) + CountAll(th.lnodes, x) + CountAll(th.held, x) + CountRoots(c.rootsOf, th.loot, x)
    case ToReport(x) =>
      FramesReport(th.frames, x) + BelowAll(th.lnodes, x) + BelowAll(th.held, x) + CountRoots(c.rootsOf, th.loot, x)
  }

  ghost function Weights(c: Config, m: Measure, ths: seq<Thread>): seq<nat> {
    seq(|ths|, i requires 0 <= i < |ths| => Weight(c, m, ths[i]))
  }

  ghost function Total(c: Config, m: Measure, ths: seq<Thread>): nat {
    Sum(Weights(c, m, ths))
  }

  lemma TotalUpdate(c: Config, m: Measure, ths: seq<Thread>, t: nat, th: Thread)
    requires t < |ths|
    ensures Total(c, m, ths[t := th]) + Weight(c, m, ths[t]) == Total(c, m, ths) + Weight(c, m, th)
  {
    var ws := Weights(c, m, ths);
    assert Weights(c, m, ths[t := th]) == ws[t := Weight(c, m, th)];
    SumUpdate(ws, t, Weight(c, m, th));
  }

  /** What every thread looks like at each program point. */
  ghost predicate ThreadOk(c: Config, s: State, t: nat, th: Thread) {
    && (th.frames != [] <==> th.pc.Work?)
    && (forall i | 0 <= i < |th.frames| :: |th.frames[i].serving| + |th.frames[i].unreported| <= 1)
    && (th.lnodes != [] ==> th.pc.Pick? || th.pc.Work? || th.pc == AfterPick(true))
    && (if th.pc == Leave(true) then |th.held| == 1 else th.held == [])
    && (th.loot != [] ==> Holds(s, t))
    && (Holds(s, t) ==> MayServe(th) || th.pc.Section? || th.pc.Unlock?)
    && (th.pc.Wait? || th.pc.TryLock? || th.pc.Section? || th.pc.Unlock? || th.pc.Depart? ==> c.distributed)
    && (th.pc.Section? || th.pc.Unlock? ==> Holds(s, t) && th.loot == [])
    && (th.pc.Done? ==> s.terminate)
  }

  ghost predicate Shape(c: Config, s: State) {
    && c.n >= 1 && |s.threads| == c.n
    && forall t | 0 <= t < c.n :: ThreadOk(c, s, t, s.threads[t])
  }

  ghost predicate WaitingOk(c: Config, s: State) {
    s.waiting == Total(c, Waiting, s.threads)
  }

  lemma OwnerStep(c: Config, s: State, t: nat, a: Action)
    requires Enabled(c, s, t, a)
    ensures var s' := Apply(c, s, t, a);
            && |s'.threads| == |s.threads| && (s.terminate ==> s'.terminate)
            && forall u: nat | u < |s.threads| && u != t ::
                 s'.threads[u] == s.threads[u] && (Holds(s', u) <==> Holds(s, u))
  {
    match a
    case FetchStep(f) => OwnerFetch(c, s, t, f);
    case ServeStep(m) => OwnerServe(c, s, t, m);
    case StealStep(h) =>
    case BarrierStep(b) =>
    case ControlStep(k) => OwnerControl(c, s, t, k);
  }

  lemma OwnerFetch(c: Config, s: State, t: nat, f: Fetch)
    requires EnabledFetch(c, s, t, f)
    ensures var s' := ApplyFetch(c, s, t, f);
            && |s'.threads| == |s.threads| && s.terminate == s'.terminate && s'.stealing == s.stealing
            && forall u: nat | u < |s.threads| && u != t :: s'.threads[u] == s.threads[u]
  {
  }

  lemma OwnerServe(c: Config, s: State, t: nat, m: Serve)
    requires EnabledServe(c, s, t, m)
    ensures var s' := ApplyServe(c, s, t, m);
            && |s'.threads| == |s.threads| && s.terminate == s'.terminate && s'.stealing == s.stealing
            && forall u: nat | u < |s.threads| && u != t :: s'.threads[u] == s.threads[u]
  {
  }

  lemma OwnerControl(c: Config, s: State, t: nat, k: Control)
    requires EnabledControl(c, s, t, k)
    ensures var s' := ApplyControl(c, s, t, k);
            && |s'.threads| == |s.threads| && (s.terminate ==> s'.terminate)
            && forall u: nat | u < |s.threads| && u != t ::
                 s'.threads[u] == s.threads[u] && (Holds(s', u) <==> Holds(s, u))
  {
  }

  lemma OwnFetch(c: Config, s: State, t: nat, f: Fetch)
    requires EnabledFetch(c, s, t, f) && ThreadOk(c, s, t, s.threads[t])
    ensures var s' := ApplyFetch(c, s, t, f);
            && ThreadOk(c, s', t, s'.threads[t])
            && s'.waiting - s.waiting == Bit(Counted(s'.threads[t].pc)) - Bit(Counted(s.threads[t].pc))
  {
  }

  lemma OwnServe(c: Config, s: State, t: nat, m: Serve)
    requires EnabledServe(c, s, t, m) && ThreadOk(c, s, t, s.threads[t])
    ensures var s' := ApplyServe(c, s, t, m);
            && ThreadOk(c, s', t, s'.threads[t])
            && s'.waiting - s.waiting == Bit(Counted(s'.threads[t].pc)) - Bit(Counted(s.threads[t].pc))
  {
  }

  lemma OwnSteal(c: Config, s: State, t: nat, h: Steal)
    requires EnabledSteal(c, s, t, h) && ThreadOk(c, s, t, s.threads[t])
    ensures var s' := ApplySteal(c, s, t, h);
            && ThreadOk(c, s', t, s'.threads[t])
            && s'.waiting - s.waiting == Bit(Counted(s'.threads[t].pc)) - Bit(Counted(s.threads[t].pc))
  {
  }

  lemma OwnBarrier(c: Config, s: State, t: nat, b: Barrier)
    requires EnabledBarrier(c, s, t, b) && ThreadOk(c, s, t, s.threads[t])
    ensures var s' := ApplyBarrier(c, s, t, b);
            && ThreadOk(c, s', t, s'.threads[t])
            && s'.waiting - s.waiting == Bit(Counted(s'.threads[t].pc)) - Bit(Counted(s.threads[t].pc))
  {
  }

  /** From the loop to the inner wait. */
  predicate EarlyControl(k: Control) {
    k.Exit? || k.Go? || k.PickNone? || k.Again? || k.BeginWait? || k.Miss? || k.CheckAgain? || k.CheckExit?
  }

  lemma OwnEarlyControl(c: Config, s: State, t: nat, k: Control)
    requires EnabledControl(c, s, t, k) && ThreadOk(c, s, t, s.threads[t]) && EarlyControl(k)
    ensures var s' := ApplyControl(c, s, t, k);
            && ThreadOk(c, s', t, s'.threads[t])
            && s'.waiting - s.waiting == Bit(Counted(s'.threads[t].pc)) - Bit(Counted(s.threads[t].pc))
  {
  }

  lemma OwnControl(c: Config, s: State, t: nat, k: Control)
    requires EnabledControl(c, s, t, k) && ThreadOk(c, s, t, s.threads[t]) && !EarlyControl(k)
    ensures var s' := ApplyControl(c, s, t, k);
            && ThreadOk(c, s', t, s'.threads[t])
            && s'.waiting - s.waiting == Bit(Counted(s'.threads[t].pc)) - Bit(Counted(s.threads[t].pc))
  {
  }

  function Bit(b: bool): nat {
    if b then 1 else 0
  }

  lemma OwnStep(c: Config, s: State, t: nat, a: Action)
    requires Enabled(c, s, t, a) && ThreadOk(c, s, t, s.threads[t])
    ensures var s' := Apply(c, s, t, a);
            && |s'.threads| == |s.threads| && ThreadOk(c, s', t, s'.threads[t])
            && s'.waiting - s.waiting == Bit(Counted(s'.threads[t].pc)) - Bit(Counted(s.threads[t].pc))
  {
    OwnerStep(c, s, t, a);
    match a
    case FetchStep(f) => OwnFetch(c, s, t, f);
    case ServeStep(m) => OwnServe(c, s, t, m);
    case StealStep(h) => OwnSteal(c, s, t, h);
    case BarrierStep(b) => OwnBarrier(c, s, t, b);
    case ControlStep(k) =>
      if EarlyControl(k) {
        OwnEarlyControl(c, s, t, k);
      } else {
        OwnControl(c, s, t, k);
      }
  }

  lemma ShapeStep(c: Config, s: State, t: nat, a: Action)
    requires Shape(c, s) && Enabled(c, s, t, a)
    ensures Shape(c, Apply(c, s, t, a))
  {
    var s' := Apply(c, s, t, a);
    OwnerStep(c, s, t, a);
    forall u: nat | u < c.n
      ensures ThreadOk(c, s', u, s'.threads[u])
    {
      assert ThreadOk(c, s, u, s.threads[u]);
      if u == t {
        OwnStep(c, s, t, a);
      }
    }
  }

  lemma OneThread(c: Config, s: State, t: nat, a: Action)
    requires Enabled(c, s, t, a)
    ensures var s' := Apply(c, s, t, a);
            |s'.threads| == |s.threads| && s'.threads == s.threads[t := s'.threads[t]]
  {
    OwnerStep(c, s, t, a);
  }

  lemma WaitingStep(c: Config, s: State, t: nat, a: Action)
    requires Shape(c, s) && WaitingOk(c, s) && Enabled(c, s, t, a)
    ensures WaitingOk(c, Apply(c, s, t, a))
  {
    assert ThreadOk(c, s, t, s.threads[t]);
    OneThread(c, s, t, a);
    OwnStep(c, s, t, a);
    TotalUpdate(c, Waiting, s.threads, t, Apply(c, s, t, a).threads[t]);
  }

  // ---- conservation: what has been expanded or reported, plus what is still owed ----

  ghost function SharedExpand(c: Config, s: State, x: nat): nat {
    s.expanded[x] + CountAll(s.gnodes, x) + CountRoots(c.rootsOf, s.roots, x)
    + CountRoots(c.rootsOf, s.sentRoots, x) + CountAll(s.sentNodes, x)
  }

  ghost function SharedReport(c: Config, s: State, x: nat): nat {
    s.reported[x] + BelowAll(s.gnodes, x) + CountRoots(c.rootsOf, s.roots, x)
    + CountRoots(c.rootsOf, s.sentRoots, x) + BelowAll(s.sentNodes, x)
  }

  ghost function InExpand(c: Config, s: State, x: nat): nat {
    CountRoots(c.rootsOf, c.initial, x) + CountRoots(c.rootsOf, s.gotRoots, x) + CountAll(s.gotNodes, x)
  }

  ghost function InReport(c: Config, s: State, x: nat): nat {
    CountRoots(c.rootsOf, c.initial, x) + CountRoots(c.rootsOf, s.gotRoots, x) + BelowAll(s.gotNodes, x)
  }

  ghost predicate Conserved(c: Config, s: State, x: nat) {
    && SharedExpand(c, s, x) + Total(c, ToExpand(x), s.threads) == InExpand(c, s, x)
    && SharedReport(c, s, x) + Total(c, ToReport(x), s.threads) == InReport(c, s, x)
  }

  lemma PushFrame(fs: seq<Frame>, f: Frame, x: nat)
    ensures FramesExpand(fs + [f], x) == FramesExpand(fs, x) + FrameExpand(f, x)
    ensures FramesReport(fs + [f], x) == FramesReport(fs, x) + FrameReport(f, x)
  {
    assert (fs + [f])[..|fs|] == fs;
  }

  lemma TopFrame(fs: seq<Frame>, f: Frame, x: nat)
    requires fs != []
    ensures var n := |fs| - 1;
            && FramesExpand(fs[n := f], x) + FrameExpand(fs[n], x) == FramesExpand(fs, x) + FrameExpand(f, x)
            && FramesReport(fs[n := f], x) + FrameReport(fs[n], x) == FramesReport(fs, x) + FrameReport(f, x)
  {
    var n := |fs| - 1;
    assert fs[n := f][..n] == fs[..n];
  }

  lemma Single(t: Tree, x: nat)
    ensures CountAll([t], x) == (if t.id == x then 1 else 0) + CountAll(t.kids, x)
    ensures BelowAll([t], x) == CountAll(t.kids, x)
    ensures Tops([t], x) == if t.id == x then 1 else 0
  {
  }

  lemma Split(ts: seq<Tree>, x: nat)
    requires ts != []
    ensures CountAll(ts, x) == CountAll([ts[0]], x) + CountAll(ts[1..], x)
    ensures BelowAll(ts, x) == BelowAll([ts[0]], x) + BelowAll(ts[1..], x)
    ensures var n := |ts| - 1;
            && CountAll(ts, x) == CountAll(ts[..n], x) + CountAll([ts[n]], x)
            && BelowAll(ts, x) == BelowAll(ts[..n], x) + BelowAll([ts[n]], x)
  {
    var n := |ts| - 1;
    assert ts == [ts[0]] + ts[1..] == ts[..n] + [ts[n]];
    CountConcat([ts[0]], ts[1..], x);
    CountConcat(ts[..n], [ts[n]], x);
    BelowConcat([ts[0]], ts[1..], x);
    BelowConcat(ts[..n], [ts[n]], x);
  }

  lemma Join(ts: seq<Tree>, us: seq<Tree>, x: nat)
    ensures CountAll(ts + us, x) == CountAll(ts, x) + CountAll(us, x)
    ensures BelowAll(ts + us, x) == BelowAll(ts, x) + BelowAll(us, x)
  {
    CountConcat(ts, us, x);
    BelowConcat(ts, us, x);
  }

  lemma Opened(ts: seq<Tree>, x: nat)
    ensures FramesExpand(Open(ts), x) == CountAll(ts, x) && FramesReport(Open(ts), x) == CountAll(ts, x)
  {
    PushFrame([], Frame(ts, [], []), x);
    assert [] + [Frame(ts, [], [])] == Open(ts);
  }

  lemma FirstRoot(c: Config, rs: seq<nat>, x: nat)
    requires rs != []
    ensures CountRoots(c.rootsOf, rs, x) == CountAll(c.rootsOf(rs[0]), x) + CountRoots(c.rootsOf, rs[1..], x)
    ensures CountRoots(c.rootsOf, [rs[0]], x) == CountAll(c.rootsOf(rs[0]), x)
  {
  }

  /** One step leaves the thread's share plus the shared part unchanged. */
  ghost predicate Balanced(c: Config, s: State, s': State, t: nat, x: nat)
    requires t < |s.threads| && t < |s'.threads|
  {
    var th, th' := s.threads[t], s'.threads[t];
    && SharedExpand(c, s', x) + Weight(c, ToExpand(x), th') + InExpand(c, s, x)
       == SharedExpand(c, s, x) + Weight(c, ToExpand(x), th) + InExpand(c, s', x)
    && SharedReport(c, s', x) + Weight(c, ToReport(x), th') + InReport(c, s, x)
       == SharedReport(c, s, x) + Weight(c, ToReport(x), th) + InReport(c, s', x)
  }

  /** Passing the served node on leaves its report in the frame and its subtree to others. */
  lemma ServedFrame(th: Thread, x: nat)
    requires th.frames != [] && |Top(th).serving| == 1 && Top(th).unreported == []
    ensures var f := Top(th);
            var fs := SetTop(th, Frame(f.todo, [], f.serving)).frames;
            && FramesExpand(fs, x) + CountAll(f.serving, x) == FramesExpand(th.frames, x)
            && FramesReport(fs, x) + BelowAll(f.serving, x) == FramesReport(th.frames, x)
            && CountAll(f.serving, x) == (if f.serving[0].id == x then 1 else 0) + CountAll(f.serving[0].kids, x)
            && BelowAll(f.serving, x) == CountAll(f.serving[0].kids, x)
  {
    var f := Top(th);
    assert f.serving == [f.serving[0]];
    Single(f.serving[0], x);
    TopFrame(th.frames, Frame(f.todo, [], f.serving), x);
  }

  lemma BalanceAsk(c: Config, s: State, t: nat, answer: Answer, x: nat)
    requires EnabledControl(c, s, t, Ask(answer))
    ensures Balanced(c, s, ApplyControl(c, s, t, Ask(answer)), t, x)
  {
    match answer
    case NewRoots(rs) =>
      RootsConcat(c.rootsOf, s.roots, rs, x);
      RootsConcat(c.rootsOf, s.gotRoots, rs, x);
    case NewNodes(ts) =>
      Join(s.gnodes, ts, x);
      Join(s.gotNodes, ts, x);
    case Nothing =>
  }

  lemma BalanceEarlyControl(c: Config, s: State, t: nat, k: Control, x: nat)
    requires EnabledControl(c, s, t, k) && EarlyControl(k)
    ensures Balanced(c, s, ApplyControl(c, s, t, k), t, x)
  {
    EarlyKeepsWork(c, s, t, k);
    SameWorkBalances(c, s, ApplyControl(c, s, t, k), t, x);
  }

  /** The step touches no work, neither the thread's nor the shared. */
  ghost predicate SameWork(s: State, s': State, t: nat)
    requires t < |s.threads| && t < |s'.threads|
  {
    var th, th' := s.threads[t], s'.threads[t];
    && th'.lnodes == th.lnodes && th'.frames == th.frames && th'.held == th.held && th'.loot == th.loot
    && s'.gnodes == s.gnodes && s'.roots == s.roots && s'.expanded == s.expanded && s'.reported == s.reported
    && s'.sentRoots == s.sentRoots && s'.sentNodes == s.sentNodes
    && s'.gotRoots == s.gotRoots && s'.gotNodes == s.gotNodes
  }

  lemma EarlyKeepsWork(c: Config, s: State, t: nat, k: Control)
    requires EnabledControl(c, s, t, k) && EarlyControl(k)
    ensures SameWork(s, ApplyControl(c, s, t, k), t)
  {
  }

  lemma LateKeepsWork(c: Config, s: State, t: nat, k: Control)
    requires EnabledControl(c, s, t, k) && !k.Ask? && !EarlyControl(k)
    ensures SameWork(s, ApplyControl(c, s, t, k), t)
  {
  }

  lemma SameWorkBalances(c: Config, s: State, s': State, t: nat, x: nat)
    requires t < |s.threads| && t < |s'.threads| && SameWork(s, s', t)
    ensures Balanced(c, s, s', t, x)
  {
  }

  lemma BalanceControl(c: Config, s: State, t: nat, k: Control, x: nat)
    requires EnabledControl(c, s, t, k) && !k.Ask? && !EarlyControl(k)
    ensures Balanced(c, s, ApplyControl(c, s, t, k), t, x)
  {
    LateKeepsWork(c, s, t, k);
    SameWorkBalances(c, s, ApplyControl(c, s, t, k), t, x);
  }

  lemma BalanceFetchLocal(c: Config, s: State, t: nat, f: Fetch, x: nat)
    requires EnabledFetch(c, s, t, f) && ThreadOk(c, s, t, s.threads[t])
    requires f.PickLocal? || f.PickRoot?
    ensures Balanced(c, s, ApplyFetch(c, s, t, f), t, x)
  {
    var th := s.threads[t];
    match f
    case PickLocal =>
      var n := |th.lnodes| - 1;
      Split(th.lnodes, x);
      Single(th.lnodes[n], x);
      Opened(th.lnodes[n].kids, x);
    case PickRoot =>
      FirstRoot(c, s.roots, x);
      Opened(c.rootsOf(s.roots[0]), x);
  }

  lemma BalanceFetchQueue(c: Config, s: State, t: nat, f: Fetch, x: nat)
    requires EnabledFetch(c, s, t, f) && ThreadOk(c, s, t, s.threads[t])
    requires f.Dequeue? || f.TakeHeld?
    ensures Balanced(c, s, ApplyFetch(c, s, t, f), t, x)
  {
    var th := s.threads[t];
    match f
    case Dequeue =>
      Split(s.gnodes, x);
    case TakeHeld =>
      assert th.held == [th.held[0]];
      Single(th.held[0], x);
      Opened(th.held[0].kids, x);
  }

  lemma BalanceFetch(c: Config, s: State, t: nat, f: Fetch, x: nat)
    requires EnabledFetch(c, s, t, f) && ThreadOk(c, s, t, s.threads[t])
    ensures Balanced(c, s, ApplyFetch(c, s, t, f), t, x)
  {
    if f.PickLocal? || f.PickRoot? {
      BalanceFetchLocal(c, s, t, f, x);
    } else {
      BalanceFetchQueue(c, s, t, f, x);
    }
  }

  lemma BalanceServePass(c: Config, s: State, t: nat, m: Serve, x: nat)
    requires EnabledServe(c, s, t, m) && ThreadOk(c, s, t, s.threads[t])
    requires m.Offer? || m.Keep? || m.Recurse?
    ensures Balanced(c, s, ApplyServe(c, s, t, m), t, x)
  {
    var th := s.threads[t];
    match m
    case Offer =>
      ServedFrame(th, x);
      Join(s.gnodes, Top(th).serving, x);
    case Keep =>
      ServedFrame(th, x);
      Join(th.lnodes, Top(th).serving, x);
    case Recurse =>
      var f := Top(th);
      ServedFrame(th, x);
      PushFrame(SetTop(th, Frame(f.todo, [], f.serving)).frames, Frame(f.serving[0].kids, [], []), x);
  }

  lemma BalanceReport(c: Config, s: State, t: nat, x: nat)
    requires EnabledServe(c, s, t, Report) && ThreadOk(c, s, t, s.threads[t])
    ensures Balanced(c, s, ApplyServe(c, s, t, Report), t, x)
  {
    var th := s.threads[t];
    var f := Top(th);
    assert f.unreported == [f.unreported[0]];
    Single(f.unreported[0], x);
    TopFrame(th.frames, Frame(f.todo, [], []), x);
  }

  lemma BalanceServeRest(c: Config, s: State, t: nat, m: Serve, x: nat)
    requires EnabledServe(c, s, t, m) && ThreadOk(c, s, t, s.threads[t])
    requires m.Deliver? || m.Return?
    ensures Balanced(c, s, ApplyServe(c, s, t, m), t, x)
  {
    if m.Deliver? {
      var th := s.threads[t];
      var f := Top(th);
      Split(f.todo, x);
      TopFrame(th.frames, Frame(f.todo[1..], [f.todo[0]], []), x);
    }
  }

  lemma BalanceServe(c: Config, s: State, t: nat, m: Serve, x: nat)
    requires EnabledServe(c, s, t, m) && ThreadOk(c, s, t, s.threads[t])
    ensures Balanced(c, s, ApplyServe(c, s, t, m), t, x)
  {
    if m.Offer? || m.Keep? || m.Recurse? {
      BalanceServePass(c, s, t, m, x);
    } else if m.Report? {
      BalanceReport(c, s, t, x);
    } else {
      BalanceServeRest(c, s, t, m, x);
    }
  }

  lemma BalanceSend(c: Config, s: State, t: nat, x: nat)
    requires EnabledSteal(c, s, t, StealSend) && ThreadOk(c, s, t, s.threads[t])
    ensures Balanced(c, s, ApplySteal(c, s, t, StealSend), t, x)
  {
    var th := s.threads[t];
    if th.loot != [] {
      RootsConcat(c.rootsOf, s.sentRoots, th.loot, x);
    } else {
      ServedFrame(th, x);
      Join(s.sentNodes, Top(th).serving, x);
    }
  }

  lemma BalanceSteal(c: Config, s: State, t: nat, h: Steal, x: nat)
    requires EnabledSteal(c, s, t, h) && ThreadOk(c, s, t, s.threads[t])
    ensures Balanced(c, s, ApplySteal(c, s, t, h), t, x)
  {
    if h.StealSend? {
      BalanceSend(c, s, t, x);
    } else if h.StealRoot? {
      FirstRoot(c, s.roots, x);
      RootsConcat(c.rootsOf, s.threads[t].loot, [s.roots[0]], x);
    }
  }

  lemma BalanceStep(c: Config, s: State, t: nat, a: Action, x: nat)
    requires Enabled(c, s, t, a) && ThreadOk(c, s, t, s.threads[t]) && |Apply(c, s, t, a).threads| == |s.threads|
    ensures Balanced(c, s, Apply(c, s, t, a), t, x)
  {
    match a
    case FetchStep(f) => BalanceFetch(c, s, t, f, x);
    case ServeStep(m) => BalanceServe(c, s, t, m, x);
    case StealStep(h) => BalanceSteal(c, s, t, h, x);
    case BarrierStep(b) => BalanceBarrier(c, s, t, b, x);
    case ControlStep(k) =>
      if k.Ask? {
        BalanceAsk(c, s, t, k.answer, x);
      } else if EarlyControl(k) {
        BalanceEarlyControl(c, s, t, k, x);
      } else {
        BalanceControl(c, s, t, k, x);
      }
  }

  lemma BalanceBarrier(c: Config, s: State, t: nat, b: Barrier, x: nat)
    requires EnabledBarrier(c, s, t, b)
    ensures Balanced(c, s, ApplyBarrier(c, s, t, b), t, x)
  {
  }

  lemma ConservedStep(c: Config, s: State, t: nat, a: Action, x: nat)
    requires Shape(c, s) && Conserved(c, s, x) && Enabled(c, s, t, a)
    ensures Conserved(c, Apply(c, s, t, a), x)
  {
    var s' := Apply(c, s, t, a);
    assert ThreadOk(c, s, t, s.threads[t]);
    OneThread(c, s, t, a);
    BalanceStep(c, s, t, a, x);
    TotalUpdate(c, ToExpand(x), s.threads, t, s'.threads[t]);
    TotalUpdate(c, ToReport(x), s.threads, t, s'.threads[t]);
  }

  // ---- the spin barrier ----

  /** Between the two barriers of a round. */
  predicate Between(pc: PC) {
    pc.TryLock? || pc.Section? || pc.Unlock? || pc.Depart? || (pc.Wait? && !pc.first)
  }

  /** How the number of completed waits relates to the generation `g`. */
  ghost predicate PhaseOk(g: nat, th: Thread) {
    && (if th.pc.Wait? && th.pc.stage.Await? then
          th.waits == th.pc.stage.my && (th.pc.stage.my == g || th.pc.stage.my + 1 == g)
        else
          th.waits == g && (th.pc.Wait? && th.pc.stage.Decrement? ==> th.pc.stage.my == g))
    && (Between(th.pc) <==> th.waits % 2 == 1)
  }

  ghost predicate BarrierOk(c: Config, s: State) {
    var a := Total(c, Arrived(s.generation), s.threads);
    var r, b := Total(c, Resetting, s.threads), Total(c, Bumping, s.threads);
    && r + b <= 1 && (if r + b == 1 then a == c.n else a < c.n)
    && s.spaces == (if b == 1 then c.n else c.n - a)
    && forall t | 0 <= t < |s.threads| :: PhaseOk(s.generation, s.threads[t])
  }

  /** `wait` calls that the thread has entered, counted from its decrement on. */
  function Entered(th: Thread): nat {
    th.waits + (if th.pc.Wait? && !th.pc.stage.ReadGeneration? && !th.pc.stage.Decrement? then 1 else 0)
  }

  lemma BitWeights(c: Config, m: Measure, ths: seq<Thread>)
    requires m.Waiting? || m.Arrived? || m.Resetting? || m.Bumping?
    ensures Total(c, m, ths) <= |ths|
    ensures Total(c, m, ths) == |ths| <==> forall t | 0 <= t < |ths| :: Weight(c, m, ths[t]) == 1
    ensures Total(c, m, ths) == 0 <==> forall t | 0 <= t < |ths| :: Weight(c, m, ths[t]) == 0
  {
    var ws := Weights(c, m, ths);
    SumOfBits(ws);
    assert forall t | 0 <= t < |ths| :: ws[t] == Weight(c, m, ths[t]);
  }

  lemma OnlyOne(c: Config, m: Measure, ths: seq<Thread>, t: nat)
    requires m.Resetting? || m.Bumping?
    requires t < |ths| && Total(c, m, ths) == 1 && Weight(c, m, ths[t]) == 1
    ensures forall u: nat | u < |ths| && u != t :: Weight(c, m, ths[u]) == 0
  {
    var ws := Weights(c, m, ths);
    SumUpdate(ws, t, 0);
    SumOfBits(ws[t := 0]);
    forall u: nat | u < |ths| && u != t
      ensures Weight(c, m, ths[u]) == 0
    {
      assert ws[t := 0][u] == 0;
    }
  }

  /** Steps outside the barrier do not touch its state. */
  lemma BarrierUntouched(c: Config, s: State, t: nat, a: Action)
    requires Shape(c, s) && BarrierOk(c, s) && Enabled(c, s, t, a) && !a.BarrierStep?
    ensures BarrierOk(c, Apply(c, s, t, a))
  {
    var s' := Apply(c, s, t, a);
    var th, th' := s.threads[t], s'.threads[t];
    OneThread(c, s, t, a);
    assert PhaseOk(s.generation, th);
    QuietPhase(c, s, t, a);
    TotalUpdate(c, Arrived(s.generation), s.threads, t, th');
    TotalUpdate(c, Resetting, s.threads, t, th');
    TotalUpdate(c, Bumping, s.threads, t, th');
  }

  lemma QuietPhase(c: Config, s: State, t: nat, a: Action)
    requires Enabled(c, s, t, a) && !a.BarrierStep? && PhaseOk(s.generation, s.threads[t])
    ensures var s' := Apply(c, s, t, a);
            && |s'.threads| == |s.threads| && s'.spaces == s.spaces && s'.generation == s.generation
            && PhaseOk(s.generation, s'.threads[t])
            && Weight(c, Arrived(s.generation), s'.threads[t]) == Weight(c, Arrived(s.generation), s.threads[t])
            && Weight(c, Resetting, s'.threads[t]) == Weight(c, Resetting, s.threads[t])
            && Weight(c, Bumping, s'.threads[t]) == Weight(c, Bumping, s.threads[t])
  {
    match a
    case FetchStep(f) => QuietFetch(c, s, t, f);
    case ServeStep(m) => QuietServe(c, s, t, m);
    case StealStep(h) => QuietSteal(c, s, t, h);
    case ControlStep(k) => QuietControl(c, s, t, k);
  }

  lemma QuietFetch(c: Config, s: State, t: nat, f: Fetch)
    requires EnabledFetch(c, s, t, f)
    ensures var s' := ApplyFetch(c, s, t, f);
            && |s'.threads| == |s.threads| && s'.spaces == s.spaces && s'.generation == s.generation
            && s'.threads[t].waits == s.threads[t].waits
            && (s'.threads[t].pc.Work? || s'.threads[t].pc.Leave?) && !s.threads[t].pc.Wait? && !Between(s.threads[t].pc)
  {
  }

  lemma QuietSteal(c: Config, s: State, t: nat, h: Steal)
    requires EnabledSteal(c, s, t, h)
    ensures var s' := ApplySteal(c, s, t, h);
            && |s'.threads| == |s.threads| && s'.spaces == s.spaces && s'.generation == s.generation
            && s'.threads[t].waits == s.threads[t].waits && s'.threads[t].pc == s.threads[t].pc
  {
  }

  lemma QuietServe(c: Config, s: State, t: nat, m: Serve)
    requires EnabledServe(c, s, t, m)
    ensures var s' := ApplyServe(c, s, t, m);
            && |s'.threads| == |s.threads| && s'.spaces == s.spaces && s'.generation == s.generation
            && s'.threads[t].waits == s.threads[t].waits
            && (s'.threads[t].pc.Work? || s'.threads[t].pc.AfterPick? || s'.threads[t].pc.Pick?)
  {
  }

  lemma QuietControl(c: Config, s: State, t: nat, k: Control)
    requires EnabledControl(c, s, t, k) && PhaseOk(s.generation, s.threads[t])
    ensures var s' := ApplyControl(c, s, t, k);
            && |s'.threads| == |s.threads| && s'.spaces == s.spaces && s'.generation == s.generation
            && PhaseOk(s.generation, s'.threads[t])
            && s'.threads[t].pc.Wait? == (k.Arrive? || k.DepartStep?)
            && !s.threads[t].pc.Wait?
            && (s'.threads[t].pc.Wait? ==> s'.threads[t].pc.stage.ReadGeneration?)
  {
  }

  /** How the three totals move when thread `t` becomes `th`. */
  ghost predicate TotalsMove(c: Config, g: nat, ths: seq<Thread>, t: nat, th: Thread)
    requires t < |ths|
  {
    var after := ths[t := th];
    && Total(c, Arrived(g), after) + Weight(c, Arrived(g), ths[t]) == Total(c, Arrived(g), ths) + Weight(c, Arrived(g), th)
    && Total(c, Resetting, after) + Weight(c, Resetting, ths[t]) == Total(c, Resetting, ths) + Weight(c, Resetting, th)
    && Total(c, Bumping, after) + Weight(c, Bumping, ths[t]) == Total(c, Bumping, ths) + Weight(c, Bumping, th)
  }

  lemma TotalsFollow(c: Config, g: nat, ths: seq<Thread>, t: nat, th: Thread)
    requires t < |ths|
    ensures TotalsMove(c, g, ths, t, th)
    ensures Total(c, Resetting, ths) >= Weight(c, Resetting, ths[t])
    ensures Total(c, Bumping, ths) >= Weight(c, Bumping, ths[t])
  {
    TotalUpdate(c, Arrived(g), ths, t, th);
    TotalUpdate(c, Resetting, ths, t, th);
    TotalUpdate(c, Bumping, ths, t, th);
    SumAtLeast(Weights(c, Resetting, ths), t);
    SumAtLeast(Weights(c, Bumping, ths), t);
  }

  lemma BarrierAdvances(c: Config, s: State, t: nat, b: Barrier)
    requires Shape(c, s) && BarrierOk(c, s) && EnabledBarrier(c, s, t, b)
    ensures BarrierOk(c, ApplyBarrier(c, s, t, b))
  {
    if b.WaitBump? {
      BumpAdvances(c, s, t);
    } else if b.WaitDecrement? {
      DecrementAdvances(c, s, t);
    } else if b.WaitReset? {
      ResetAdvances(c, s, t);
    } else if b.WaitRead? {
      ReadAdvances(c, s, t);
    } else {
      OverAdvances(c, s, t);
    }
  }

  lemma ReadAdvances(c: Config, s: State, t: nat)
    requires Shape(c, s) && BarrierOk(c, s) && EnabledBarrier(c, s, t, WaitRead)
    ensures BarrierOk(c, ApplyBarrier(c, s, t, WaitRead))
  {
    assert PhaseOk(s.generation, s.threads[t]);
    TotalsFollow(c, s.generation, s.threads, t, ApplyBarrier(c, s, t, WaitRead).threads[t]);
  }

  lemma OverAdvances(c: Config, s: State, t: nat)
    requires Shape(c, s) && BarrierOk(c, s) && EnabledBarrier(c, s, t, WaitOver)
    ensures BarrierOk(c, ApplyBarrier(c, s, t, WaitOver))
  {
    assert PhaseOk(s.generation, s.threads[t]);
    OverThread(c, s.generation, s.threads[t]);
    TotalsFollow(c, s.generation, s.threads, t, AfterWait(s.threads[t]));
  }

  /** Leaving an older phase is no arrival in this one. */
  lemma OverThread(c: Config, g: nat, th: Thread)
    requires PhaseOk(g, th) && th.pc.Wait? && th.pc.stage.Await? && th.pc.stage.my != g
    ensures PhaseOk(g, AfterWait(th))
    ensures forall m | m == Arrived(g) || m == Resetting || m == Bumping :: Weight(c, m, AfterWait(th)) == Weight(c, m, th) == 0
  {
  }

  lemma ResetAdvances(c: Config, s: State, t: nat)
    requires Shape(c, s) && BarrierOk(c, s) && EnabledBarrier(c, s, t, WaitReset)
    ensures BarrierOk(c, ApplyBarrier(c, s, t, WaitReset))
  {
    assert PhaseOk(s.generation, s.threads[t]);
    TotalsFollow(c, s.generation, s.threads, t, ApplyBarrier(c, s, t, WaitReset).threads[t]);
  }

  lemma DecrementAdvances(c: Config, s: State, t: nat)
    requires Shape(c, s) && BarrierOk(c, s) && EnabledBarrier(c, s, t, WaitDecrement)
    ensures BarrierOk(c, ApplyBarrier(c, s, t, WaitDecrement))
  {
    assert PhaseOk(s.generation, s.threads[t]);
    TotalsFollow(c, s.generation, s.threads, t, ApplyBarrier(c, s, t, WaitDecrement).threads[t]);
    NotAllArrived(c, s, t);
  }

  lemma BumpAdvances(c: Config, s: State, t: nat)
    requires Shape(c, s) && BarrierOk(c, s) && EnabledBarrier(c, s, t, WaitBump)
    ensures BarrierOk(c, ApplyBarrier(c, s, t, WaitBump))
  {
    var s' := ApplyBarrier(c, s, t, WaitBump);
    assert PhaseOk(s.generation, s.threads[t]);
    TotalsFollow(c, s.generation, s.threads, t, s'.threads[t]);
    GenerationTurns(c, s, t);
    TotalsFollow(c, s'.generation, s.threads, t, s'.threads[t]);
  }

  lemma NotAllArrived(c: Config, s: State, t: nat)
    requires t < |s.threads| && Weight(c, Arrived(s.generation), s.threads[t]) == 0
    ensures Total(c, Arrived(s.generation), s.threads) < |s.threads|
  {
    BitWeights(c, Arrived(s.generation), s.threads);
  }

  /** When the last arrival bumps the generation, nobody has arrived for the next one. */
  lemma GenerationTurns(c: Config, s: State, t: nat)
    requires Shape(c, s) && BarrierOk(c, s) && EnabledBarrier(c, s, t, WaitBump)
    ensures var s' := ApplyBarrier(c, s, t, WaitBump);
            && Total(c, Arrived(s'.generation), s'.threads) == 0
            && forall u | 0 <= u < |s'.threads| :: PhaseOk(s'.generation, s'.threads[u])
  {
    var s' := ApplyBarrier(c, s, t, WaitBump);
    var g := s.generation;
    SumAtLeast(Weights(c, Bumping, s.threads), t);
    OnlyOne(c, Bumping, s.threads, t);
    BitWeights(c, Resetting, s.threads);
    BitWeights(c, Arrived(g), s.threads);
    BitWeights(c, Arrived(g + 1), s'.threads);
    forall u: nat | u < |s'.threads|
      ensures Weight(c, Arrived(g + 1), s'.threads[u]) == 0 && PhaseOk(g + 1, s'.threads[u])
    {
      assert PhaseOk(g, s.threads[u]);
      if u == t {
        BumperTurns(c, g, s.threads[t]);
      } else {
        assert Weight(c, Bumping, s.threads[u]) == 0;
        ArrivedTurns(c, g, s.threads[u]);
      }
    }
  }

  lemma BumperTurns(c: Config, g: nat, th: Thread)
    requires PhaseOk(g, th) && th.pc.Wait? && th.pc.stage.Bump?
    ensures Weight(c, Arrived(g + 1), AfterWait(th)) == 0 && PhaseOk(g + 1, AfterWait(th))
  {
  }

  lemma ArrivedTurns(c: Config, g: nat, th: Thread)
    requires PhaseOk(g, th) && Weight(c, Arrived(g), th) == 1
    requires Weight(c, Resetting, th) == 0 && Weight(c, Bumping, th) == 0
    ensures Weight(c, Arrived(g + 1), th) == 0 && PhaseOk(g + 1, th)
  {
  }

  lemma BarrierStepOk(c: Config, s: State, t: nat, a: Action)
    requires Shape(c, s) && BarrierOk(c, s) && Enabled(c, s, t, a)
    ensures BarrierOk(c, Apply(c, s, t, a))
  {
    if a.BarrierStep? {
      BarrierAdvances(c, s, t, a.b);
    } else {
      BarrierUntouched(c, s, t, a);
    }
  }

  /** While one thread is in the section, all are between the barriers or leaving the first. */
  ghost predicate OutOfWork(g: nat, th: Thread) {
    Between(th.pc) || (th.pc.Wait? && th.pc.first && th.pc.stage.Await? && th.pc.stage.my != g)
  }

  lemma SectionAlone(c: Config, s: State, t: nat, u: nat)
    requires BarrierOk(c, s) && t < |s.threads| && u < |s.threads| && s.threads[t].pc.Section?
    ensures OutOfWork(s.generation, s.threads[u])
  {
    assert PhaseOk(s.generation, s.threads[t]) && PhaseOk(s.generation, s.threads[u]);
  }

  // ---- where work can hide ----

  /** Will try the shared queue again before it can leave. */
  predicate Active(pc: PC) {
    pc.Pick? || pc.Work? || pc.AfterPick? || pc.Enter? || pc.Spin? || pc == Leave(true)
  }

  /** Has found the root queue empty since its last work. */
  predicate Past(pc: PC) {
    pc == AfterPick(false) || pc.Enter? || pc.Spin? || pc.Check? || pc.Leave? || pc.MoreWork?
  }

  /** Shared memory: queued nodes have a taker, and nobody waits while roots are left. */
  ghost predicate SharedOk(c: Config, s: State) {
    !c.distributed ==>
      && s.stealing == Free && s.sentRoots == s.gotRoots == [] && s.sentNodes == s.gotNodes == []
      && (s.gnodes != [] ==> exists t :: 0 <= t < |s.threads| && Active(s.threads[t].pc))
      && (s.terminate ==> s.roots == [])
      && (forall t | 0 <= t < |s.threads| && Past(s.threads[t].pc) :: s.roots == [])
  }

  /** Distributed: once termination is announced no work is left in this process. */
  ghost predicate TerminatedOk(c: Config, s: State) {
    c.distributed && s.terminate ==>
      && s.roots == [] && s.gnodes == []
      && forall t | 0 <= t < |s.threads| ::
           s.threads[t].pc.Loop? || s.threads[t].pc.Done? || OutOfWork(s.generation, s.threads[t])
  }

  lemma SharedStep(c: Config, s: State, t: nat, a: Action)
    requires Shape(c, s) && SharedOk(c, s) && Enabled(c, s, t, a)
    ensures SharedOk(c, Apply(c, s, t, a))
  {
    if !c.distributed {
      var s' := Apply(c, s, t, a);
      OneThread(c, s, t, a);
      assert ThreadOk(c, s, t, s.threads[t]);
      SharedOwn(c, s, t, a);
      if s'.gnodes != [] && !Active(s'.threads[t].pc) {
        var u :| 0 <= u < |s.threads| && Active(s.threads[u].pc);
        assert u != t && Active(s'.threads[u].pc);
      }
    }
  }

  lemma SharedOwn(c: Config, s: State, t: nat, a: Action)
    requires !c.distributed && Shape(c, s) && SharedOk(c, s) && Enabled(c, s, t, a) && ThreadOk(c, s, t, s.threads[t])
    ensures var s' := Apply(c, s, t, a);
            && t < |s'.threads|
            && s'.stealing == Free && s'.sentRoots == s'.gotRoots == [] && s'.sentNodes == s'.gotNodes == []
            && (s'.gnodes != [] && !Active(s'.threads[t].pc) ==> s.gnodes != [] && !Active(s.threads[t].pc))
            && (s.roots == [] ==> s'.roots == [])
            && (s'.terminate || Past(s'.threads[t].pc) ==> s'.roots == [])
  {
    match a
    case FetchStep(f) =>
    case ServeStep(m) => SharedServe(c, s, t, m);
    case StealStep(h) =>
    case BarrierStep(b) =>
    case ControlStep(k) => SharedControl(c, s, t, k);
  }

  lemma SharedServe(c: Config, s: State, t: nat, m: Serve)
    requires EnabledServe(c, s, t, m)
    ensures var s' := ApplyServe(c, s, t, m);
            && t < |s'.threads| && Active(s'.threads[t].pc) && !Past(s'.threads[t].pc)
            && s'.roots == s.roots && s'.terminate == s.terminate && s'.stealing == s.stealing
            && s'.sentRoots == s.sentRoots && s'.gotRoots == s.gotRoots
            && s'.sentNodes == s.sentNodes && s'.gotNodes == s.gotNodes
  {
  }

  lemma SharedControl(c: Config, s: State, t: nat, k: Control)
    requires !c.distributed && Shape(c, s) && SharedOk(c, s) && EnabledControl(c, s, t, k)
    requires ThreadOk(c, s, t, s.threads[t])
    ensures var s' := ApplyControl(c, s, t, k);
            && t < |s'.threads| && s'.stealing == s.stealing && s'.roots == s.roots && s'.gnodes == s.gnodes
            && s'.sentRoots == s.sentRoots && s'.gotRoots == s.gotRoots
            && s'.sentNodes == s.sentNodes && s'.gotNodes == s.gotNodes
            && (s'.gnodes != [] && !Active(s'.threads[t].pc) ==> !Active(s.threads[t].pc))
            && (s'.terminate || Past(s'.threads[t].pc) ==> s'.roots == [])
  {
  }

  lemma TerminatedStep(c: Config, s: State, t: nat, a: Action)
    requires Shape(c, s) && BarrierOk(c, s) && TerminatedOk(c, s) && Enabled(c, s, t, a)
    ensures TerminatedOk(c, Apply(c, s, t, a))
  {
    if c.distributed {
      var s' := Apply(c, s, t, a);
      OneThread(c, s, t, a);
      assert PhaseOk(s.generation, s.threads[t]) && ThreadOk(c, s, t, s.threads[t]);
      if a.ControlStep? && a.k.Ask? {
        forall u | 0 <= u < |s.threads| { SectionAlone(c, s, t, u); }
      } else if s'.terminate {
        TerminatedOwn(c, s, t, a);
        forall u: nat | u < |s.threads|
          ensures s'.threads[u].pc.Loop? || s'.threads[u].pc.Done? || OutOfWork(s'.generation, s'.threads[u])
        {
          if u != t && a == BarrierStep(WaitBump) {
            StillOut(c, s, t, u);
          }
        }
      }
    }
  }

  lemma StillOut(c: Config, s: State, t: nat, u: nat)
    requires Shape(c, s) && BarrierOk(c, s) && EnabledBarrier(c, s, t, WaitBump) && u < |s.threads|
    ensures HasArrived(s.threads[u].pc, s.generation)
  {
    SumAtLeast(Weights(c, Bumping, s.threads), t);
    BitWeights(c, Arrived(s.generation), s.threads);
    assert Weight(c, Arrived(s.generation), s.threads[u]) == 1;
  }

  lemma TerminatedOwn(c: Config, s: State, t: nat, a: Action)
    requires c.distributed && Shape(c, s) && TerminatedOk(c, s) && s.terminate && Enabled(c, s, t, a)
    requires PhaseOk(s.generation, s.threads[t]) && ThreadOk(c, s, t, s.threads[t])
    ensures var s' := Apply(c, s, t, a);
            && s'.roots == [] && s'.gnodes == [] && t < |s'.threads|
            && (s'.threads[t].pc.Loop? || s'.threads[t].pc.Done? || OutOfWork(s'.generation, s'.threads[t]))
            && (a != BarrierStep(WaitBump) ==> s'.generation == s.generation)
  {
    var th := s.threads[t];
    assert th.pc.Loop? || th.pc.Done? || OutOfWork(s.generation, th);
    match a
    case FetchStep(f) =>
    case ServeStep(m) =>
    case StealStep(h) =>
    case BarrierStep(b) =>
    case ControlStep(k) =>
  }
}
