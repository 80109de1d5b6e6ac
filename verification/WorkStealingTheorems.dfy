/** What the work-stealing runner guarantees on every run. */
module WorkStealingTheorems {
  import opened Forest
  import opened Sums
  import opened WorkStealing
  import opened WorkStealingProof

  ghost predicate Inv(c: Config, s: State) {
    && Shape(c, s) && WaitingOk(c, s) && BarrierOk(c, s) && SharedOk(c, s) && TerminatedOk(c, s)
    && forall x: nat :: Conserved(c, s, x)
  }

  lemma InitialTotals(c: Config, m: Measure)
    requires c.n >= 1
    ensures Total(c, m, Init(c).threads) == 0
  {
    AllZero(Weights(c, m, Init(c).threads));
  }

  lemma InitInv(c: Config)
    requires c.n >= 1
    ensures Inv(c, Init(c))
  {
    InitialTotals(c, Waiting);
    InitialTotals(c, Arrived(0));
    InitialTotals(c, Resetting);
    InitialTotals(c, Bumping);
    forall x: nat
      ensures Conserved(c, Init(c), x)
    {
      InitialTotals(c, ToExpand(x));
      InitialTotals(c, ToReport(x));
    }
  }

  /** The invariant holds in every reachable state, for any number of threads. */
  lemma ReachableInv(c: Config, s: State, steps: seq<(nat, Action)>)
    requires c.n >= 1 && Reaches(c, s, steps)
    ensures Inv(c, s)
    decreases |steps|
  {
    if steps == [] {
      InitInv(c);
    } else {
      var n := |steps| - 1;
      var t, a := steps[n].0, steps[n].1;
      var p: State :| Reaches(c, p, steps[..n]) && Enabled(c, p, t, a) && s == Apply(c, p, t, a);
      ReachableInv(c, p, steps[..n]);
      StepInv(c, p, t, a);
    }
  }

  lemma ReachableShape(c: Config, s: State, steps: seq<(nat, Action)>)
    requires c.n >= 1 && Reaches(c, s, steps)
    ensures Shape(c, s)
  {
    ReachableInv(c, s, steps);
  }

  lemma ReachableCount(c: Config, s: State, steps: seq<(nat, Action)>)
    requires c.n >= 1 && Reaches(c, s, steps)
    ensures WaitingOk(c, s)
  {
    ReachableInv(c, s, steps);
  }

  /** The roots and nodes with which the requests for more work were answered. */
  ghost function AnsweredRoots(steps: seq<(nat, Action)>): seq<nat> {
    if steps == [] then []
    else
      var a := steps[|steps| - 1].1;
      AnsweredRoots(steps[..|steps| - 1])
      + if a.ControlStep? && a.k.Ask? && a.k.answer.NewRoots? then a.k.answer.rs else []
  }

  ghost function AnsweredNodes(steps: seq<(nat, Action)>): seq<Tree> {
    if steps == [] then []
    else
      var a := steps[|steps| - 1].1;
      AnsweredNodes(steps[..|steps| - 1])
      + if a.ControlStep? && a.k.Ask? && a.k.answer.NewNodes? then a.k.answer.ts else []
  }

  lemma GotByControl(c: Config, s: State, t: nat, k: Control)
    requires EnabledControl(c, s, t, k)
    ensures var s' := ApplyControl(c, s, t, k);
            && s'.gotRoots == s.gotRoots + (if k.Ask? && k.answer.NewRoots? then k.answer.rs else [])
            && s'.gotNodes == s.gotNodes + (if k.Ask? && k.answer.NewNodes? then k.answer.ts else [])
  {
  }

  lemma GotStep(c: Config, s: State, t: nat, a: Action)
    requires Enabled(c, s, t, a)
    ensures var s' := Apply(c, s, t, a);
            && s'.gotRoots == s.gotRoots + (if a.ControlStep? && a.k.Ask? && a.k.answer.NewRoots? then a.k.answer.rs else [])
            && s'.gotNodes == s.gotNodes + (if a.ControlStep? && a.k.Ask? && a.k.answer.NewNodes? then a.k.answer.ts else [])
  {
    if a.ControlStep? {
      GotByControl(c, s, t, a.k);
    }
  }

  /** What came in is what the requests were answered with, no more and no less. */
  lemma GotIsAnswered(c: Config, s: State, steps: seq<(nat, Action)>)
    requires Reaches(c, s, steps)
    ensures s.gotRoots == AnsweredRoots(steps) && s.gotNodes == AnsweredNodes(steps)
    decreases |steps|
  {
    if steps != [] {
      var n := |steps| - 1;
      var t, a := steps[n].0, steps[n].1;
      var p: State :| Reaches(c, p, steps[..n]) && Enabled(c, p, t, a) && s == Apply(c, p, t, a);
      GotIsAnswered(c, p, steps[..n]);
      GotStep(c, p, t, a);
    }
  }

  lemma StepInv(c: Config, s: State, t: nat, a: Action)
    requires Inv(c, s) && Enabled(c, s, t, a)
    ensures Inv(c, Apply(c, s, t, a))
  {
    ShapeStep(c, s, t, a);
    WaitingStep(c, s, t, a);
    BarrierStepOk(c, s, t, a);
    SharedStep(c, s, t, a);
    TerminatedStep(c, s, t, a);
    forall x: nat { ConservedStep(c, s, t, a, x); }
  }

  /** No node and no root anywhere: neither queued nor held by a thread. */
  ghost predicate NoWork(s: State) {
    && s.gnodes == [] && s.roots == []
    && forall t | 0 <= t < |s.threads| ::
         var th := s.threads[t];
         th.lnodes == [] && th.frames == [] && th.held == [] && th.loot == []
  }

  /** Everything the process was given, initially or in answers, has been expanded, and reported,
      or has been sent away. */
  ghost predicate Handled(c: Config, s: State, steps: seq<(nat, Action)>, x: nat) {
    && s.expanded[x] + CountRoots(c.rootsOf, s.sentRoots, x) + CountAll(s.sentNodes, x)
       == CountRoots(c.rootsOf, c.initial, x) + CountRoots(c.rootsOf, AnsweredRoots(steps), x) + CountAll(AnsweredNodes(steps), x)
    && s.reported[x] + CountRoots(c.rootsOf, s.sentRoots, x) + BelowAll(s.sentNodes, x)
       == CountRoots(c.rootsOf, c.initial, x) + CountRoots(c.rootsOf, AnsweredRoots(steps), x) + BelowAll(AnsweredNodes(steps), x)
  }

  lemma NoWorkBalances(c: Config, s: State, x: nat)
    requires Inv(c, s) && NoWork(s)
    ensures s.expanded[x] + CountRoots(c.rootsOf, s.sentRoots, x) + CountAll(s.sentNodes, x) == InExpand(c, s, x)
    ensures s.reported[x] + CountRoots(c.rootsOf, s.sentRoots, x) + BelowAll(s.sentNodes, x) == InReport(c, s, x)
  {
    assert Conserved(c, s, x);
    AllZero(Weights(c, ToExpand(x), s.threads));
    AllZero(Weights(c, ToReport(x), s.threads));
  }

  lemma AllHandled(c: Config, s: State, steps: seq<(nat, Action)>)
    requires Inv(c, s) && NoWork(s) && Reaches(c, s, steps)
    ensures forall x: nat :: Handled(c, s, steps, x)
  {
    GotIsAnswered(c, s, steps);
    forall x: nat { NoWorkBalances(c, s, x); }
  }

  ghost predicate AllDone(s: State) {
    forall t | 0 <= t < |s.threads| :: s.threads[t].pc.Done?
  }

  /** When all threads have exited no work is left behind. */
  lemma ExitLeavesNothing(c: Config, s: State)
    requires Inv(c, s) && AllDone(s)
    ensures NoWork(s)
  {
    assert ThreadOk(c, s, 0, s.threads[0]);
    forall t | 0 <= t < |s.threads|
      ensures s.threads[t].lnodes == [] && s.threads[t].frames == [] && s.threads[t].held == [] && s.threads[t].loot == []
    {
      assert ThreadOk(c, s, t, s.threads[t]);
    }
  }

  /** Shared memory, every run that ends: each forest node is expanded and reported
      exactly as often as it occurs in the forest. */
  lemma EveryNodeOnce(c: Config, s: State, steps: seq<(nat, Action)>)
    requires c.n >= 1 && !c.distributed && Reaches(c, s, steps) && AllDone(s)
    ensures NoWork(s)
    ensures forall x: nat :: s.expanded[x] == CountRoots(c.rootsOf, c.initial, x)
    ensures forall x: nat :: s.reported[x] == CountRoots(c.rootsOf, c.initial, x)
  {
    ReachableInv(c, s, steps);
    ExitLeavesNothing(c, s);
    forall x: nat { NoWorkBalances(c, s, x); }
  }

  /** In either mode, every run that ends: all the process was given has been done or sent away. */
  lemma EverythingHandled(c: Config, s: State, steps: seq<(nat, Action)>)
    requires c.n >= 1 && Reaches(c, s, steps) && AllDone(s)
    ensures NoWork(s) && forall x: nat :: Handled(c, s, steps, x)
  {
    ReachableInv(c, s, steps);
    ExitLeavesNothing(c, s);
    AllHandled(c, s, steps);
  }

  /** The parallel run reports what the sequential walks report. */
  lemma SameAsSequential(c: Config, s: State, steps: seq<(nat, Action)>, sequential: seq<nat>)
    requires c.n >= 1 && !c.distributed && Reaches(c, s, steps) && AllDone(s)
    requires forall x: nat :: multiset(sequential)[x] == CountRoots(c.rootsOf, c.initial, x)
    ensures s.reported == multiset(sequential)
  {
    EveryNodeOnce(c, s, steps);
    forall x: nat
      ensures s.reported[x] == multiset(sequential)[x]
    {
    }
  }

  /** A thread that sees nothing under the flag is right: nobody has work. */
  lemma SectionHasNoWork(c: Config, s: State, t: nat)
    requires Inv(c, s) && t < |s.threads| && s.threads[t].pc.Section? && Holds(s, t) && NothingSeen(s, s.threads[t])
    ensures NoWork(s)
  {
    forall u | 0 <= u < |s.threads|
      ensures s.threads[u].lnodes == [] && s.threads[u].frames == [] && s.threads[u].held == [] && s.threads[u].loot == []
    {
      SectionAlone(c, s, t, u);
      assert ThreadOk(c, s, u, s.threads[u]) && ThreadOk(c, s, t, s.threads[t]);
    }
  }

  lemma AskHasNoWork(c: Config, s: State, t: nat, answer: Answer)
    requires Inv(c, s) && Enabled(c, s, t, ControlStep(Ask(answer)))
    ensures NoWork(s)
  {
    SectionHasNoWork(c, s, t);
  }

  /** More work is requested only when no thread of the process holds or has queued any;
      by then everything received is expanded and reported, or has been sent away. */
  lemma AsksOnlyWhenIdle(c: Config, s: State, steps: seq<(nat, Action)>, t: nat, answer: Answer)
    requires c.n >= 1 && Reaches(c, s, steps) && Enabled(c, s, t, ControlStep(Ask(answer)))
    ensures NoWork(s)
    ensures forall x: nat :: Handled(c, s, steps, x)
  {
    ReachableInv(c, s, steps);
    AskHasNoWork(c, s, t, answer);
    AllHandled(c, s, steps);
  }

  /** A thread that may ask leaves it exactly when there is work in a queue again or the end has
      been announced. */
  lemma AsksIff(c: Config, s: State, steps: seq<(nat, Action)>, t: nat, answer: Answer)
    requires c.n >= 1 && Reaches(c, s, steps) && t < |s.threads| && s.threads[t].pc.Section?
    ensures Enabled(c, s, t, ControlStep(Ask(answer))) <==> s.roots == [] && s.gnodes == [] && !s.terminate
    ensures Enabled(c, s, t, ControlStep(NoNeed)) <==> s.roots != [] || s.gnodes != [] || s.terminate
  {
    ReachableShape(c, s, steps);
    SectionEnables(c, s, t, answer);
  }

  lemma SectionEnables(c: Config, s: State, t: nat, answer: Answer)
    requires Shape(c, s) && t < |s.threads| && s.threads[t].pc.Section?
    ensures EnabledControl(c, s, t, Ask(answer)) <==> s.roots == [] && s.gnodes == [] && !s.terminate
    ensures EnabledControl(c, s, t, NoNeed) <==> s.roots != [] || s.gnodes != [] || s.terminate
  {
    assert ThreadOk(c, s, t, s.threads[t]);
  }

  /** On every run: no thread returns from its r-th wait before every thread has entered its
      r-th wait. */
  lemma BarrierSeparates(c: Config, s: State, steps: seq<(nat, Action)>, t: nat, u: nat, r: nat)
    requires c.n >= 1 && Reaches(c, s, steps)
    requires t < |s.threads| && u < |s.threads| && s.threads[t].waits >= r
    ensures Entered(s.threads[u]) >= r
  {
    ReachableInv(c, s, steps);
    assert PhaseOk(s.generation, s.threads[t]) && PhaseOk(s.generation, s.threads[u]);
  }

  /** A thread that has to wait for something another thread changes: done, in the loop that
      looks for a queued node, or in the barrier before the generation turns. */
  ghost predicate Looking(g: nat, pc: PC) {
    pc.Done? || pc.Spin? || pc.Check? || (pc.Wait? && pc.stage.Await? && pc.stage.my == g)
  }

  /** A step that is no further round of that loop; finding the queue empty is one only if
      the loop is over next. */
  ghost predicate Moves(c: Config, s: State, t: nat, a: Action) {
    && Enabled(c, s, t, a) && a != ControlStep(CheckAgain)
    && (a == ControlStep(Miss) ==> s.terminate || s.waiting >= c.n)
  }

  /** No step leaves everything as it was. */
  lemma StepsChange(c: Config, s: State, t: nat, a: Action)
    requires Enabled(c, s, t, a)
    ensures Apply(c, s, t, a) != s
  {
    match a
    case FetchStep(f) => FetchChanges(c, s, t, f);
    case ServeStep(m) => ServeChanges(c, s, t, m);
    case StealStep(h) => StealChanges(c, s, t, h);
    case BarrierStep(b) => BarrierChanges(c, s, t, b);
    case ControlStep(k) => ControlChanges(c, s, t, k);
  }

  lemma FetchChanges(c: Config, s: State, t: nat, f: Fetch)
    requires EnabledFetch(c, s, t, f)
    ensures t < |s.threads| == |ApplyFetch(c, s, t, f).threads|
    ensures ApplyFetch(c, s, t, f).threads[t].pc != s.threads[t].pc
  {
  }

  lemma ServeChanges(c: Config, s: State, t: nat, m: Serve)
    requires EnabledServe(c, s, t, m)
    ensures t < |s.threads| == |ApplyServe(c, s, t, m).threads|
    ensures ApplyServe(c, s, t, m).threads[t].frames != s.threads[t].frames
  {
    var before, after := s.threads[t].frames, ApplyServe(c, s, t, m).threads[t].frames;
    var n := |before| - 1;
    assert |after| > n ==> after[n] != before[n];
  }

  lemma StealChanges(c: Config, s: State, t: nat, h: Steal)
    requires EnabledSteal(c, s, t, h)
    ensures if h.StealRoot? then ApplySteal(c, s, t, h).roots != s.roots
            else ApplySteal(c, s, t, h).stealing != s.stealing
  {
  }

  lemma BarrierChanges(c: Config, s: State, t: nat, b: Barrier)
    requires EnabledBarrier(c, s, t, b)
    ensures t < |s.threads| == |ApplyBarrier(c, s, t, b).threads|
    ensures ApplyBarrier(c, s, t, b).threads[t].pc != s.threads[t].pc
  {
  }

  lemma ControlChanges(c: Config, s: State, t: nat, k: Control)
    requires EnabledControl(c, s, t, k)
    ensures t < |s.threads| == |ApplyControl(c, s, t, k).threads|
    ensures ApplyControl(c, s, t, k).threads[t].pc != s.threads[t].pc
  {
  }

  /** Every thread that is not waiting has a step of its own. */
  lemma ThreadMoves(c: Config, s: State, steps: seq<(nat, Action)>, t: nat)
    requires c.n >= 1 && Reaches(c, s, steps) && t < |s.threads| && !Looking(s.generation, s.threads[t].pc)
    ensures exists a :: Moves(c, s, t, a)
  {
    ReachableInv(c, s, steps);
    assert ThreadOk(c, s, t, s.threads[t]);
    var pc := s.threads[t].pc;
    if pc.Work? {
      FrameMoves(c, s, t);
    } else if pc.Wait? {
      BarrierMoves(c, s, t);
    } else if pc.Loop? || pc.Pick? || pc.AfterPick? || pc.Leave? {
      OuterMoves(c, s, t);
    } else {
      RequestMoves(c, s, t);
    }
  }

  lemma BarrierMoves(c: Config, s: State, t: nat)
    requires t < |s.threads| && s.threads[t].pc.Wait? && !Looking(s.generation, s.threads[t].pc)
    ensures exists a :: Moves(c, s, t, a)
  {
    var b := match s.threads[t].pc.stage
             case ReadGeneration => WaitRead
             case Decrement(_) => WaitDecrement
             case Reset => WaitReset
             case Bump => WaitBump
             case Await(_) => WaitOver;
    assert Moves(c, s, t, BarrierStep(b));
  }

  lemma RequestMoves(c: Config, s: State, t: nat)
    requires t < |s.threads| && ThreadOk(c, s, t, s.threads[t])
    requires var pc := s.threads[t].pc;
             pc.Enter? || pc.MoreWork? || pc.TryLock? || pc.Section? || pc.Unlock? || pc.Depart?
    ensures exists a :: Moves(c, s, t, a)
  {
    var th := s.threads[t];
    var k := match th.pc
             case Enter => BeginWait
             case MoreWork => if c.distributed then Arrive else Terminate
             case TryLock => if s.stealing == Free then Lock else LockBusy
             case Section => if NothingSeen(s, th) then Ask(Nothing) else NoNeed
             case Unlock => Release
             case _ => DepartStep;
    assert Moves(c, s, t, ControlStep(k));
  }

  lemma FrameMoves(c: Config, s: State, t: nat)
    requires t < |s.threads| && s.threads[t].pc.Work? && ThreadOk(c, s, t, s.threads[t])
    ensures exists a :: Moves(c, s, t, a)
  {
    var top := Top(s.threads[t]);
    var a :=
      if |top.serving| == 1 then
        if Holds(s, t) then StealStep(StealSend) else ServeStep(Offer)
      else if |top.unreported| == 1 then ServeStep(Report)
      else if top.todo != [] then ServeStep(Deliver)
      else ServeStep(Return);
    assert Moves(c, s, t, a);
  }

  lemma OuterMoves(c: Config, s: State, t: nat)
    requires t < |s.threads| && ThreadOk(c, s, t, s.threads[t])
    requires s.threads[t].pc.Loop? || s.threads[t].pc.Pick? || s.threads[t].pc.AfterPick? || s.threads[t].pc.Leave?
    ensures exists a :: Moves(c, s, t, a)
  {
    var th := s.threads[t];
    var a :=
      match th.pc
      case Loop => ControlStep(if s.terminate then Exit else Go)
      case Pick =>
        if th.lnodes != [] then FetchStep(PickLocal)
        else if s.roots != [] then FetchStep(PickRoot)
        else ControlStep(PickNone)
      case AfterPick(localData) =>
        if Holds(s, t) then StealStep(if th.loot != [] then StealSend else StealGiveUp)
        else ControlStep(if localData then Again else BeginWait)
      case Leave(found) => if found then FetchStep(TakeHeld) else ControlStep(LeaveEmpty)
      case _ => ControlStep(Go);
    assert Moves(c, s, t, a);
  }

  ghost predicate AllLooking(s: State) {
    forall t | 0 <= t < |s.threads| :: Looking(s.generation, s.threads[t].pc)
  }

  ghost predicate Outside(pc: PC) {
    pc.Done? || pc.Spin? || pc.Check?
  }

  /** Not all threads wait in the same phase of the barrier. */
  lemma SomeoneOutside(c: Config, s: State) returns (u: nat)
    requires Inv(c, s) && AllLooking(s)
    ensures u < |s.threads| && Outside(s.threads[u].pc)
  {
    BitWeights(c, Arrived(s.generation), s.threads);
    BitWeights(c, Resetting, s.threads);
    BitWeights(c, Bumping, s.threads);
    assert Total(c, Arrived(s.generation), s.threads) < c.n;
    u :| 0 <= u < |s.threads| && Weight(c, Arrived(s.generation), s.threads[u]) != 1;
  }

  /** Then the loop that looks for a queued node is over for everyone. */
  lemma LoopIsOver(c: Config, s: State, u: nat)
    requires Inv(c, s) && AllLooking(s) && u < |s.threads| && Outside(s.threads[u].pc)
    ensures s.terminate || s.waiting >= c.n
  {
    assert ThreadOk(c, s, u, s.threads[u]);
    if !s.terminate {
      BitWeights(c, Waiting, s.threads);
      assert PhaseOk(s.generation, s.threads[u]);
      forall t | 0 <= t < |s.threads|
        ensures Weight(c, Waiting, s.threads[t]) == 1
      {
        assert ThreadOk(c, s, t, s.threads[t]) && PhaseOk(s.generation, s.threads[t]);
      }
    }
  }

  lemma CountedIffAll(c: Config, s: State)
    requires Shape(c, s) && WaitingOk(c, s)
    ensures s.waiting >= c.n <==> forall t | 0 <= t < |s.threads| :: Counted(s.threads[t].pc)
  {
    BitWeights(c, Waiting, s.threads);
    forall t | 0 <= t < |s.threads|
      ensures Weight(c, Waiting, s.threads[t]) == 1 <==> Counted(s.threads[t].pc)
    {
    }
  }

  lemma SearchEnables(c: Config, s: State, t: nat)
    requires Shape(c, s) && WaitingOk(c, s) && t < |s.threads| && s.threads[t].pc.Check?
    ensures EnabledControl(c, s, t, CheckExit) <==>
              s.terminate || forall u | 0 <= u < |s.threads| :: Counted(s.threads[u].pc)
    ensures EnabledControl(c, s, t, CheckAgain) <==>
              exists u :: 0 <= u < |s.threads| && !Counted(s.threads[u].pc)
  {
    CountedIffAll(c, s);
  }

  /** A thread that finds no queued node stops looking exactly when the end has been announced
      or all threads are counted as waiting. */
  lemma StopsLookingIff(c: Config, s: State, steps: seq<(nat, Action)>, t: nat)
    requires c.n >= 1 && Reaches(c, s, steps) && t < |s.threads| && s.threads[t].pc.Check?
    ensures Enabled(c, s, t, ControlStep(CheckExit)) <==>
              s.terminate || forall u | 0 <= u < |s.threads| :: Counted(s.threads[u].pc)
    ensures Enabled(c, s, t, ControlStep(CheckAgain)) <==>
              exists u :: 0 <= u < |s.threads| && !Counted(s.threads[u].pc)
  {
    ReachableShape(c, s, steps);
    ReachableCount(c, s, steps);
    SearchEnables(c, s, t);
  }

  /** If some thread is done, the others that wait are in that loop. */
  lemma DoneMeansLoop(c: Config, s: State, u: nat, v: nat)
    requires Inv(c, s) && AllLooking(s) && u < |s.threads| && s.threads[u].pc.Done?
    requires v < |s.threads| && !s.threads[v].pc.Done?
    ensures s.threads[v].pc.Spin? || s.threads[v].pc.Check?
  {
    assert ThreadOk(c, s, u, s.threads[u]) && ThreadOk(c, s, v, s.threads[v]);
  }

  /** The threads never all wait for each other: until all are done, some thread has a step
      other than another round of the loop that looks for a queued node. */
  lemma NeverStuck(c: Config, s: State, steps: seq<(nat, Action)>)
    requires c.n >= 1 && Reaches(c, s, steps) && !AllDone(s)
    ensures exists t: nat, a :: Moves(c, s, t, a)
  {
    if !AllLooking(s) {
      var t :| 0 <= t < |s.threads| && !Looking(s.generation, s.threads[t].pc);
      ThreadMoves(c, s, steps, t);
    } else {
      ReachableInv(c, s, steps);
      var u := SomeoneOutside(c, s);
      LoopIsOver(c, s, u);
      if s.threads[u].pc.Done? {
        var v :| 0 <= v < |s.threads| && !s.threads[v].pc.Done?;
        DoneMeansLoop(c, s, u, v);
        LoopMoves(c, s, v);
      } else {
        LoopMoves(c, s, u);
      }
    }
  }

  lemma LoopMoves(c: Config, s: State, t: nat)
    requires t < |s.threads| && (s.terminate || s.waiting >= c.n)
    requires s.threads[t].pc.Spin? || s.threads[t].pc.Check?
    ensures exists a :: Moves(c, s, t, a)
  {
    var a := if s.threads[t].pc.Check? then ControlStep(CheckExit)
             else if s.gnodes != [] then FetchStep(Dequeue) else ControlStep(Miss);
    assert Moves(c, s, t, a);
  }
}
