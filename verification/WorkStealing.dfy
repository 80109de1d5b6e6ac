/** The work-stealing runner (enumerator/parallel_pthreads_steal.hpp) as a state machine:
    any number of threads, one atomic step of one thread at a time. */
module WorkStealing {
  import opened Forest

  /** `distributed` says whether the three callbacks are installed; then more work can
      arrive and work can be sent away. `recursive` is `CanUseRecursion`. */
  datatype Config = Config(n: nat, rootsOf: nat -> seq<Tree>, initial: seq<nat>, recursive: bool, distributed: bool)

  /** A running `ListChildren` or `GetRoot`: nodes still to be passed to the callback, the
      node in `ServeSteal`, and the node passed on but not reported yet. */
  datatype Frame = Frame(todo: seq<Tree>, serving: seq<Tree>, unreported: seq<Tree>)

  /** Where a thread is inside `bar_t::wait`. */
  datatype Stage = ReadGeneration | Decrement(my: nat) | Reset | Bump | Await(my: nat)

  datatype PC =
    | Loop                        // while (!terminate)
    | Pick                        // top of the do loop
    | Work(picked: bool)          // inside ListChildren or GetRoot
    | AfterPick(localData: bool)  // ServeSteal without a node
    | Enter                       // ++waiting
    | Spin                        // try_dequeue
    | Check                       // the condition of the inner loop
    | Leave(found: bool)          // --waiting
    | MoreWork                    // after the do loop
    | Wait(first: bool, stage: Stage)
    | TryLock                     // test_and_set before asking for work
    | Section                     // holding the flag
    | Unlock
    | Depart                      // --waiting before the second barrier
    | Done

  datatype Thread = Thread(pc: PC, lnodes: seq<Tree>, frames: seq<Frame>, held: seq<Tree>, loot: seq<nat>, waits: nat)

  datatype Owner = Free | By(t: nat)

  datatype State = State(
    threads: seq<Thread>,
    gnodes: seq<Tree>,
    roots: seq<nat>,
    waiting: int,
    terminate: bool,
    stealing: Owner,         // checkingSteal
    spaces: int,
    generation: nat,
    expanded: multiset<nat>,
    reported: multiset<nat>,
    sentRoots: seq<nat>,
    sentNodes: seq<Tree>,
    gotRoots: seq<nat>,
    gotNodes: seq<Tree>)

  datatype Action = FetchStep(f: Fetch) | ServeStep(m: Serve) | StealStep(h: Steal) | BarrierStep(b: Barrier) | ControlStep(k: Control)

  /** Steps that take the next node or root to work on. */
  datatype Fetch = PickLocal | PickRoot | Dequeue | TakeHeld

  /** Steps inside `ListChildren` or `GetRoot` and its callback. */
  datatype Serve = Deliver | Offer | Keep | Recurse | Report | Return

  /** Steps of `ServeSteal` under the `checkingSteal` flag. */
  datatype Steal = StealBegin | StealRoot | StealSend | StealGiveUp

  /** Steps of `bar_t::wait`. */
  datatype Barrier = WaitRead | WaitDecrement | WaitReset | WaitBump | WaitOver

  /** Steps through the rest of the worker loop. */
  datatype Control =
    | Exit | Go | PickNone | Again | BeginWait | Miss | CheckAgain | CheckExit | LeaveEmpty | Terminate | Arrive
    | Lock | LockBusy | Ask(answer: Answer) | NoNeed | Release | DepartStep

  /** The answers of `_moreWorkCb`. */
  datatype Answer = NewRoots(rs: seq<nat>) | NewNodes(ts: seq<Tree>) | Nothing

  ghost function Top(th: Thread): Frame
    requires th.frames != []
  {
    th.frames[|th.frames| - 1]
  }

  ghost function SetTop(th: Thread, f: Frame): Thread
    requires th.frames != []
  {
    th.(frames := th.frames[|th.frames| - 1 := f])
  }

  ghost function Put(s: State, t: nat, th: Thread): State
    requires t < |s.threads|
  {
    s.(threads := s.threads[t := th])
  }

  /** A thread may run `ServeSteal` here. */
  ghost predicate MayServe(th: Thread) {
    th.pc.AfterPick? || (th.pc.Work? && th.frames != [] && |Top(th).serving| == 1)
  }

  ghost predicate Holds(s: State, t: nat) {
    s.stealing == By(t)
  }

  ghost predicate EnabledFetch(c: Config, s: State, t: nat, f: Fetch) {
    t < |s.threads| &&
    var th := s.threads[t];
    match f
    case PickLocal => th.pc.Pick? && th.lnodes != []
    case PickRoot => th.pc.Pick? && th.lnodes == [] && s.roots != []
    case Dequeue => th.pc.Spin? && s.gnodes != []
    case TakeHeld => th.pc.Leave? && th.pc.found && |th.held| == 1
  }

  ghost predicate EnabledServe(c: Config, s: State, t: nat, m: Serve) {
    t < |s.threads| && s.threads[t].pc.Work? && s.threads[t].frames != [] &&
    var top := Top(s.threads[t]);
    match m
    case Deliver => top.serving == [] && top.unreported == [] && top.todo != []
    case Offer => |top.serving| == 1 && !Holds(s, t)
    case Keep => |top.serving| == 1 && !Holds(s, t) && !c.recursive
    case Recurse => |top.serving| == 1 && !Holds(s, t) && c.recursive
    case Report => top.serving == [] && |top.unreported| == 1
    case Return => top == Frame([], [], [])
  }

  ghost predicate EnabledSteal(c: Config, s: State, t: nat, h: Steal) {
    t < |s.threads| &&
    var th := s.threads[t];
    match h
    case StealBegin => c.distributed && MayServe(th) && s.stealing == Free
    case StealRoot => MayServe(th) && Holds(s, t) && s.roots != []
    case StealSend => MayServe(th) && Holds(s, t) && (th.loot != [] || th.pc.Work?)
    case StealGiveUp => MayServe(th) && Holds(s, t) && th.loot == []
  }

  ghost predicate EnabledBarrier(c: Config, s: State, t: nat, b: Barrier) {
    t < |s.threads| &&
    var th := s.threads[t];
    match b
    case WaitRead => th.pc.Wait? && th.pc.stage.ReadGeneration?
    case WaitDecrement => th.pc.Wait? && th.pc.stage.Decrement?
    case WaitReset => th.pc.Wait? && th.pc.stage.Reset?
    case WaitBump => th.pc.Wait? && th.pc.stage.Bump?
    case WaitOver => th.pc.Wait? && th.pc.stage.Await? && s.generation != th.pc.stage.my
  }

  ghost predicate EnabledControl(c: Config, s: State, t: nat, k: Control) {
    t < |s.threads| &&
    var th := s.threads[t];
    match k
    case Exit => th.pc.Loop? && s.terminate
    case Go => th.pc.Loop? && !s.terminate
    case PickNone => th.pc.Pick? && th.lnodes == [] && s.roots == []
    case Again => th.pc.AfterPick? && th.pc.localData && !Holds(s, t)
    case BeginWait => (th.pc.AfterPick? && !th.pc.localData && !Holds(s, t)) || th.pc.Enter?
    case Miss => th.pc.Spin? && s.gnodes == []
    case CheckAgain => th.pc.Check? && s.waiting < c.n
    case CheckExit => th.pc.Check? && (s.terminate || s.waiting >= c.n)
    case LeaveEmpty => th.pc.Leave? && !th.pc.found
    case Terminate => th.pc.MoreWork? && !c.distributed
    case Arrive => th.pc.MoreWork? && c.distributed
    case Lock => th.pc.TryLock? && s.stealing == Free
    case LockBusy => th.pc.TryLock? && s.stealing != Free
    case Ask(_) => th.pc.Section? && Holds(s, t) && NothingSeen(s, th)
    case NoNeed => th.pc.Section? && Holds(s, t) && !NothingSeen(s, th)
    case Release => th.pc.Unlock? && Holds(s, t)
    case DepartStep => th.pc.Depart?
  }

  ghost predicate Enabled(c: Config, s: State, t: nat, a: Action) {
    match a
    case FetchStep(f) => EnabledFetch(c, s, t, f)
    case ServeStep(m) => EnabledServe(c, s, t, m)
    case StealStep(h) => EnabledSteal(c, s, t, h)
    case BarrierStep(b) => EnabledBarrier(c, s, t, b)
    case ControlStep(k) => EnabledControl(c, s, t, k)
  }

  /** The condition under which more work is requested. */
  ghost predicate NothingSeen(s: State, th: Thread) {
    th.lnodes == [] && s.roots == [] && s.gnodes == [] && !s.terminate
  }

  ghost function Open(ts: seq<Tree>): seq<Frame> {
    [Frame(ts, [], [])]
  }

  ghost function AfterWait(th: Thread): Thread
    requires th.pc.Wait?
  {
    th.(pc := if th.pc.first then TryLock else Loop, waits := th.waits + 1)
  }

  ghost function ApplyFetch(c: Config, s: State, t: nat, f: Fetch): State
    requires EnabledFetch(c, s, t, f)
  {
    var th := s.threads[t];
    match f
    case PickLocal =>
      var n := |th.lnodes| - 1;
      var node := th.lnodes[n];
      Put(s, t, th.(pc := Work(true), lnodes := th.lnodes[..n], frames := Open(node.kids)))
        .(expanded := s.expanded + multiset{node.id})
    case PickRoot =>
      Put(s, t, th.(pc := Work(true), frames := Open(c.rootsOf(s.roots[0])))).(roots := s.roots[1..])
    case Dequeue => Put(s, t, th.(pc := Leave(true), held := [s.gnodes[0]])).(gnodes := s.gnodes[1..])
    case TakeHeld =>
      Put(s, t, th.(pc := Work(false), held := [], frames := Open(th.held[0].kids)))
        .(waiting := s.waiting - 1, expanded := s.expanded + multiset{th.held[0].id})
  }

  ghost function ApplyServe(c: Config, s: State, t: nat, m: Serve): State
    requires EnabledServe(c, s, t, m)
  {
    var th := s.threads[t];
    match m
    case Deliver =>
      var f := Top(th);
      Put(s, t, SetTop(th, Frame(f.todo[1..], [f.todo[0]], [])))
    case Offer =>
      var f := Top(th);
      Put(s, t, SetTop(th, Frame(f.todo, [], f.serving))).(gnodes := s.gnodes + f.serving)
    case Keep =>
      var f := Top(th);
      Put(s, t, SetTop(th, Frame(f.todo, [], f.serving)).(lnodes := th.lnodes + f.serving))
    case Recurse =>
      var f := Top(th);
      var th1 := SetTop(th, Frame(f.todo, [], f.serving));
      Put(s, t, th1.(frames := th1.frames + Open(f.serving[0].kids)))
        .(expanded := s.expanded + multiset{f.serving[0].id})
    case Report =>
      var f := Top(th);
      Put(s, t, SetTop(th, Frame(f.todo, [], []))).(reported := s.reported + multiset{f.unreported[0].id})
    case Return =>
      var rest := th.frames[..|th.frames| - 1];
      Put(s, t, th.(frames := rest,
                    pc := if rest != [] then th.pc else if th.pc.picked then AfterPick(true) else Pick))
  }

  ghost function ApplySteal(c: Config, s: State, t: nat, h: Steal): State
    requires EnabledSteal(c, s, t, h)
  {
    var th := s.threads[t];
    match h
    case StealBegin => s.(stealing := By(t))
    case StealRoot => Put(s, t, th.(loot := th.loot + [s.roots[0]])).(roots := s.roots[1..])
    case StealSend =>
      if th.loot != [] then
        Put(s, t, th.(loot := [])).(sentRoots := s.sentRoots + th.loot, stealing := Free)
      else
        var f := Top(th);
        Put(s, t, SetTop(th, Frame(f.todo, [], f.serving)))
          .(sentNodes := s.sentNodes + f.serving, stealing := Free)
    case StealGiveUp => s.(stealing := Free)
  }

  ghost function ApplyBarrier(c: Config, s: State, t: nat, b: Barrier): State
    requires EnabledBarrier(c, s, t, b)
  {
    var th := s.threads[t];
    match b
    case WaitRead => Put(s, t, th.(pc := Wait(th.pc.first, Decrement(s.generation))))
    case WaitDecrement =>
      Put(s, t, th.(pc := Wait(th.pc.first, if s.spaces - 1 == 0 then Reset else Await(th.pc.stage.my))))
        .(spaces := s.spaces - 1)
    case WaitReset => Put(s, t, th.(pc := Wait(th.pc.first, Bump))).(spaces := c.n)
    case WaitBump => Put(s, t, AfterWait(th)).(generation := s.generation + 1)
    case WaitOver => Put(s, t, AfterWait(th))
  }

  ghost function ApplyControl(c: Config, s: State, t: nat, k: Control): State
    requires EnabledControl(c, s, t, k)
  {
    var th := s.threads[t];
    match k
    case Exit => Put(s, t, th.(pc := Done))
    case Go => Put(s, t, th.(pc := Pick))
    case PickNone => Put(s, t, th.(pc := AfterPick(false)))
    case Again => Put(s, t, th.(pc := Pick))
    case BeginWait =>
      if th.pc.Enter? then Put(s, t, th.(pc := Spin)).(waiting := s.waiting + 1)
      else Put(s, t, th.(pc := Enter))
    case Miss => Put(s, t, th.(pc := Check))
    case CheckAgain => Put(s, t, th.(pc := Spin))
    case CheckExit => Put(s, t, th.(pc := Leave(false)))
    case LeaveEmpty => Put(s, t, th.(pc := MoreWork)).(waiting := s.waiting - 1)
    case Terminate => Put(s, t, th.(pc := Loop)).(terminate := true)
    case Arrive => Put(s, t, th.(pc := Wait(true, ReadGeneration))).(waiting := s.waiting + 1)
    case Lock => Put(s, t, th.(pc := Section)).(stealing := By(t))
    case LockBusy => Put(s, t, th.(pc := Depart))
    case Ask(answer) =>
      var s1 := Put(s, t, th.(pc := Unlock));
      (match answer
       case NewRoots(rs) => s1.(roots := s.roots + rs, gotRoots := s.gotRoots + rs)
       case NewNodes(ts) => s1.(gnodes := s.gnodes + ts, gotNodes := s.gotNodes + ts)
       case Nothing => s1.(terminate := true))
    case NoNeed => Put(s, t, th.(pc := Unlock))
    case Release => Put(s, t, th.(pc := Depart)).(stealing := Free)
    case DepartStep => Put(s, t, th.(pc := Wait(false, ReadGeneration))).(waiting := s.waiting - 1)
  }

  ghost function Apply(c: Config, s: State, t: nat, a: Action): State
    requires Enabled(c, s, t, a)
  {
    match a
    case FetchStep(f) => ApplyFetch(c, s, t, f)
    case ServeStep(m) => ApplyServe(c, s, t, m)
    case StealStep(h) => ApplySteal(c, s, t, h)
    case BarrierStep(b) => ApplyBarrier(c, s, t, b)
    case ControlStep(k) => ApplyControl(c, s, t, k)
  }

  ghost function Init(c: Config): State {
    State(seq(c.n, _ => Thread(Loop, [], [], [], [], 0)), [], c.initial, 0, false, Free, c.n, 0,
          multiset{}, multiset{}, [], [], [], [])
  }

  /** The states reached by a sequence of steps. */
  ghost predicate Reaches(c: Config, s: State, steps: seq<(nat, Action)>)
    decreases |steps|
  {
    if steps == [] then s == Init(c)
    else
      var n := |steps| - 1;
      exists p: State :: Reaches(c, p, steps[..n]) && Enabled(c, p, steps[n].0, steps[n].1)
                         && s == Apply(c, p, steps[n].0, steps[n].1)
  }
}
