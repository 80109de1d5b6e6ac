/** Runs of the work-stealing runner do end: one for every forest, any number of threads and,
    in distributed mode, any answers, in which the first thread does all the work. */
module WorkStealingRuns {
  import opened Forest
  import opened WorkStealing
  import opened WorkStealingProof
  import opened WorkStealingTheorems

  lemma Then(c: Config, s: State, steps: seq<(nat, Action)>, t: nat, a: Action) returns (s': State, steps': seq<(nat, Action)>)
    requires Reaches(c, s, steps) && Enabled(c, s, t, a)
    ensures s' == Apply(c, s, t, a) && Reaches(c, s', steps') && Answers(steps') == Answers(steps) + AnswerOf(a)
  {
    s' := Apply(c, s, t, a);
    steps' := steps + [(t, a)];
    assert steps'[..|steps|] == steps;
  }

  function AnswerOf(a: Action): seq<Answer> {
    if a.ControlStep? && a.k.Ask? then [a.k.answer] else []
  }

  /** How the requests for more work were answered, in order. */
  ghost function Answers(steps: seq<(nat, Action)>): seq<Answer> {
    if steps == [] then [] else Answers(steps[..|steps| - 1]) + AnswerOf(steps[|steps| - 1].1)
  }

  /** Work left in a frame: each node still to be passed on costs its subtree. */
  ghost function FrameLeft(f: Frame): nat {
    1 + 8 * SizeAll(f.todo) + 8 * SizeAll(f.serving) - (if f.serving != [] then 1 else 0) + |f.unreported|
  }

  ghost function FramesLeft(fs: seq<Frame>): nat {
    if fs == [] then 0 else FramesLeft(fs[..|fs| - 1]) + FrameLeft(fs[|fs| - 1])
  }

  ghost function NodesLeft(ns: seq<Tree>): nat {
    if ns == [] then 0 else NodesLeft(ns[..|ns| - 1]) + 2 + 8 * SizeAll(ns[|ns| - 1].kids)
  }

  ghost function WorkLeft(th: Thread): nat {
    FramesLeft(th.frames) + NodesLeft(th.lnodes)
  }

  /** Only thread `t` and the roots, the counts and reports change. */
  ghost predicate OnlyThread(s: State, s': State, t: nat) {
    && |s'.threads| == |s.threads| && (forall u | 0 <= u < |s.threads| && u != t :: s'.threads[u] == s.threads[u])
    && s'.gnodes == s.gnodes && s'.waiting == s.waiting && s'.terminate == s.terminate && s'.stealing == s.stealing
    && s'.spaces == s.spaces && s'.generation == s.generation
  }

  /** The next thing a thread does with its work, when nobody else is about. */
  ghost function WorkAction(c: Config, s: State, th: Thread): Action {
    match th.pc
    case Pick => if th.lnodes != [] then FetchStep(PickLocal) else FetchStep(PickRoot)
    case AfterPick(_) => ControlStep(Again)
    case _ =>
      ServeStep(
        if th.frames == [] then Return
        else
          var f := Top(th);
          if f.serving != [] then if c.recursive then Recurse else Keep
          else if f.unreported != [] then Report
          else if f.todo != [] then Deliver
          else Return)
  }

  /** At work, or about to look for work. */
  ghost predicate Busy(c: Config, s: State, t: nat) {
    && t < |s.threads| && s.stealing == Free
    && (s.threads[t].pc.Pick? || s.threads[t].pc == AfterPick(true) || s.threads[t].pc.Work?)
    && ThreadOk(c, s, t, s.threads[t])
  }

  ghost predicate NoneLeft(s: State, t: nat) {
    t < |s.threads| && s.threads[t].pc.Pick? && s.threads[t].lnodes == [] && s.roots == []
  }

  ghost predicate Less(s': State, s: State, t: nat)
    requires t < |s.threads| && t < |s'.threads|
  {
    || |s'.roots| < |s.roots|
    || (|s'.roots| == |s.roots|
        && (WorkLeft(s'.threads[t]) < WorkLeft(s.threads[t])
            || (WorkLeft(s'.threads[t]) == WorkLeft(s.threads[t]) && s.threads[t].pc.AfterPick? && !s'.threads[t].pc.AfterPick?)))
  }

  lemma FramesLeftPush(fs: seq<Frame>, f: Frame)
    ensures FramesLeft(fs + [f]) == FramesLeft(fs) + FrameLeft(f)
  {
    assert (fs + [f])[..|fs|] == fs;
  }

  lemma NodesLeftPush(ns: seq<Tree>, n: Tree)
    ensures NodesLeft(ns + [n]) == NodesLeft(ns) + 2 + 8 * SizeAll(n.kids)
  {
    assert (ns + [n])[..|ns|] == ns;
  }

  lemma OneSize(t: Tree)
    ensures SizeAll([t]) == 1 + SizeAll(t.kids)
  {
    assert [t][1..] == [];
  }

  /** Changing the top frame only. */
  lemma TopChanges(fs: seq<Frame>, f: Frame)
    requires fs != []
    ensures FramesLeft(fs[|fs| - 1 := f]) + FrameLeft(fs[|fs| - 1]) == FramesLeft(fs) + FrameLeft(f)
  {
    assert fs[|fs| - 1 := f][..|fs| - 1] == fs[..|fs| - 1];
  }

  lemma ServeShrinks(c: Config, s: State, t: nat)
    requires Busy(c, s, t) && s.threads[t].pc.Work?
    ensures var a := WorkAction(c, s, s.threads[t]);
            && Enabled(c, s, t, a) && OnlyThread(s, Apply(c, s, t, a), t) && Less(Apply(c, s, t, a), s, t)
            && var pc := Apply(c, s, t, a).threads[t].pc; pc == AfterPick(true) || pc.Pick? || pc.Work?
  {
    if Top(s.threads[t]).serving != [] {
      PassShrinks(c, s, t);
    } else {
      ListShrinks(c, s, t);
    }
  }

  /** The node is kept, or listed at once. */
  lemma PassShrinks(c: Config, s: State, t: nat)
    requires Busy(c, s, t) && s.threads[t].pc.Work? && Top(s.threads[t]).serving != []
    ensures var a := WorkAction(c, s, s.threads[t]);
            && Enabled(c, s, t, a) && OnlyThread(s, Apply(c, s, t, a), t) && Less(Apply(c, s, t, a), s, t)
            && Apply(c, s, t, a).threads[t].pc.Work?
  {
    var th := s.threads[t];
    var f, fs := Top(th), th.frames;
    assert f.serving == [f.serving[0]];
    OneSize(f.serving[0]);
    var f' := Frame(f.todo, [], f.serving);
    TopChanges(fs, f');
    if c.recursive {
      FramesLeftPush(fs[|fs| - 1 := f'], Frame(f.serving[0].kids, [], []));
    } else {
      NodesLeftPush(th.lnodes, f.serving[0]);
      assert th.lnodes + f.serving == th.lnodes + [f.serving[0]];
    }
  }

  lemma ListShrinks(c: Config, s: State, t: nat)
    requires Busy(c, s, t) && s.threads[t].pc.Work? && Top(s.threads[t]).serving == []
    ensures var a := WorkAction(c, s, s.threads[t]);
            && Enabled(c, s, t, a) && OnlyThread(s, Apply(c, s, t, a), t) && Less(Apply(c, s, t, a), s, t)
            && var pc := Apply(c, s, t, a).threads[t].pc; pc == AfterPick(true) || pc.Pick? || pc.Work?
  {
    var f, fs := Top(s.threads[t]), s.threads[t].frames;
    if f.unreported != [] {
      TopChanges(fs, Frame(f.todo, [], []));
    } else if f.todo != [] {
      OneSize(f.todo[0]);
      TopChanges(fs, Frame(f.todo[1..], [f.todo[0]], []));
    }
  }

  lemma FetchShrinks(c: Config, s: State, t: nat)
    requires Busy(c, s, t) && !s.threads[t].pc.Work? && !NoneLeft(s, t)
    ensures var a := WorkAction(c, s, s.threads[t]);
            && Enabled(c, s, t, a) && OnlyThread(s, Apply(c, s, t, a), t) && Less(Apply(c, s, t, a), s, t)
            && var pc := Apply(c, s, t, a).threads[t].pc; pc.Pick? || pc.Work?
  {
    var th := s.threads[t];
    if th.pc.Pick? && th.lnodes != [] {
      FramesLeftPush([], Frame(th.lnodes[|th.lnodes| - 1].kids, [], []));
      assert [] + Open(th.lnodes[|th.lnodes| - 1].kids) == Open(th.lnodes[|th.lnodes| - 1].kids);
    }
  }

  /** The thread works until nothing is left: no node of its own and no root. */
  lemma Drains(c: Config, s: State, steps: seq<(nat, Action)>, t: nat) returns (s': State, steps': seq<(nat, Action)>)
    requires c.n >= 1 && Reaches(c, s, steps) && Busy(c, s, t)
    ensures Reaches(c, s', steps') && OnlyThread(s, s', t) && NoneLeft(s', t) && Answers(steps') == Answers(steps)
    decreases |s.roots|, WorkLeft(s.threads[t]), if s.threads[t].pc.AfterPick? then 1 else 0
  {
    s', steps' := s, steps;
    if !NoneLeft(s, t) {
      if s.threads[t].pc.Work? {
        ServeShrinks(c, s, t);
      } else {
        FetchShrinks(c, s, t);
      }
      s', steps' := Then(c, s, steps, t, WorkAction(c, s, s.threads[t]));
      ReachableShape(c, s', steps');
      assert ThreadOk(c, s', t, s'.threads[t]);
      s', steps' := Drains(c, s', steps', t);
    }
  }

  /** A thread without work enters the loop that looks for a queued node. */
  lemma Enters(c: Config, s: State, steps: seq<(nat, Action)>, t: nat) returns (s': State, steps': seq<(nat, Action)>)
    requires Reaches(c, s, steps) && NoneLeft(s, t) && s.stealing == Free
    ensures Reaches(c, s', steps') && Answers(steps') == Answers(steps)
    ensures s' == s.(threads := s.threads[t := s.threads[t].(pc := Spin)], waiting := s.waiting + 1)
  {
    s', steps' := Then(c, s, steps, t, ControlStep(PickNone));
    s', steps' := Then(c, s', steps', t, ControlStep(BeginWait));
    s', steps' := Then(c, s', steps', t, ControlStep(BeginWait));
  }

  /** The queued nodes as well. */
  lemma DrainsAll(c: Config, s: State, steps: seq<(nat, Action)>, t: nat) returns (s': State, steps': seq<(nat, Action)>)
    requires c.n >= 1 && Reaches(c, s, steps) && Busy(c, s, t)
    ensures Reaches(c, s', steps') && OnlyThread(s.(gnodes := []), s', t) && NoneLeft(s', t) && Answers(steps') == Answers(steps)
    decreases |s.gnodes|
  {
    s', steps' := Drains(c, s, steps, t);
    if s'.gnodes != [] {
      s', steps' := TakesQueued(c, s', steps', t);
      s', steps' := DrainsAll(c, s', steps', t);
    }
  }

  lemma TakesQueued(c: Config, s: State, steps: seq<(nat, Action)>, t: nat) returns (s': State, steps': seq<(nat, Action)>)
    requires c.n >= 1 && Reaches(c, s, steps) && NoneLeft(s, t) && s.stealing == Free && s.gnodes != []
    ensures Reaches(c, s', steps') && OnlyThread(s.(gnodes := s.gnodes[1..]), s', t) && Busy(c, s', t)
    ensures Answers(steps') == Answers(steps)
  {
    s', steps' := Enters(c, s, steps, t);
    s', steps' := Then(c, s', steps', t, FetchStep(Dequeue));
    s', steps' := Then(c, s', steps', t, FetchStep(TakeHeld));
    ReachableShape(c, s', steps');
    assert ThreadOk(c, s', t, s'.threads[t]);
  }

  /** Nobody uses the flag or has announced the end. */
  ghost predicate Calm(c: Config, s: State) {
    |s.threads| == c.n && !s.terminate && s.stealing == Free && s.spaces == c.n
  }

  ghost predicate NothingQueued(s: State) {
    s.roots == [] && s.gnodes == []
  }

  /** All are about to enter their main loop. */
  ghost predicate Fresh(c: Config, s: State) {
    Calm(c, s) && s.waiting == 0 && forall t | 0 <= t < c.n :: s.threads[t].pc.Loop?
  }

  /** All queues are empty, and the first `k` threads look for a node in vain. */
  ghost predicate Looked(c: Config, s: State, k: nat) {
    && Calm(c, s) && NothingQueued(s) && k <= c.n && s.waiting == k
    && (forall t | 0 <= t < k :: s.threads[t].pc.Check?)
    && (forall t | k <= t < c.n :: s.threads[t].pc.Loop?)
  }

  lemma Looks(c: Config, s: State, steps: seq<(nat, Action)>, t: nat) returns (s': State, steps': seq<(nat, Action)>)
    requires Reaches(c, s, steps) && NoneLeft(s, t) && s.gnodes == [] && s.stealing == Free
    ensures Reaches(c, s', steps') && Answers(steps') == Answers(steps)
    ensures s' == s.(threads := s.threads[t := s.threads[t].(pc := Check)], waiting := s.waiting + 1)
  {
    s', steps' := Enters(c, s, steps, t);
    s', steps' := Then(c, s', steps', t, ControlStep(Miss));
  }

  lemma AllLook(c: Config, s: State, steps: seq<(nat, Action)>, k: nat) returns (s': State, steps': seq<(nat, Action)>)
    requires c.n >= 1 && Reaches(c, s, steps) && Looked(c, s, k)
    ensures Reaches(c, s', steps') && Looked(c, s', c.n) && Answers(steps') == Answers(steps)
    decreases c.n - k
  {
    s', steps' := s, steps;
    if k < c.n {
      ReachableShape(c, s, steps);
      assert ThreadOk(c, s, k, s.threads[k]);
      s', steps' := Then(c, s, steps, k, ControlStep(Go));
      s', steps' := Looks(c, s', steps', k);
      s', steps' := AllLook(c, s', steps', k + 1);
    }
  }

  /** The first thread does all the work there is, and then everybody looks for more. */
  lemma WorksOff(c: Config, s: State, steps: seq<(nat, Action)>) returns (s': State, steps': seq<(nat, Action)>)
    requires c.n >= 1 && Reaches(c, s, steps) && Fresh(c, s)
    ensures Reaches(c, s', steps') && Looked(c, s', c.n) && Answers(steps') == Answers(steps)
  {
    s', steps' := Then(c, s, steps, 0, ControlStep(Go));
    ReachableShape(c, s', steps');
    assert ThreadOk(c, s', 0, s'.threads[0]);
    s', steps' := DrainsAll(c, s', steps', 0);
    s', steps' := Looks(c, s', steps', 0);
    s', steps' := AllLook(c, s', steps', 1);
  }

  /** The initial roots are worked off. */
  lemma Begins(c: Config) returns (s: State, steps: seq<(nat, Action)>)
    requires c.n >= 1
    ensures Reaches(c, s, steps) && Looked(c, s, c.n) && Answers(steps) == []
  {
    s, steps := Init(c), [];
    s, steps := WorksOff(c, s, steps);
  }

  /** The first `k` threads are done, the others still look. */
  ghost predicate Left(c: Config, s: State, k: nat) {
    && |s.threads| == c.n && k <= c.n && (s.terminate || s.waiting >= c.n)
    && (forall t | 0 <= t < k :: s.threads[t].pc.Done?)
    && (forall t | k <= t < c.n :: s.threads[t].pc.Check?)
  }

  /** Shared memory: a thread leaves that loop, announces the end and exits. */
  lemma Leaves(c: Config, s: State, steps: seq<(nat, Action)>, k: nat) returns (s': State, steps': seq<(nat, Action)>)
    requires Reaches(c, s, steps) && Left(c, s, k) && k < c.n && !c.distributed
    ensures Reaches(c, s', steps') && Left(c, s', k + 1)
  {
    s', steps' := StopsLooking(c, s, steps, k);
    s', steps' := Then(c, s', steps', k, ControlStep(Terminate));
    s', steps' := Then(c, s', steps', k, ControlStep(Exit));
  }

  lemma StopsLooking(c: Config, s: State, steps: seq<(nat, Action)>, k: nat) returns (s': State, steps': seq<(nat, Action)>)
    requires Reaches(c, s, steps) && k < |s.threads| && s.threads[k].pc.Check? && (s.terminate || s.waiting >= c.n)
    ensures Reaches(c, s', steps') && Answers(steps') == Answers(steps)
    ensures s' == s.(threads := s.threads[k := s.threads[k].(pc := MoreWork)], waiting := s.waiting - 1)
  {
    s', steps' := Then(c, s, steps, k, ControlStep(CheckExit));
    s', steps' := Then(c, s', steps', k, ControlStep(LeaveEmpty));
  }

  lemma AllLeave(c: Config, s: State, steps: seq<(nat, Action)>, k: nat) returns (s': State, steps': seq<(nat, Action)>)
    requires Reaches(c, s, steps) && Left(c, s, k) && !c.distributed
    ensures Reaches(c, s', steps') && AllDone(s')
    decreases c.n - k
  {
    s', steps' := s, steps;
    if k < c.n {
      s', steps' := Leaves(c, s, steps, k);
      s', steps' := AllLeave(c, s', steps', k + 1);
    }
  }

  /** For every forest and any number of threads some run ends. */
  lemma SomeRunEnds(c: Config) returns (s: State, steps: seq<(nat, Action)>)
    requires c.n >= 1 && !c.distributed
    ensures Reaches(c, s, steps) && AllDone(s)
  {
    s, steps := Begins(c);
    s, steps := AllLeave(c, s, steps, 0);
  }

  /** Every thread is at `pc`. */
  ghost predicate AllAt(c: Config, s: State, pc: PC) {
    |s.threads| == c.n && forall t | 0 <= t < c.n :: s.threads[t].pc == pc
  }

  /** The threads below `k` are at `new`, the others still at `old`. */
  ghost predicate Partly(c: Config, s: State, k: nat, before: PC, after: PC) {
    && |s.threads| == c.n && k <= c.n
    && (forall t | 0 <= t < k :: s.threads[t].pc == after)
    && (forall t | k <= t < c.n :: s.threads[t].pc == before)
  }

  /** Distributed: one after the other the threads leave the loop and go to the barrier. */
  lemma AllArrive(c: Config, s: State, steps: seq<(nat, Action)>, k: nat) returns (s': State, steps': seq<(nat, Action)>)
    requires c.distributed && Reaches(c, s, steps) && s.waiting == c.n && Partly(c, s, k, Check, Wait(true, ReadGeneration))
    ensures Reaches(c, s', steps') && AllAt(c, s', Wait(true, ReadGeneration)) && Answers(steps') == Answers(steps)
    ensures s' == s.(threads := s'.threads)
    decreases c.n - k
  {
    s', steps' := s, steps;
    if k < c.n {
      s', steps' := StopsLooking(c, s, steps, k);
      s', steps' := Then(c, s', steps', k, ControlStep(Arrive));
      s', steps' := AllArrive(c, s', steps', k + 1);
    }
  }

  /** All but the last have counted down. */
  lemma AllCount(c: Config, s: State, steps: seq<(nat, Action)>, first: bool, k: nat)
      returns (s': State, steps': seq<(nat, Action)>)
    requires Reaches(c, s, steps) && k < c.n && s.spaces == c.n - k
    requires Partly(c, s, k, Wait(first, ReadGeneration), Wait(first, Await(s.generation)))
    ensures Reaches(c, s', steps') && Answers(steps') == Answers(steps) && s' == s.(threads := s'.threads, spaces := 1)
    ensures Partly(c, s', c.n - 1, Wait(first, ReadGeneration), Wait(first, Await(s.generation)))
    decreases c.n - k
  {
    s', steps' := s, steps;
    if k < c.n - 1 {
      s', steps' := Then(c, s, steps, k, BarrierStep(WaitRead));
      s', steps' := Then(c, s', steps', k, BarrierStep(WaitDecrement));
      s', steps' := AllCount(c, s', steps', first, k + 1);
    }
  }

  ghost function Behind(first: bool): PC {
    if first then TryLock else Loop
  }

  /** The last thread and the first `k` are through the barrier. */
  ghost predicate Passing(c: Config, s: State, first: bool, k: nat) {
    && |s.threads| == c.n && k < c.n && s.generation > 0
    && (forall t | 0 <= t < k || t == c.n - 1 :: s.threads[t].pc == Behind(first))
    && (forall t | k <= t < c.n - 1 :: s.threads[t].pc == Wait(first, Await(s.generation - 1)))
  }

  /** The generation has turned: the waiting threads follow. */
  lemma AllPass(c: Config, s: State, steps: seq<(nat, Action)>, first: bool, k: nat) returns (s': State, steps': seq<(nat, Action)>)
    requires Reaches(c, s, steps) && Passing(c, s, first, k)
    ensures Reaches(c, s', steps') && AllAt(c, s', Behind(first)) && Answers(steps') == Answers(steps)
    ensures s' == s.(threads := s'.threads)
    decreases c.n - k
  {
    s', steps' := s, steps;
    if k < c.n - 1 {
      s', steps' := Then(c, s, steps, k, BarrierStep(WaitOver));
      s', steps' := AllPass(c, s', steps', first, k + 1);
    }
  }

  /** The last thread turns the generation. */
  lemma Turns(c: Config, s: State, steps: seq<(nat, Action)>, first: bool) returns (s': State, steps': seq<(nat, Action)>)
    requires c.n >= 1 && Reaches(c, s, steps) && s.spaces == 1
    requires Partly(c, s, c.n - 1, Wait(first, ReadGeneration), Wait(first, Await(s.generation)))
    ensures Reaches(c, s', steps') && Answers(steps') == Answers(steps)
    ensures s' == s.(threads := s'.threads, spaces := c.n, generation := s.generation + 1)
    ensures Passing(c, s', first, 0)
  {
    var t := c.n - 1;
    s', steps' := CountsLast(c, s, steps, t);
    s', steps' := Then(c, s', steps', t, BarrierStep(WaitReset));
    s', steps' := Then(c, s', steps', t, BarrierStep(WaitBump));
  }

  lemma ReadsAs(c: Config, s: State, t: nat)
    requires t < |s.threads| && s.threads[t].pc.Wait? && s.threads[t].pc.stage == ReadGeneration
    ensures Enabled(c, s, t, BarrierStep(WaitRead))
    ensures var th := s.threads[t].(pc := Wait(s.threads[t].pc.first, Decrement(s.generation)));
            Apply(c, s, t, BarrierStep(WaitRead)) == s.(threads := s.threads[t := th])
  {
  }

  lemma DecrementsAs(c: Config, s: State, t: nat, th: Thread)
    requires t < |s.threads| && s.spaces == 1 && th.pc.Wait? && th.pc.stage.Decrement?
    ensures var m := s.(threads := s.threads[t := th]);
            && Enabled(c, m, t, BarrierStep(WaitDecrement))
            && Apply(c, m, t, BarrierStep(WaitDecrement))
               == s.(threads := s.threads[t := th.(pc := Wait(th.pc.first, Reset))], spaces := 0)
  {
    var m := s.(threads := s.threads[t := th]);
    assert m.threads[t := th.(pc := Wait(th.pc.first, Reset))] == s.threads[t := th.(pc := Wait(th.pc.first, Reset))];
  }

  lemma CountsLast(c: Config, s: State, steps: seq<(nat, Action)>, t: nat) returns (s': State, steps': seq<(nat, Action)>)
    requires Reaches(c, s, steps) && t < |s.threads| && s.spaces == 1
    requires s.threads[t].pc.Wait? && s.threads[t].pc.stage == ReadGeneration
    ensures Reaches(c, s', steps') && Answers(steps') == Answers(steps)
    ensures s' == s.(threads := s.threads[t := s.threads[t].(pc := Wait(s.threads[t].pc.first, Reset))], spaces := 0)
  {
    var th := s.threads[t].(pc := Wait(s.threads[t].pc.first, Decrement(s.generation)));
    ReadsAs(c, s, t);
    DecrementsAs(c, s, t, th);
    s', steps' := Then(c, s, steps, t, BarrierStep(WaitRead));
    s', steps' := Then(c, s', steps', t, BarrierStep(WaitDecrement));
  }

  /** Everybody passes the barrier. */
  lemma PassBarrier(c: Config, s: State, steps: seq<(nat, Action)>, first: bool) returns (s': State, steps': seq<(nat, Action)>)
    requires c.n >= 1 && Reaches(c, s, steps) && s.spaces == c.n && AllAt(c, s, Wait(first, ReadGeneration))
    ensures Reaches(c, s', steps') && AllAt(c, s', Behind(first)) && Answers(steps') == Answers(steps)
    ensures s' == s.(threads := s'.threads, generation := s.generation + 1)
  {
    s', steps' := AllCount(c, s, steps, first, 0);
    s', steps' := Turns(c, s', steps', first);
    s', steps' := AllPass(c, s', steps', first, 0);
  }

  /** Thread 0 holds the flag, the others find it taken. */
  lemma AllBusy(c: Config, s: State, steps: seq<(nat, Action)>, k: nat) returns (s': State, steps': seq<(nat, Action)>)
    requires Reaches(c, s, steps) && |s.threads| == c.n && 1 <= k <= c.n && s.stealing == By(0)
    requires s.threads[0].pc == Section
    requires forall t | 1 <= t < k :: s.threads[t].pc == Depart
    requires forall t | k <= t < c.n :: s.threads[t].pc == TryLock
    ensures Reaches(c, s', steps') && Answers(steps') == Answers(steps) && s' == s.(threads := s'.threads)
    ensures |s'.threads| == c.n && s'.threads[0].pc == Section && forall t | 1 <= t < c.n :: s'.threads[t].pc == Depart
    decreases c.n - k
  {
    s', steps' := s, steps;
    if k < c.n {
      s', steps' := Then(c, s, steps, k, ControlStep(LockBusy));
      s', steps' := AllBusy(c, s', steps', k + 1);
    }
  }

  lemma AllDepart(c: Config, s: State, steps: seq<(nat, Action)>, k: nat) returns (s': State, steps': seq<(nat, Action)>)
    requires Reaches(c, s, steps) && Partly(c, s, k, Depart, Wait(false, ReadGeneration)) && s.waiting == c.n - k
    ensures Reaches(c, s', steps') && AllAt(c, s', Wait(false, ReadGeneration)) && Answers(steps') == Answers(steps)
    ensures s' == s.(threads := s'.threads, waiting := 0)
    decreases c.n - k
  {
    s', steps' := s, steps;
    if k < c.n {
      s', steps' := Then(c, s, steps, k, ControlStep(DepartStep));
      s', steps' := AllDepart(c, s', steps', k + 1);
    }
  }

  /** What an answer brings. */
  ghost predicate Brought(s: State, answer: Answer) {
    match answer
    case NewRoots(rs) => s.roots == rs && s.gnodes == [] && !s.terminate
    case NewNodes(ts) => s.roots == [] && s.gnodes == ts && !s.terminate
    case Nothing => NothingQueued(s) && s.terminate
  }

  /** Thread 0 takes the flag. */
  lemma Locks(c: Config, s: State, steps: seq<(nat, Action)>) returns (s': State, steps': seq<(nat, Action)>)
    requires c.n >= 1 && Reaches(c, s, steps) && AllAt(c, s, TryLock) && s.stealing == Free
    ensures Reaches(c, s', steps') && Answers(steps') == Answers(steps)
    ensures s' == s.(threads := s.threads[0 := s.threads[0].(pc := Section)], stealing := By(0))
  {
    s', steps' := Then(c, s, steps, 0, ControlStep(Lock));
  }

  /** Thread 0 asks while the others find the flag taken. */
  lemma AsksOnce(c: Config, s: State, steps: seq<(nat, Action)>, answer: Answer) returns (s': State, steps': seq<(nat, Action)>)
    requires c.n >= 1 && Reaches(c, s, steps) && Calm(c, s) && NothingQueued(s) && AllAt(c, s, TryLock)
    ensures Reaches(c, s', steps') && AllAt(c, s', Depart) && Answers(steps') == Answers(steps) + [answer]
    ensures Brought(s', answer) && s'.stealing == Free && s'.spaces == s.spaces && s'.waiting == s.waiting
  {
    s', steps' := Locks(c, s, steps);
    s', steps' := AllBusy(c, s', steps', 1);
    s', steps' := IsAnswered(c, s', steps', answer);
  }

  lemma IsAnswered(c: Config, s: State, steps: seq<(nat, Action)>, answer: Answer) returns (s': State, steps': seq<(nat, Action)>)
    requires c.n >= 1 && Reaches(c, s, steps) && |s.threads| == c.n && NothingQueued(s) && !s.terminate
    requires s.threads[0].pc == Section && s.stealing == By(0)
    ensures Reaches(c, s', steps') && Answers(steps') == Answers(steps) + [answer]
    ensures s'.threads == s.threads[0 := s.threads[0].(pc := Depart)]
    ensures Brought(s', answer) && s'.stealing == Free && s'.spaces == s.spaces && s'.waiting == s.waiting
  {
    ReachableShape(c, s, steps);
    assert ThreadOk(c, s, 0, s.threads[0]);
    s', steps' := Then(c, s, steps, 0, ControlStep(Ask(answer)));
    s', steps' := Then(c, s', steps', 0, ControlStep(Release));
  }

  /** From one search for more work to the next main loop. */
  lemma Round(c: Config, s: State, steps: seq<(nat, Action)>, answer: Answer) returns (s': State, steps': seq<(nat, Action)>)
    requires c.n >= 1 && c.distributed && Reaches(c, s, steps) && Looked(c, s, c.n)
    ensures Reaches(c, s', steps') && AllAt(c, s', Loop) && Answers(steps') == Answers(steps) + [answer]
    ensures Brought(s', answer) && s'.stealing == Free && s'.spaces == c.n && s'.waiting == 0
  {
    s', steps' := AllArrive(c, s, steps, 0);
    s', steps' := PassBarrier(c, s', steps', true);
    s', steps' := AsksOnce(c, s', steps', answer);
    s', steps' := AllDepart(c, s', steps', 0);
    s', steps' := PassBarrier(c, s', steps', false);
  }

  lemma AllExit(c: Config, s: State, steps: seq<(nat, Action)>, k: nat) returns (s': State, steps': seq<(nat, Action)>)
    requires Reaches(c, s, steps) && s.terminate && Partly(c, s, k, Loop, Done)
    ensures Reaches(c, s', steps') && AllDone(s') && Answers(steps') == Answers(steps)
    decreases c.n - k
  {
    s', steps' := s, steps;
    if k < c.n {
      s', steps' := Then(c, s, steps, k, ControlStep(Exit));
      s', steps' := AllExit(c, s', steps', k + 1);
    }
  }

  lemma MoreIsFresh(c: Config, s: State, answer: Answer)
    requires AllAt(c, s, Loop) && Brought(s, answer) && answer != Nothing
    requires s.stealing == Free && s.spaces == c.n && s.waiting == 0
    ensures Fresh(c, s)
  {
  }

  lemma LastRound(c: Config, s: State, steps: seq<(nat, Action)>) returns (s': State, steps': seq<(nat, Action)>)
    requires c.n >= 1 && c.distributed && Reaches(c, s, steps) && Looked(c, s, c.n)
    ensures Reaches(c, s', steps') && AllDone(s') && Answers(steps') == Answers(steps) + [Nothing]
  {
    s', steps' := Round(c, s, steps, Nothing);
    s', steps' := AllExit(c, s', steps', 0);
  }

  lemma NextRound(c: Config, s: State, steps: seq<(nat, Action)>, answer: Answer) returns (s': State, steps': seq<(nat, Action)>)
    requires c.n >= 1 && c.distributed && Reaches(c, s, steps) && Looked(c, s, c.n) && answer != Nothing
    ensures Reaches(c, s', steps') && Looked(c, s', c.n) && Answers(steps') == Answers(steps) + [answer]
  {
    s', steps' := Round(c, s, steps, answer);
    MoreIsFresh(c, s', answer);
    s', steps' := WorksOff(c, s', steps');
  }

  lemma Rounds(c: Config, s: State, steps: seq<(nat, Action)>, answers: seq<Answer>) returns (s': State, steps': seq<(nat, Action)>)
    requires c.n >= 1 && c.distributed && Reaches(c, s, steps) && Looked(c, s, c.n)
    requires forall i | 0 <= i < |answers| :: answers[i] != Nothing
    ensures Reaches(c, s', steps') && AllDone(s') && Answers(steps') == Answers(steps) + (answers + [Nothing])
    decreases |answers|
  {
    if answers == [] {
      s', steps' := LastRound(c, s, steps);
      assert answers + [Nothing] == [Nothing];
    } else {
      var before := Answers(steps);
      s', steps' := NextRound(c, s, steps, answers[0]);
      s', steps' := Rounds(c, s', steps', answers[1..]);
      FirstOf(before, answers, [Nothing]);
    }
  }

  lemma FirstOf<T>(before: seq<T>, xs: seq<T>, ys: seq<T>)
    requires xs != []
    ensures before + [xs[0]] + (xs[1..] + ys) == before + (xs + ys)
  {
  }

  /** Distributed: whatever is sent to the process, in any order, some run takes it all in and
      ends with the first answer that there is nothing more. */
  lemma SomeDistributedRunEnds(c: Config, answers: seq<Answer>) returns (s: State, steps: seq<(nat, Action)>)
    requires c.n >= 1 && c.distributed && forall i | 0 <= i < |answers| :: answers[i] != Nothing
    ensures Reaches(c, s, steps) && AllDone(s) && Answers(steps) == answers + [Nothing]
  {
    s, steps := Begins(c);
    s, steps := Rounds(c, s, steps, answers);
    assert [] + (answers + [Nothing]) == answers + [Nothing];
  }
}
