/** Runs of the protocol that follow `GetStealVictim` (enumerator/distributed_mpi.hpp) and go
    wrong: a worker whose first answer is the end of the run, and a worker that is to steal
    from itself. */
module DistributedMpiRuns {
  import opened Forest
  import opened DistributedMpi
  import opened DistributedMpiTheorems

  lemma Then(c: Config, s: State, steps: seq<(nat, Action)>, i: nat, a: Action) returns (s': State, steps': seq<(nat, Action)>)
    requires Reaches(c, s, steps) && Enabled(c, s, i, a)
    ensures s' == Apply(c, s, i, a) && Reaches(c, s', steps')
  {
    s' := Apply(c, s, i, a);
    steps' := steps + [(i, a)];
    assert steps'[..|steps|] == steps;
  }

  /** Only site `i` differs. */
  ghost predicate SameOthers(s: State, s': State, i: nat) {
    |s'.sites| == |s.sites| && forall j | 0 <= j < |s.sites| && j != i :: s'.sites[j] == s.sites[j]
  }

  ghost predicate SameMaster(s: State, s': State) {
    && s'.pc == s.pc && s'.next == s.next && s'.last == s.last && s'.asked == s.asked && s'.clock == s.clock
    && s'.total == s.total && s'.unfair == s.unfair && s'.aborted == s.aborted
  }

  /** Steps left to work a load off. */
  ghost function NodesWeight(ns: seq<Tree>): nat {
    if ns == [] then 0 else 1 + 2 * SizeAll(ns[0].kids) + NodesWeight(ns[1..])
  }

  lemma NodesWeightAppend(ns: seq<Tree>, t: Tree)
    ensures NodesWeight(ns + [t]) == NodesWeight(ns) + 1 + 2 * SizeAll(t.kids)
  {
    if ns == [] {
      assert ns + [t] == [t];
    } else {
      assert (ns + [t])[1..] == ns[1..] + [t];
      NodesWeightAppend(ns[1..], t);
    }
  }

  ghost function WorkLeft(w: Worker): nat {
    2 * SizeAll(w.todo) + NodesWeight(w.load.nodes)
  }

  /** The next thing a worker does with its load. */
  ghost function WorkAction(w: Worker): WorkerAction {
    if w.todo != [] then Keep else if w.load.nodes != [] then Expand(0) else OpenRoot
  }

  lemma WorkShrinks(c: Config, s: State, i: nat)
    requires i < |s.sites| && s.sites[i].w.pc.Working? && (s.sites[i].w.load != Load([], []) || s.sites[i].w.todo != [])
    ensures var w := s.sites[i].w;
            && EnabledWorker(c, s, i, WorkAction(w))
            && var w' := ApplyWorker(c, s, i, WorkAction(w)).sites[i].w;
            |w'.load.roots| < |w.load.roots| || (w'.load.roots == w.load.roots && WorkLeft(w') < WorkLeft(w))
  {
    var w := s.sites[i].w;
    var w' := ApplyWorker(c, s, i, WorkAction(w)).sites[i].w;
    if w.todo != [] {
      NodesWeightAppend(w.load.nodes, w.todo[0]);
      assert SizeAll(w.todo) == 1 + SizeAll(w.todo[0].kids) + SizeAll(w.todo[1..]);
      assert WorkLeft(w') < WorkLeft(w);
    } else if w.load.nodes != [] {
      var ns := w.load.nodes;
      assert ns[..0] + ns[0 + 1..] == ns[1..];
      assert w.todo + ns[0].kids == ns[0].kids;
      assert WorkLeft(w') < WorkLeft(w);
    } else {
      assert |w'.load.roots| < |w.load.roots|;
    }
  }

  lemma WorkFrames(c: Config, s: State, i: nat)
    requires i < |s.sites| && EnabledWorker(c, s, i, WorkAction(s.sites[i].w)) && s.sites[i].w.pc.Working?
    ensures var s' := ApplyWorker(c, s, i, WorkAction(s.sites[i].w));
            SameOthers(s, s', i) && SameMaster(s, s') && s'.sites[i].w.pc.Working? && SameSite(s.sites[i], s'.sites[i])
  {
  }

  ghost predicate SameSite(a: Site, b: Site) {
    b.up == a.up && b.down == a.down && b.st == a.st && b.w.first == a.w.first
  }

  /** Reports of `x` still to come from a worker. */
  ghost function Pending(c: Config, w: Worker, x: nat): nat {
    LoadWeight(c, w.load, x) + CountAll(w.todo, x)
  }

  /** Everything a worker holds has been reported. */
  ghost predicate Reported(c: Config, s: State, s': State, w: Worker) {
    forall x: nat :: s'.reported[x] == s.reported[x] + Pending(c, w, x)
  }

  lemma WorkReports(c: Config, s: State, i: nat)
    requires i < |s.sites| && EnabledWorker(c, s, i, WorkAction(s.sites[i].w)) && s.sites[i].w.pc.Working?
    ensures var s' := ApplyWorker(c, s, i, WorkAction(s.sites[i].w));
            forall x: nat :: s'.reported[x] + Pending(c, s'.sites[i].w, x) == s.reported[x] + Pending(c, s.sites[i].w, x)
  {
    var a := WorkAction(s.sites[i].w);
    var s' := ApplyWorker(c, s, i, a);
    forall x: nat
      ensures s'.reported[x] + Pending(c, s'.sites[i].w, x) == s.reported[x] + Pending(c, s.sites[i].w, x)
    {
      WorkerBalance(c, s, i, a, x);
      SameElsewhere(c, s, i, x);
    }
  }

  lemma SameElsewhere(c: Config, s: State, i: nat, x: nat)
    requires i < |s.sites| && EnabledWorker(c, s, i, WorkAction(s.sites[i].w)) && s.sites[i].w.pc.Working?
    ensures var s' := ApplyWorker(c, s, i, WorkAction(s.sites[i].w));
            Elsewhere(c, s', x) == Elsewhere(c, s, x) && s'.again == s.again && SameSite(s.sites[i], s'.sites[i])
  {
  }

  /** A worker at work gets through its load and is about to ask for more. */
  lemma Drain(c: Config, s: State, steps: seq<(nat, Action)>, i: nat) returns (s': State, steps': seq<(nat, Action)>)
    requires Reaches(c, s, steps) && !s.aborted && i < |s.sites| && s.sites[i].w.pc.Working?
    ensures Reaches(c, s', steps') && SameOthers(s, s', i) && SameMaster(s, s')
    ensures s'.sites[i].w.pc.Asking? && s'.sites[i].w.load == Load([], []) && s'.sites[i].w.todo == []
    ensures SameSite(s.sites[i], s'.sites[i]) && Reported(c, s, s', s.sites[i].w)
    decreases |s.sites[i].w.load.roots|, WorkLeft(s.sites[i].w)
  {
    var w := s.sites[i].w;
    if w.load == Load([], []) && w.todo == [] {
      s', steps' := Then(c, s, steps, i, WorkerStep(Finish));
    } else {
      WorkShrinks(c, s, i);
      WorkFrames(c, s, i);
      WorkReports(c, s, i);
      s', steps' := Then(c, s, steps, i, WorkerStep(WorkAction(w)));
      s', steps' := Drain(c, s', steps', i);
    }
  }

  /** About to ask, with nothing in its channels. */
  ghost predicate Turn(site: Site) {
    && site.w.pc.Asking? && site.w.load == Load([], []) && site.w.todo == []
    && site.up == [] && site.down == [] && site.st != STEAL_WAIT
  }

  ghost predicate Untouched(site: Site) {
    Turn(site) && site.w.first
  }

  /** At work, nothing in its channels. */
  ghost predicate Busy(site: Site) {
    site.w.pc.Working? && !site.w.first && site.up == [] && site.down == [] && site.st != STEAL_WAIT
  }

  /** Waits for an answer, and the master knows. */
  ghost predicate Waits(site: Site) {
    && site.w.pc.Waiting? && site.w.load == Load([], []) && site.w.todo == []
    && site.down == [] && site.st == STEAL_WAIT
  }

  ghost predicate Quiet(c: Config, s: State) {
    !s.unfair && !s.aborted && |s.sites| == c.n && |s.asked| == c.n && s.clock > 0
  }

  /** The request reaches the master. */
  lemma Asks(c: Config, s: State, steps: seq<(nat, Action)>, i: nat) returns (s': State, steps': seq<(nat, Action)>)
    requires Reaches(c, s, steps) && Quiet(c, s) && i < c.n && s.pc == Listen && Turn(s.sites[i])
    ensures Reaches(c, s', steps') && Quiet(c, s') && SameOthers(s, s', i)
    ensures s'.last == s.last && s'.asked == s.asked[i := s.clock]
    ensures s'.sites[i].w == s.sites[i].w.(pc := Waiting) && s'.sites[i].up == []
    ensures if s.next > 0 && c.perGrant > 0 then
              && s'.pc == Listen && s'.next == (if s.next >= c.perGrant then s.next - c.perGrant else 0)
              && s'.sites[i].st == s.sites[i].st && s'.sites[i].down == [RangeResponse(s'.next, s.next)]
            else s'.pc == Decide(i) && s'.next == s.next && Waits(s'.sites[i])
  {
    var s1, p1 := Then(c, s, steps, i, WorkerStep(Send));
    assert s1.sites[i].up == [RangeRequest(s.sites[i].w.pc.count)];
    s', steps' := Then(c, s1, p1, i, MasterStep(TakeRequest));
  }

  /** A worker asks while there are ranges, and gets one. */
  lemma TakesRange(c: Config, s: State, steps: seq<(nat, Action)>, i: nat) returns (s': State, steps': seq<(nat, Action)>)
    requires Reaches(c, s, steps) && Quiet(c, s) && i < c.n && s.pc == Listen && Turn(s.sites[i])
    requires s.next > 0 && c.perGrant > 0
    ensures Reaches(c, s', steps') && Quiet(c, s') && SameOthers(s, s', i)
    ensures s'.pc == Listen && s'.last == s.last && s'.asked == s.asked[i := s.clock] && Busy(s'.sites[i])
    ensures s'.next == if s.next >= c.perGrant then s.next - c.perGrant else 0
    ensures s'.sites[i].w.load == Load(Interval(s'.next, s.next), []) && s'.sites[i].w.todo == []
  {
    var s1, p1 := Asks(c, s, steps, i);
    s', steps' := Then(c, s1, p1, i, WorkerStep(Receive));
  }

  ghost predicate AskedAsBefore(s: State, s': State, i: nat) {
    |s'.asked| == |s.asked| && forall j | 0 <= j < |s.asked| && j != i :: s'.asked[j] == s.asked[j]
  }

  /** One worker takes one range after the other, until it is at work on the last. */
  lemma TakesAll(c: Config, s: State, steps: seq<(nat, Action)>, i: nat) returns (s': State, steps': seq<(nat, Action)>)
    requires Reaches(c, s, steps) && Quiet(c, s) && i < c.n && s.pc == Listen && Turn(s.sites[i])
    requires s.next > 0 && c.perGrant > 0
    ensures Reaches(c, s', steps') && Quiet(c, s') && SameOthers(s, s', i) && AskedAsBefore(s, s', i)
    ensures s'.pc == Listen && s'.next == 0 && s'.last == s.last && s'.asked[i] > 0 && Busy(s'.sites[i])
    ensures s'.sites[i].w.load.roots != [] && s'.sites[i].w.load.roots[0] == 0 && s'.sites[i].w.todo == []
    decreases s.next
  {
    s', steps' := TakesRange(c, s, steps, i);
    if s'.next > 0 {
      s', steps' := Drain(c, s', steps', i);
      s', steps' := TakesAll(c, s', steps', i);
    }
  }

  /** The victim has no work for the stealer: it asks for work itself. */
  lemma Declines(c: Config, s: State, steps: seq<(nat, Action)>, t: nat, v: nat) returns (s': State, steps': seq<(nat, Action)>)
    requires Reaches(c, s, steps) && Quiet(c, s) && s.pc == Decide(t) && v < c.n && v != t
    requires !AllWaiting(s) && Picked(States(s), s.asked, s.last, v)
    requires Busy(s.sites[v]) || Turn(s.sites[v])
    ensures Reaches(c, s', steps') && Quiet(c, s') && SameOthers(s, s', v) && AskedAsBefore(s, s', v)
    ensures s'.pc == Decide(t) && s'.next == s.next && s'.last == v
    ensures Waits(s'.sites[v]) && s'.sites[v].w.first == s.sites[v].w.first
  {
    s', steps' := Then(c, s, steps, v, MasterStep(AskVictim));
    assert s'.sites[v].down == [StealRequest];
    if s'.sites[v].w.pc.Working? {
      s', steps' := Drain(c, s', steps', v);
    }
    s', steps' := Answers(c, s', steps', t, v);
    s', steps' := AsksAgain(c, s', steps', v);
  }

  lemma Answers(c: Config, s: State, steps: seq<(nat, Action)>, t: nat, v: nat) returns (s': State, steps': seq<(nat, Action)>)
    requires Reaches(c, s, steps) && Quiet(c, s) && s.pc == Await(t, v) && v < c.n
    requires s.sites[v].w.pc.Asking? && s.sites[v].up == []
    ensures Reaches(c, s', steps') && Quiet(c, s') && SameOthers(s, s', v) && AskedAsBefore(s, s', v)
    ensures s'.pc == Decide(t) && s'.next == s.next && s'.last == s.last
    ensures s'.sites[v] == s.sites[v].(w := s.sites[v].w.(pc := Waiting), st := STEAL_WAIT)
  {
    s', steps' := Then(c, s, steps, v, WorkerStep(Send));
    assert s'.sites[v].up == [RangeRequest(s.sites[v].w.pc.count)];
    s', steps' := Then(c, s', steps', v, MasterStep(TakeAnswer));
  }

  /** A steal request met while waiting is answered by asking again. */
  lemma AsksAgain(c: Config, s: State, steps: seq<(nat, Action)>, v: nat) returns (s': State, steps': seq<(nat, Action)>)
    requires Reaches(c, s, steps) && Quiet(c, s) && v < c.n
    requires s.sites[v].w.pc.Waiting? && s.sites[v].down == [StealRequest]
    ensures Reaches(c, s', steps') && SameOthers(s, s', v) && SameMaster(s, s')
    ensures s'.sites[v].w == s.sites[v].w && s'.sites[v].down == [] && s'.sites[v].st == s.sites[v].st
  {
    s', steps' := Then(c, s, steps, v, WorkerStep(Receive));
    s', steps' := Then(c, s', steps', v, WorkerStep(Send));
  }

  /** The stealer is `t`; unless `b` is `t` as well, `b` has all the work. The other workers
      below `v` have been found waiting, those from `v` on have not even asked. */
  ghost predicate Searching(c: Config, s: State, t: nat, b: nat, v: nat) {
    && Quiet(c, s) && s.pc == Decide(t) && t < v && b < v <= c.n
    && s.last < v && (s.last == 0 || (t < s.last && b < s.last))
    && Waits(s.sites[t]) && (b != t ==> Busy(s.sites[b]) && s.asked[b] > 0)
    && (forall j | 0 <= j < v && j != t && j != b :: Waits(s.sites[j]) && s.sites[j].w.first)
    && (forall j | v <= j < c.n :: Untouched(s.sites[j]) && s.asked[j] == 0)
  }

  lemma NextIsPicked(c: Config, s: State, t: nat, b: nat, v: nat)
    requires Searching(c, s, t, b, v) && (v < c.n || b != t)
    ensures !AllWaiting(s) && Picked(States(s), s.asked, s.last, if v < c.n then v else b)
  {
    assert v < c.n ==> Candidate(States(s), s.last, v) && s.sites[v].st != STEAL_WAIT;
    assert b != t ==> s.sites[b].st != STEAL_WAIT;
  }

  /** The master finds one after the other waiting, until only `b` is left. */
  lemma FindsOthers(c: Config, s: State, steps: seq<(nat, Action)>, t: nat, b: nat, v: nat)
      returns (s': State, steps': seq<(nat, Action)>)
    requires Reaches(c, s, steps) && Searching(c, s, t, b, v)
    ensures Reaches(c, s', steps') && Searching(c, s', t, b, c.n)
    ensures s'.next == s.next && s'.sites[t] == s.sites[t] && s'.sites[b] == s.sites[b]
    decreases c.n - v
  {
    s', steps' := s, steps;
    if v < c.n {
      NextIsPicked(c, s, t, b, v);
      s', steps' := Declines(c, s, steps, t, v);
      s', steps' := FindsOthers(c, s', steps', t, b, v + 1);
    }
  }

  /** In the end everybody is found waiting. */
  lemma FindsAll(c: Config, s: State, steps: seq<(nat, Action)>, t: nat, b: nat, v: nat)
      returns (s': State, steps': seq<(nat, Action)>)
    requires Reaches(c, s, steps) && Searching(c, s, t, b, v)
    ensures Reaches(c, s', steps') && Quiet(c, s') && s'.pc == Decide(t) && AllWaiting(s')
    ensures s'.next == s.next && s'.sites[t] == s.sites[t]
    ensures forall j | 0 <= j < c.n && j != t && j != b :: Waits(s'.sites[j]) && s'.sites[j].w.first
  {
    s', steps' := FindsOthers(c, s, steps, t, b, v);
    if b != t {
      NextIsPicked(c, s', t, b, c.n);
      s', steps' := Declines(c, s', steps', t, b);
    }
  }

  lemma Begins(c: Config) returns (s: State, steps: seq<(nat, Action)>)
    requires c.n > 0
    ensures Reaches(c, s, steps) && Quiet(c, s) && s.pc == Listen && s.next == c.maxRoots && s.last == 0
    ensures forall j | 0 <= j < c.n :: Untouched(s.sites[j]) && s.asked[j] == 0
  {
    s, steps := Init(c), [];
  }

  /** Everybody waits before worker `t` has been answered at all. */
  ghost predicate LeftOut(c: Config, s: State, t: nat) {
    Quiet(c, s) && t < c.n && s.pc == Decide(t) && AllWaiting(s) && Waits(s.sites[t]) && s.sites[t].w.first
  }

  /** With two or more workers, whatever the forest: worker 0 takes all ranges before worker 1
      asks, and is through with them before it looks for steal requests. */
  lemma OneTakesAll(c: Config) returns (s: State, steps: seq<(nat, Action)>)
    requires c.n >= 2 && c.maxRoots > 0 && c.perGrant > 0
    ensures Reaches(c, s, steps) && LeftOut(c, s, 1) && s.next == 0
  {
    s, steps := Begins(c);
    s, steps := TakesAll(c, s, steps, 0);
    s, steps := Asks(c, s, steps, 1);
    s, steps := FindsAll(c, s, steps, 1, 0, 2);
  }

  /** Without ranges nobody is answered. */
  lemma NobodyTakes(c: Config) returns (s: State, steps: seq<(nat, Action)>)
    requires c.n > 0 && (c.maxRoots == 0 || c.perGrant == 0)
    ensures Reaches(c, s, steps) && LeftOut(c, s, 0) && s.next == c.maxRoots
    ensures forall j | 0 <= j < c.n :: Waits(s.sites[j]) && s.sites[j].w.first
  {
    s, steps := Begins(c);
    s, steps := Asks(c, s, steps, 0);
    s, steps := FindsAll(c, s, steps, 0, 0, 1);
  }

  ghost predicate ToldFrom(s: State, s': State, from: nat) {
    |s'.sites| == |s.sites| &&
    forall j | 0 <= j < |s.sites| ::
      s'.sites[j] == if j < from then s.sites[j] else s.sites[j].(down := s.sites[j].down + [Termination])
  }

  /** The broadcast from worker `from` on. */
  lemma TellsAll(c: Config, s: State, steps: seq<(nat, Action)>, from: nat) returns (s': State, steps': seq<(nat, Action)>)
    requires Reaches(c, s, steps) && !s.aborted && s.pc == Broadcast(from) && from <= |s.sites|
    ensures Reaches(c, s', steps') && s' == s.(sites := s'.sites, pc := Broadcast(|s.sites|)) && ToldFrom(s, s', from)
    decreases |s.sites| - from
  {
    s', steps' := s, steps;
    if from < |s.sites| {
      s', steps' := Then(c, s, steps, from, MasterStep(Tell));
      s', steps' := TellsAll(c, s', steps', from + 1);
    }
  }

  /** Everybody is told to stop, and the master returns if all ranges have been sent. */
  lemma Stops(c: Config, s: State, steps: seq<(nat, Action)>) returns (s': State, steps': seq<(nat, Action)>)
    requires Reaches(c, s, steps) && !s.aborted && s.pc.Decide? && AllWaiting(s)
    ensures Reaches(c, s', steps') && ToldFrom(s, s', 0)
    ensures s' == s.(sites := s'.sites, pc := if s.next > 0 then Listen else Finished)
  {
    s', steps' := Then(c, s, steps, 0, MasterStep(BeginTermination));
    s', steps' := TellsAll(c, s', steps', 0);
    s', steps' := Then(c, s', steps', 0, MasterStep(Return));
  }

  /** The first answer is the end of the run. */
  ghost predicate EndsFirst(site: Site) {
    && site.w.pc.Waiting? && site.w.first && site.w.load == Load([], []) && site.w.todo == []
    && site.down == [Termination]
  }

  /** A worker so answered enumerates all roots once more, if there are no assertions. */
  lemma Repeats(c: Config, s: State, steps: seq<(nat, Action)>, i: nat) returns (s': State, steps': seq<(nat, Action)>)
    requires Reaches(c, s, steps) && !s.aborted && !c.asserts && i < |s.sites| && EndsFirst(s.sites[i])
    ensures Reaches(c, s', steps') && SameOthers(s, s', i) && s'.pc == s.pc && !s'.aborted
    ensures forall x: nat :: s'.reported[x] == s.reported[x] + RootsWeight(c, c.maxRoots, x)
  {
    s', steps' := Then(c, s, steps, i, WorkerStep(Receive));
    assert forall x: nat :: Pending(c, s'.sites[i].w, x) == RootsWeight(c, c.maxRoots, x);
    s', steps' := Drain(c, s', steps', i);
  }

  /** Worker `t` has been left out; the others are told as well. */
  lemma LeftOutIsTold(c: Config, s: State, steps: seq<(nat, Action)>, t: nat) returns (s': State, steps': seq<(nat, Action)>)
    requires Reaches(c, s, steps) && LeftOut(c, s, t)
    ensures Reaches(c, s', steps') && ToldFrom(s, s', 0) && EndsFirst(s'.sites[t])
    ensures s' == s.(sites := s'.sites, pc := if s.next > 0 then Listen else Finished)
  {
    s', steps' := Stops(c, s, steps);
    assert s'.sites[t].down == [Termination];
  }

  /** A run in which some worker's first answer is no range, whatever the forest. */
  lemma UnfairRun(c: Config) returns (s: State, steps: seq<(nat, Action)>)
    requires c.n >= 2 || (c.n == 1 && (c.maxRoots == 0 || c.perGrant == 0))
    ensures Reaches(c, s, steps) && s.unfair
  {
    var t := if c.maxRoots > 0 && c.perGrant > 0 then 1 else 0;
    if t == 1 {
      s, steps := OneTakesAll(c);
    } else {
      s, steps := NobodyTakes(c);
    }
    s, steps := LeftOutIsTold(c, s, steps, t);
    s, steps := Then(c, s, steps, t, WorkerStep(Receive));
  }

  /** Two or more workers, no assertions: a run that reports the whole forest twice. If there
      is a root for each worker the master has finished. */
  lemma TwiceRun(c: Config) returns (s: State, steps: seq<(nat, Action)>)
    requires c.n >= 2 && !c.asserts
    ensures Reaches(c, s, steps) && forall x: nat :: s.reported[x] == 2 * RootsWeight(c, c.maxRoots, x)
    ensures Serves(c) ==> s.pc.Finished?
  {
    if Serves(c) {
      var t := if c.maxRoots > 0 then 1 else 0;
      if t == 1 {
        s, steps := OneTakesAll(c);
      } else {
        s, steps := NobodyTakes(c);
      }
      StopsOnlyWhenIdle(c, s, steps);
      s, steps := LeftOutIsTold(c, s, steps, t);
      s, steps := Repeats(c, s, steps, t);
    } else {
      s, steps := NobodyTakes(c);
      NothingEnumerated(c, s, steps);
      ghost var s0 := s;
      s, steps := LeftOutIsTold(c, s, steps, 0);
      assert Waits(s0.sites[1]) && s.sites[1].down == [Termination];
      s, steps := Repeats(c, s, steps, 0);
      s, steps := Repeats(c, s, steps, 1);
    }
  }

  /** A run that ends as it should, for every forest and any number of workers. */
  lemma FairEnd(c: Config) returns (s: State, steps: seq<(nat, Action)>)
    requires c.n > 0 && Serves(c)
    ensures Reaches(c, s, steps) && s.pc.Finished? && Complete(c, s) && !s.unfair
  {
    if c.maxRoots == 0 {
      s, steps := NobodyTakes(c);
    } else if c.n >= 2 {
      s, steps := OneTakesAll(c);
    } else {
      s, steps := Begins(c);
      s, steps := TakesAll(c, s, steps, 0);
      s, steps := Drain(c, s, steps, 0);
      s, steps := Asks(c, s, steps, 0);
    }
    s, steps := Stops(c, s, steps);
    StopsOnlyWhenIdle(c, s, steps);
  }

  /** The stealer is what `GetStealVictim` picks. */
  ghost predicate SelfPick(s: State) {
    && s.pc.Decide? && !AllWaiting(s) && |s.asked| == |s.sites|
    && Picked(States(s), s.asked, s.last, s.pc.stealer)
  }

  /** Worker 0 has no work, worker 1 is at work on the last range, the others have not asked. */
  lemma ToLastRange(c: Config) returns (s: State, steps: seq<(nat, Action)>)
    requires c.n >= 2 && 0 < c.perGrant < c.maxRoots
    ensures Reaches(c, s, steps) && Searching(c, s, 0, 1, 2) && s.next == 0 && !s.sites[0].w.first && s.sites[0].up == []
    ensures s.sites[1].w.load.roots != [] && s.sites[1].w.load.roots[0] == 0 && s.sites[1].w.todo == []
  {
    s, steps := Begins(c);
    s, steps := TakesRange(c, s, steps, 0);
    s, steps := Drain(c, s, steps, 0);
    s, steps := TakesAll(c, s, steps, 1);
    s, steps := Asks(c, s, steps, 0);
  }

  /** The master's last victim `v` opens a root and gives its first node to the stealer. */
  lemma GivesNode(c: Config, s: State, steps: seq<(nat, Action)>, t: nat, v: nat) returns (s': State, steps': seq<(nat, Action)>)
    requires Reaches(c, s, steps) && Quiet(c, s) && s.pc == Await(t, v) && t < c.n && v < c.n && t != v
    requires s.sites[v].w.pc.Working? && s.sites[v].down == [StealRequest] && s.sites[v].up == []
    requires s.sites[v].w.load.roots != [] && s.sites[v].w.todo == [] && c.rootsOf(s.sites[v].w.load.roots[0]) != []
    ensures Reaches(c, s', steps') && Quiet(c, s') && s'.pc.Forward? && s'.pc.stealer == t
    ensures SameOthers(s, s', v) && s'.next == s.next && s'.last == s.last && s'.asked == s.asked
    ensures s'.sites[v].st == s.sites[v].st
  {
    s', steps' := Then(c, s, steps, v, WorkerStep(OpenRoot));
    var node := s'.sites[v].w.todo[0];
    s', steps' := Then(c, s', steps', v, WorkerStep(GiveNode));
    assert s'.sites[v].up == [StealResponse(Load([], [node]))];
    s', steps' := Then(c, s', steps', v, MasterStep(TakeAnswer));
  }

  /** The stealer gets it, is through with it, and asks again. */
  lemma StealsAndAsks(c: Config, s: State, steps: seq<(nat, Action)>, t: nat) returns (s': State, steps': seq<(nat, Action)>)
    requires Reaches(c, s, steps) && Quiet(c, s) && s.pc.Forward? && s.pc.stealer == t < c.n && s.next == 0
    requires Waits(s.sites[t]) && !s.sites[t].w.first && s.sites[t].up == []
    ensures Reaches(c, s', steps') && Quiet(c, s') && s'.pc == Decide(t) && Waits(s'.sites[t])
    ensures SameOthers(s, s', t) && s'.last == s.last
  {
    s', steps' := Then(c, s, steps, t, MasterStep(PassOn));
    assert s'.sites[t].down == [StealResponse(s.pc.load)];
    s', steps' := Then(c, s', steps', t, WorkerStep(Receive));
    s', steps' := Drain(c, s', steps', t);
    s', steps' := Asks(c, s', steps', t);
  }

  /** Worker 0 steals from worker 1 twice in a row: the second time nobody else has work. */
  lemma SelfPickRun(c: Config) returns (s: State, steps: seq<(nat, Action)>)
    requires c.n >= 2 && 0 < c.perGrant < c.maxRoots && c.rootsOf(0) != []
    ensures Reaches(c, s, steps) && SelfPick(s) && !s.unfair && !s.aborted
  {
    s, steps := ToLastRange(c);
    s, steps := FindsOthers(c, s, steps, 0, 1, 2);
    NextIsPicked(c, s, 0, 1, c.n);
    ghost var s0 := s;
    s, steps := Then(c, s, steps, 1, MasterStep(AskVictim));
    assert s.sites[1].down == [StealRequest];
    s, steps := GivesNode(c, s, steps, 0, 1);
    s, steps := StealsAndAsks(c, s, steps, 0);
    assert forall j | 2 <= j < c.n :: s.sites[j] == s0.sites[j];
    assert s.sites[1].st == s0.sites[1].st != STEAL_WAIT;
    assert forall j: nat :: !Candidate(States(s), 1, j);
  }
}
