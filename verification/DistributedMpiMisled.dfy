/** What misled workers do to a run: workers whose first answer was no range, which drop what
    the answer held and enumerate all roots. */
module DistributedMpiMisled {
  import opened Forest
  import opened DistributedMpi
  import opened DistributedMpiTheorems

  ghost predicate MisledBy(s: State, i: nat, a: Action) {
    && a == WorkerStep(Receive) && i < |s.sites| && s.sites[i].down != []
    && s.sites[i].w.first && (s.sites[i].down[0].StealResponse? || s.sites[i].down[0].Termination?)
  }

  /** A worker and the load in its first answer. */
  datatype Misled = Misled(worker: nat, lost: Load)

  ghost function Record(s: State, i: nat, a: Action): seq<Misled> {
    if MisledBy(s, i, a) then
      var m := s.sites[i].down[0];
      [Misled(i, if m.StealResponse? then m.load else Load([], []))]
    else []
  }

  /** A run, and the workers misled in it, in order. */
  ghost predicate Misleadings(c: Config, s: State, steps: seq<(nat, Action)>, trace: seq<Misled>)
    decreases |steps|
  {
    if steps == [] then s == Init(c) && trace == []
    else
      var n := |steps| - 1;
      exists p: State, before: seq<Misled> ::
        && Misleadings(c, p, steps[..n], before) && Enabled(c, p, steps[n].0, steps[n].1)
        && s == Apply(c, p, steps[n].0, steps[n].1) && trace == before + Record(p, steps[n].0, steps[n].1)
  }

  lemma HasMisleadings(c: Config, s: State, steps: seq<(nat, Action)>) returns (trace: seq<Misled>)
    requires Reaches(c, s, steps)
    ensures Misleadings(c, s, steps, trace)
    decreases |steps|
  {
    if steps == [] {
      trace := [];
    } else {
      var n := |steps| - 1;
      var p: State :| Reaches(c, p, steps[..n]) && Enabled(c, p, steps[n].0, steps[n].1) && s == Apply(c, p, steps[n].0, steps[n].1);
      var before := HasMisleadings(c, p, steps[..n]);
      trace := before + Record(p, steps[n].0, steps[n].1);
    }
  }

  lemma IsReached(c: Config, s: State, steps: seq<(nat, Action)>, trace: seq<Misled>)
    requires Misleadings(c, s, steps, trace)
    ensures Reaches(c, s, steps)
    decreases |steps|
  {
    if steps != [] {
      var n := |steps| - 1;
      var p: State, before: seq<Misled> :|
        && Misleadings(c, p, steps[..n], before) && Enabled(c, p, steps[n].0, steps[n].1)
        && s == Apply(c, p, steps[n].0, steps[n].1) && trace == before + Record(p, steps[n].0, steps[n].1);
      IsReached(c, p, steps[..n], before);
    }
  }

  /** All roots, `k` times. */
  ghost function AllRoots(c: Config, k: nat): seq<nat> {
    if k == 0 then [] else AllRoots(c, k - 1) + Interval(0, c.maxRoots)
  }

  /** The loads in the first answers. */
  ghost function Lost(trace: seq<Misled>): Load {
    if trace == [] then Load([], [])
    else
      var before, last := Lost(trace[..|trace| - 1]), trace[|trace| - 1].lost;
      Load(before.roots + last.roots, before.nodes + last.nodes)
  }

  lemma LostNext(trace: seq<Misled>, m: Misled)
    ensures Lost(trace + [m]) == Load(Lost(trace).roots + m.lost.roots, Lost(trace).nodes + m.lost.nodes)
  {
    assert (trace + [m])[..|trace|] == trace;
  }

  predicate Distinct(trace: seq<Misled>) {
    forall k, l | 0 <= k < l < |trace| :: trace[k].worker != trace[l].worker
  }

  ghost predicate Once(s: State, trace: seq<Misled>) {
    && Distinct(trace)
    && forall k | 0 <= k < |trace| :: trace[k].worker < |s.sites| && !s.sites[trace[k].worker].w.first
  }

  ghost predicate Kept(c: Config, s: State, trace: seq<Misled>) {
    && s.again == AllRoots(c, |trace|) && s.dropped == Lost(trace) && (s.unfair <==> trace != [])
    && |s.sites| == c.n && Once(s, trace)
  }

  /** No step gives a worker its first answer again. */
  ghost predicate FirstOnce(s: State, s': State, i: nat) {
    |s'.sites| == |s.sites| && forall u | 0 <= u < |s.sites| :: s'.sites[u].w.first ==> s.sites[u].w.first
  }

  lemma MisledStep(c: Config, s: State, i: nat)
    requires EnabledWorker(c, s, i, Receive) && MisledBy(s, i, WorkerStep(Receive))
    ensures var s', lost := ApplyWorker(c, s, i, Receive), Record(s, i, WorkerStep(Receive))[0].lost;
            && FirstOnce(s, s', i) && !s'.sites[i].w.first && s'.unfair
            && s'.again == s.again + Interval(0, c.maxRoots)
            && s'.dropped == Load(s.dropped.roots + lost.roots, s.dropped.nodes + lost.nodes)
  {
  }

  lemma OtherByWorker(c: Config, s: State, i: nat, a: WorkerAction)
    requires EnabledWorker(c, s, i, a) && !MisledBy(s, i, WorkerStep(a))
    ensures var s' := ApplyWorker(c, s, i, a);
            FirstOnce(s, s', i) && s'.again == s.again && s'.dropped == s.dropped && s'.unfair == s.unfair
  {
  }

  lemma OtherByMaster(c: Config, s: State, i: nat, a: MasterAction)
    requires EnabledMaster(c, s, i, a)
    ensures var s' := ApplyMaster(c, s, i, a);
            FirstOnce(s, s', i) && s'.again == s.again && s'.dropped == s.dropped && s'.unfair == s.unfair
  {
  }

  lemma KeptStep(c: Config, s: State, i: nat, a: Action, trace: seq<Misled>)
    requires Enabled(c, s, i, a) && Kept(c, s, trace)
    ensures Kept(c, Apply(c, s, i, a), trace + Record(s, i, a))
  {
    if MisledBy(s, i, a) {
      MisledStep(c, s, i);
      LostNext(trace, Record(s, i, a)[0]);
    } else {
      assert trace + Record(s, i, a) == trace;
      match a
      case WorkerStep(w) => OtherByWorker(c, s, i, w);
      case MasterStep(m) => OtherByMaster(c, s, i, m);
    }
  }

  lemma RunKeeps(c: Config, s: State, steps: seq<(nat, Action)>, trace: seq<Misled>)
    requires Misleadings(c, s, steps, trace)
    ensures Kept(c, s, trace)
    decreases |steps|
  {
    if steps != [] {
      var n := |steps| - 1;
      var p: State, before: seq<Misled> :|
        && Misleadings(c, p, steps[..n], before) && Enabled(c, p, steps[n].0, steps[n].1)
        && s == Apply(c, p, steps[n].0, steps[n].1) && trace == before + Record(p, steps[n].0, steps[n].1);
      RunKeeps(c, p, steps[..n], before);
      KeptStep(c, p, steps[n].0, steps[n].1, before);
    }
  }

  lemma AllRootsWeigh(c: Config, k: nat, x: nat)
    ensures CountRoots(c.rootsOf, AllRoots(c, k), x) == k * RootsWeight(c, c.maxRoots, x)
  {
    if k > 0 {
      AllRootsWeigh(c, k - 1, x);
      RootsConcat(c.rootsOf, AllRoots(c, k - 1), Interval(0, c.maxRoots), x);
      OneMore(k - 1, RootsWeight(c, c.maxRoots, x));
    }
  }

  lemma OneMore(k: nat, w: nat)
    ensures (k + 1) * w == k * w + w
  {
  }

  ghost predicate AtMost(c: Config, s: State, trace: seq<Misled>, x: nat) {
    s.reported[x] <= (1 + |trace|) * RootsWeight(c, c.maxRoots, x)
  }

  ghost predicate Exactly(c: Config, s: State, trace: seq<Misled>, x: nat) {
    s.reported[x] + LoadWeight(c, Lost(trace), x) == (1 + |trace|) * RootsWeight(c, c.maxRoots, x)
  }

  /** On every run each worker is misled at most once, and each one makes the run report the
      whole forest once more, less what its first answer held. */
  lemma MisledRun(c: Config, s: State, steps: seq<(nat, Action)>, trace: seq<Misled>)
    requires Misleadings(c, s, steps, trace)
    ensures |trace| <= c.n && Once(s, trace) && (s.unfair <==> trace != [])
    ensures forall x: nat :: AtMost(c, s, trace, x)
    ensures Serves(c) && Enabled(c, s, 0, MasterStep(BeginTermination)) ==> forall x: nat :: Exactly(c, s, trace, x)
  {
    RunKeeps(c, s, steps, trace);
    IsReached(c, s, steps, trace);
    ReachableAlways(c, s, steps);
    DistinctFit(trace, c.n);
    forall x: nat
      ensures AtMost(c, s, trace, x)
    {
      AllRootsWeigh(c, |trace|, x);
      OneMore(|trace|, RootsWeight(c, c.maxRoots, x));
      assert Conserved(c, s, x);
    }
    if Serves(c) && Enabled(c, s, 0, MasterStep(BeginTermination)) {
      StopsOnlyWhenIdle(c, s, steps);
      forall x: nat
        ensures Exactly(c, s, trace, x)
      {
        AllRootsWeigh(c, |trace|, x);
        OneMore(|trace|, RootsWeight(c, c.maxRoots, x));
        assert Accounted(c, s, x);
      }
    }
  }

  /** Different workers below `n` are at most `n`. */
  lemma DistinctFit(trace: seq<Misled>, n: nat)
    requires Distinct(trace) && forall k | 0 <= k < |trace| :: trace[k].worker < n
    ensures |trace| <= n
  {
    if trace != [] {
      assert trace[0].worker < n;
      if k :| 0 <= k < |trace| && trace[k].worker == n - 1 {
        DistinctFit(trace[..k] + trace[k + 1..], n - 1);
      } else {
        DistinctFit(trace, n - 1);
      }
    }
  }
}
