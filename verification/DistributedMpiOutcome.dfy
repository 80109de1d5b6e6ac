/** What the distributed enumerator promises for given sizes and build, exactly. */
module DistributedMpiOutcome {
  import opened Forest
  import opened DistributedMpi
  import opened DistributedMpiTheorems
  import opened DistributedMpiRuns

  /** A single worker that has not been answered yet: all roots are still there. */
  ghost predicate Alone(c: Config, s: State) {
    && |s.sites| == 1 && !s.unfair
    && (s.sites[0].w.first ==> s.pc.Listen? && Unanswered(s.sites[0], s.next == c.maxRoots))
  }

  ghost predicate Unanswered(site: Site, full: bool) {
    || (site.w.pc.Asking? && site.up == [] && site.down == [] && full)
    || (site.w.pc.Waiting? && |site.up| == 1 && site.up[0].RangeRequest? && site.down == [] && full)
    || (site.w.pc.Waiting? && site.up == [] && |site.down| == 1 && site.down[0].RangeResponse?)
  }

  lemma AloneByWorker(c: Config, s: State, i: nat, a: WorkerAction)
    requires Alone(c, s) && EnabledWorker(c, s, i, a)
    ensures Alone(c, ApplyWorker(c, s, i, a))
  {
  }

  lemma AloneByMaster(c: Config, s: State, i: nat, a: MasterAction)
    requires c.maxRoots > 0 && c.perGrant > 0 && Alone(c, s) && EnabledMaster(c, s, i, a)
    ensures Alone(c, ApplyMaster(c, s, i, a))
  {
  }

  lemma OneWorkerIsFair(c: Config, s: State, steps: seq<(nat, Action)>)
    requires c.n == 1 && c.maxRoots > 0 && c.perGrant > 0 && Reaches(c, s, steps)
    ensures Alone(c, s)
    decreases |steps|
  {
    if steps != [] {
      var n := |steps| - 1;
      var i, a := steps[n].0, steps[n].1;
      var p: State :| Reaches(c, p, steps[..n]) && Enabled(c, p, i, a) && s == Apply(c, p, i, a);
      OneWorkerIsFair(c, p, steps[..n]);
      match a
      case WorkerStep(w) => AloneByWorker(c, p, i, w);
      case MasterStep(m) => AloneByMaster(c, p, i, m);
    }
  }

  /** `Worker::Run` asserts that the first answer is a range. Whatever the forest, this holds
      in every run exactly if there is a single worker and at least one root. */
  lemma FirstAnswersAreRangesIff(c: Config, rootsPerNode: nat)
    requires c.n > 0 && rootsPerNode > 0 && c.perGrant == Clamped(rootsPerNode, c.maxRoots, c.n)
    ensures (forall s, steps | Reaches(c, s, steps) :: !s.unfair) <==> c.n == 1 && c.maxRoots > 0
  {
    ClampedIsPositive(rootsPerNode, c.maxRoots, c.n);
    if c.n == 1 && c.maxRoots > 0 {
      forall s, steps | Reaches(c, s, steps)
        ensures !s.unfair
      {
        OneWorkerIsFair(c, s, steps);
      }
    } else {
      var s, steps := UnfairRun(c);
      assert Reaches(c, s, steps) && s.unfair;
    }
  }

  /** `GetRoot` emits nothing for any root. */
  ghost predicate Barren(c: Config) {
    forall r | 0 <= r < c.maxRoots :: c.rootsOf(r) == []
  }

  lemma BarrenIff(c: Config)
    ensures Barren(c) <==> forall x: nat :: RootsWeight(c, c.maxRoots, x) == 0
  {
    if Barren(c) {
      forall x: nat { BarrenWeighsNothing(c, Interval(0, c.maxRoots), x); }
    } else {
      var r :| 0 <= r < c.maxRoots && c.rootsOf(r) != [];
      var x := c.rootsOf(r)[0].id;
      IntervalSplit(0, r, c.maxRoots);
      RootsConcat(c.rootsOf, Interval(0, r), Interval(r, c.maxRoots), x);
      assert Interval(r, c.maxRoots)[0] == r;
      assert CountAll(c.rootsOf(r), x) >= Count(c.rootsOf(r)[0], x) > 0;
      assert RootsWeight(c, c.maxRoots, x) > 0;
    }
  }

  lemma BarrenWeighsNothing(c: Config, rs: seq<nat>, x: nat)
    requires Barren(c) && forall i | 0 <= i < |rs| :: rs[i] < c.maxRoots
    ensures CountRoots(c.rootsOf, rs, x) == 0
  {
  }

  /** When a caller can rely on the reports: with assertions a misled worker stops the program,
      a single worker is not misled, and an empty forest can be enumerated twice. */
  ghost predicate Reliable(c: Config) {
    c.asserts || c.n == 1 || Barren(c)
  }

  /** No node has been reported more often than it occurs. */
  ghost predicate NoneTooOften(c: Config, s: State) {
    forall x: nat :: s.reported[x] <= RootsWeight(c, c.maxRoots, x)
  }

  /** The state in which a worker is misled, or this one. */
  lemma LastFair(c: Config, s: State, steps: seq<(nat, Action)>) returns (p: State, before: seq<(nat, Action)>)
    requires Reaches(c, s, steps) && c.asserts
    ensures Reaches(c, p, before) && !p.unfair
    ensures p.pc == s.pc && p.reported == s.reported && p.solutions == s.solutions && p.total == s.total
  {
    p, before := s, steps;
    if s.unfair {
      var n := |steps| - 1;
      var i, a := steps[n].0, steps[n].1;
      before := steps[..n];
      p :| Reaches(c, p, before) && Enabled(c, p, i, a) && s == Apply(c, p, i, a);
      ReachableAlways(c, p, before);
    }
  }

  lemma FairIsNeverTooOften(c: Config, s: State, steps: seq<(nat, Action)>)
    requires Reaches(c, s, steps) && !s.unfair
    ensures NoneTooOften(c, s)
  {
    ReachableAlways(c, s, steps);
    forall x: nat
      ensures s.reported[x] <= RootsWeight(c, c.maxRoots, x)
    {
      assert Conserved(c, s, x);
    }
  }

  /** Nothing is reported of an empty forest, and nothing counted. */
  lemma BarrenRun(c: Config, s: State, steps: seq<(nat, Action)>)
    requires Reaches(c, s, steps) && Barren(c)
    ensures NoneTooOften(c, s) && Complete(c, s)
  {
    BarrenIff(c);
    ReachableAlways(c, s, steps);
    AgainInRange(c, s, steps);
    forall x: nat
      ensures s.reported[x] == 0 == multiset(s.solutions)[x]
    {
      BarrenWeighsNothing(c, s.again, x);
      assert Conserved(c, s, x);
    }
    assert s.solutions != [] ==> multiset(s.solutions)[s.solutions[0]] > 0;
  }

  lemma AgainStep(c: Config, s: State, i: nat, a: Action)
    requires Enabled(c, s, i, a)
    ensures var s' := Apply(c, s, i, a); s'.again == s.again || s'.again == s.again + Interval(0, c.maxRoots)
  {
  }

  lemma AgainInRange(c: Config, s: State, steps: seq<(nat, Action)>)
    requires Reaches(c, s, steps)
    ensures forall i | 0 <= i < |s.again| :: s.again[i] < c.maxRoots
    decreases |steps|
  {
    if steps != [] {
      var n := |steps| - 1;
      var i, a := steps[n].0, steps[n].1;
      var p: State :| Reaches(c, p, steps[..n]) && Enabled(c, p, i, a) && s == Apply(c, p, i, a);
      AgainInRange(c, p, steps[..n]);
      AgainStep(c, p, i, a);
    }
  }

  /** What `Master::Run` returns for any positive `roots_per_node`. With at least one root per
      worker a finished reliable run has reported every node and counted every solution; with
      fewer no run finishes, no range is ever sent, and nothing is reported before some
      worker's first answer misleads it, with assertions at no time. */
  lemma CompleteIfEnoughRoots(c: Config, rootsPerNode: nat, s: State, steps: seq<(nat, Action)>)
    requires c.n > 0 && rootsPerNode > 0 && c.perGrant == Clamped(rootsPerNode, c.maxRoots, c.n)
    requires Reaches(c, s, steps)
    ensures (c.maxRoots >= c.n || c.maxRoots == 0) && s.pc.Finished? && Reliable(c) ==> Complete(c, s)
    ensures Reliable(c) ==> NoneTooOften(c, s)
    ensures 0 < c.maxRoots < c.n ==>
              !s.pc.Finished? && s.given == [] && (c.asserts || !s.unfair ==> s.reported == multiset{})
  {
    ClampedIsPositive(rootsPerNode, c.maxRoots, c.n);
    if 0 < c.maxRoots < c.n {
      NothingEnumerated(c, s, steps);
    }
    if Barren(c) {
      BarrenRun(c, s, steps);
    } else if Reliable(c) {
      var p, before := s, steps;
      if c.asserts {
        p, before := LastFair(c, s, steps);
      } else {
        OneWorkerIsFair(c, s, steps);
      }
      FairIsNeverTooOften(c, p, before);
      if p.pc.Finished? && Serves(c) {
        StopsOnlyWhenIdle(c, p, before);
      }
    }
  }

  /** The condition is exact, for either promise: every finished run is complete, and no run
      reports a node more often than it occurs. */
  lemma ReliableIff(c: Config, rootsPerNode: nat)
    requires c.n > 0 && rootsPerNode > 0 && c.perGrant == Clamped(rootsPerNode, c.maxRoots, c.n)
    ensures (forall s, steps | Reaches(c, s, steps) :: NoneTooOften(c, s)) <==> Reliable(c)
    ensures c.maxRoots >= c.n || c.maxRoots == 0 ==>
              ((forall s, steps | Reaches(c, s, steps) && s.pc.Finished? :: Complete(c, s)) <==> Reliable(c))
  {
    ClampedIsPositive(rootsPerNode, c.maxRoots, c.n);
    if Reliable(c) {
      forall s, steps | Reaches(c, s, steps)
        ensures NoneTooOften(c, s)
        ensures (c.maxRoots >= c.n || c.maxRoots == 0) && s.pc.Finished? ==> Complete(c, s)
      {
        CompleteIfEnoughRoots(c, rootsPerNode, s, steps);
      }
    } else {
      var s, steps := TwiceRun(c);
      BarrenIff(c);
      var x: nat :| RootsWeight(c, c.maxRoots, x) != 0;
      assert s.reported[x] == 2 * RootsWeight(c, c.maxRoots, x);
      assert Reaches(c, s, steps) && !NoneTooOften(c, s) && !Complete(c, s);
    }
  }

  /** The master decides to stop only when no work is left anywhere, in every run, exactly if a
      range is ever sent or there is nothing to send. */
  lemma StopsIdleIff(c: Config)
    requires c.n > 0
    ensures (forall s, steps | Reaches(c, s, steps) && Enabled(c, s, 0, MasterStep(BeginTermination)) :: NoWorkAnywhere(s))
              <==> Serves(c)
  {
    if Serves(c) {
      forall s, steps | Reaches(c, s, steps) && Enabled(c, s, 0, MasterStep(BeginTermination))
        ensures NoWorkAnywhere(s)
      {
        StopsOnlyWhenIdle(c, s, steps);
      }
    } else {
      var s, steps := NobodyTakes(c);
      assert Reaches(c, s, steps) && Enabled(c, s, 0, MasterStep(BeginTermination)) && !NoWorkAnywhere(s);
    }
  }

  /** The master takes a request of worker `i`, as such or in place of a stolen load. */
  ghost predicate TakesRequest(s: State, i: nat, a: Action) {
    a.MasterStep? && (a.m.TakeRequest? || (a.m.TakeAnswer? && i < |s.sites| && s.sites[i].up != [] && s.sites[i].up[0].RangeRequest?))
  }

  /** A run, and the workers whose requests the master has taken, in order. */
  ghost predicate Requests(c: Config, s: State, steps: seq<(nat, Action)>, trace: seq<nat>)
    decreases |steps|
  {
    if steps == [] then s == Init(c) && trace == []
    else
      var n := |steps| - 1;
      exists p: State, before: seq<nat> ::
        && Requests(c, p, steps[..n], before) && Enabled(c, p, steps[n].0, steps[n].1)
        && s == Apply(c, p, steps[n].0, steps[n].1)
        && trace == before + if TakesRequest(p, steps[n].0, steps[n].1) then [steps[n].0] else []
  }

  /** The place of the last request of worker `i`, or 0. */
  ghost function LastOf(trace: seq<nat>, i: nat): nat {
    if trace == [] then 0
    else if trace[|trace| - 1] == i then |trace|
    else LastOf(trace[..|trace| - 1], i)
  }

  lemma LastOfNext(trace: seq<nat>, j: nat, i: nat)
    ensures LastOf(trace + [j], i) == if j == i then |trace| + 1 else LastOf(trace, i)
  {
    assert (trace + [j])[..|trace|] == trace;
  }

  lemma HasRequests(c: Config, s: State, steps: seq<(nat, Action)>) returns (trace: seq<nat>)
    requires Reaches(c, s, steps)
    ensures Requests(c, s, steps, trace)
    decreases |steps|
  {
    if steps == [] {
      trace := [];
    } else {
      var n := |steps| - 1;
      var p: State :| Reaches(c, p, steps[..n]) && Enabled(c, p, steps[n].0, steps[n].1) && s == Apply(c, p, steps[n].0, steps[n].1);
      var before := HasRequests(c, p, steps[..n]);
      trace := before + if TakesRequest(p, steps[n].0, steps[n].1) then [steps[n].0] else [];
    }
  }

  ghost predicate Stamped(s: State, trace: seq<nat>) {
    && |s.asked| == |s.sites| && s.clock == |trace| + 1
    && forall i | 0 <= i < |s.asked| :: s.asked[i] == LastOf(trace, i)
  }

  lemma StampStep(c: Config, s: State, i: nat, a: Action)
    requires Enabled(c, s, i, a) && |s.asked| == |s.sites|
    ensures var s' := Apply(c, s, i, a);
            && |s'.sites| == |s.sites|
            && if TakesRequest(s, i, a) then i < |s.asked| && s'.asked == s.asked[i := s.clock] && s'.clock == s.clock + 1
               else s'.asked == s.asked && s'.clock == s.clock
  {
    match a
    case WorkerStep(w) => StampByWorker(c, s, i, w);
    case MasterStep(m) => StampByMaster(c, s, i, m);
  }

  lemma StampByWorker(c: Config, s: State, i: nat, a: WorkerAction)
    requires EnabledWorker(c, s, i, a)
    ensures var s' := ApplyWorker(c, s, i, a); |s'.sites| == |s.sites| && s'.asked == s.asked && s'.clock == s.clock
  {
  }

  lemma StampByMaster(c: Config, s: State, i: nat, a: MasterAction)
    requires EnabledMaster(c, s, i, a) && |s.asked| == |s.sites|
    ensures var s' := ApplyMaster(c, s, i, a);
            && |s'.sites| == |s.sites|
            && if TakesRequest(s, i, MasterStep(a)) then
                 i < |s.asked| && s'.asked == s.asked[i := s.clock] && s'.clock == s.clock + 1
               else s'.asked == s.asked && s'.clock == s.clock
  {
  }

  lemma RequestsAreStamped(c: Config, s: State, steps: seq<(nat, Action)>, trace: seq<nat>)
    requires Requests(c, s, steps, trace)
    ensures Stamped(s, trace)
    decreases |steps|
  {
    if steps != [] {
      var n := |steps| - 1;
      var i, a := steps[n].0, steps[n].1;
      var p: State, before: seq<nat> :|
        && Requests(c, p, steps[..n], before) && Enabled(c, p, i, a) && s == Apply(c, p, i, a)
        && trace == before + if TakesRequest(p, i, a) then [i] else [];
      RequestsAreStamped(c, p, steps[..n], before);
      StampStep(c, p, i, a);
      if TakesRequest(p, i, a) {
        forall j | 0 <= j < |s.asked|
          ensures s.asked[j] == LastOf(trace, j)
        {
          LastOfNext(before, i, j);
        }
      } else {
        assert trace == before;
      }
    }
  }

  /** On every run that follows `GetStealVictim`: of the workers with work, the last victim
      excepted, the one that is asked is the one whose last request is the oldest. */
  lemma VictimAskedLongestAgo(c: Config, s: State, steps: seq<(nat, Action)>, trace: seq<nat>, v: nat, j: nat)
    requires Requests(c, s, steps, trace) && Enabled(c, s, v, MasterStep(AskVictim)) && !c.anyVictim
    requires Candidate(States(s), s.last, j)
    ensures Candidate(States(s), s.last, v)
    ensures LastOf(trace, v) < LastOf(trace, j) || (LastOf(trace, v) == LastOf(trace, j) && v <= j)
  {
    RequestsAreStamped(c, s, steps, trace);
  }

  /** When the program has stopped: with assertions, once a first answer was no range or the
      stealer has been picked as its own victim. */
  ghost predicate AssertionFails(c: Config, s: State) {
    c.asserts && (s.unfair || (s.pc.Await? && s.pc.victim == s.pc.stealer))
  }

  lemma AbortedByWorker(c: Config, s: State, i: nat, a: WorkerAction)
    requires !s.aborted && !AssertionFails(c, s) && EnabledWorker(c, s, i, a)
    ensures var s' := ApplyWorker(c, s, i, a); s'.aborted <==> AssertionFails(c, s')
  {
  }

  lemma AbortedByMaster(c: Config, s: State, i: nat, a: MasterAction)
    requires !s.aborted && !AssertionFails(c, s) && EnabledMaster(c, s, i, a)
    ensures var s' := ApplyMaster(c, s, i, a); s'.aborted <==> AssertionFails(c, s')
  {
  }

  /** On every run a program stops exactly when one of its two assertions fails, and then no
      process takes another step. */
  lemma AbortedIff(c: Config, s: State, steps: seq<(nat, Action)>)
    requires Reaches(c, s, steps)
    ensures s.aborted <==> AssertionFails(c, s)
    ensures AssertionFails(c, s) ==> !CanMove(c, s)
    decreases |steps|
  {
    if steps != [] {
      var n := |steps| - 1;
      var i, a := steps[n].0, steps[n].1;
      var p: State :| Reaches(c, p, steps[..n]) && Enabled(c, p, i, a) && s == Apply(c, p, i, a);
      AbortedIff(c, p, steps[..n]);
      match a
      case WorkerStep(w) => AbortedByWorker(c, p, i, w);
      case MasterStep(m) => AbortedByMaster(c, p, i, m);
    }
  }

  /** The stealer is one of the workers found waiting. */
  ghost predicate StealerWaits(c: Config, s: State) {
    && |s.sites| == c.n
    && (s.pc.Decide? || s.pc.Await? || s.pc.Forward? ==>
          s.pc.stealer < c.n && s.sites[s.pc.stealer].st == STEAL_WAIT)
  }

  lemma StealerStep(c: Config, s: State, i: nat, a: Action)
    requires StealerWaits(c, s) && Enabled(c, s, i, a)
    ensures StealerWaits(c, Apply(c, s, i, a))
  {
    match a
    case WorkerStep(w) => SameStates(c, s, i, w);
    case MasterStep(m) => StealerByMaster(c, s, i, m);
  }

  /** A worker does not change what the master believes. */
  lemma SameStates(c: Config, s: State, i: nat, a: WorkerAction)
    requires EnabledWorker(c, s, i, a)
    ensures var s' := ApplyWorker(c, s, i, a);
            && s'.pc == s.pc && s'.next == s.next && |s'.sites| == |s.sites|
            && forall j | 0 <= j < |s.sites| :: s'.sites[j].st == s.sites[j].st
  {
  }

  lemma StealerByMaster(c: Config, s: State, i: nat, a: MasterAction)
    requires StealerWaits(c, s) && EnabledMaster(c, s, i, a)
    ensures StealerWaits(c, ApplyMaster(c, s, i, a))
  {
  }

  /** Only requests have been sent, and the last victim has been found waiting. */
  ghost predicate Opening(s: State) {
    && (s.pc.Listen? || s.pc.Decide? || s.pc.Await?)
    && (if s.pc.Await? then s.last == s.pc.victim else s.last == 0 || Waiting(s, s.last))
    && forall i | 0 <= i < |s.sites| :: OnlyRequests(s.sites[i])
  }

  ghost predicate Waiting(s: State, i: nat) {
    i < |s.sites| && s.sites[i].st == STEAL_WAIT
  }

  ghost predicate OnlyRequests(site: Site) {
    && !site.w.pc.Working?
    && (forall j | 0 <= j < |site.up| :: site.up[j].RangeRequest?)
    && (forall j | 0 <= j < |site.down| :: site.down[j].StealRequest?)
  }

  /** Everybody waits, and the master steals no more. */
  ghost predicate Closing(s: State) {
    AllWaiting(s) && !s.pc.Await? && !s.pc.Forward?
  }

  lemma OpeningByWorker(c: Config, s: State, i: nat, a: WorkerAction)
    requires Opening(s) && EnabledWorker(c, s, i, a)
    ensures Opening(ApplyWorker(c, s, i, a))
  {
    assert OnlyRequests(s.sites[i]);
  }

  lemma OpeningByMaster(c: Config, s: State, i: nat, a: MasterAction)
    requires Opening(s) && EnabledMaster(c, s, i, a) && (c.perGrant == 0 || s.next == 0)
    ensures Opening(ApplyMaster(c, s, i, a)) || Closing(ApplyMaster(c, s, i, a))
  {
    assert i < |s.sites| ==> OnlyRequests(s.sites[i]);
  }

  lemma ClosingStep(c: Config, s: State, i: nat, a: Action)
    requires Closing(s) && Enabled(c, s, i, a) && (c.perGrant == 0 || s.next == 0)
    ensures Closing(Apply(c, s, i, a))
  {
    match a
    case WorkerStep(w) => SameStates(c, s, i, w);
    case MasterStep(m) => ClosingByMaster(c, s, i, m);
  }

  lemma ClosingByMaster(c: Config, s: State, i: nat, a: MasterAction)
    requires Closing(s) && EnabledMaster(c, s, i, a) && (c.perGrant == 0 || s.next == 0)
    ensures Closing(ApplyMaster(c, s, i, a))
  {
  }

  ghost predicate NoRangeSteals(c: Config, s: State) {
    (c.perGrant == 0 || c.maxRoots == 0) ==> s.next == c.maxRoots && (Opening(s) || Closing(s))
  }

  lemma StealsInv(c: Config, s: State, steps: seq<(nat, Action)>)
    requires Reaches(c, s, steps)
    ensures StealerWaits(c, s) && NoRangeSteals(c, s)
    decreases |steps|
  {
    if steps != [] {
      var n := |steps| - 1;
      var i, a := steps[n].0, steps[n].1;
      var p: State :| Reaches(c, p, steps[..n]) && Enabled(c, p, i, a) && s == Apply(c, p, i, a);
      StealsInv(c, p, steps[..n]);
      StealerStep(c, p, i, a);
      NoRangeStep(c, p, i, a);
    }
  }

  lemma NoRangeStep(c: Config, s: State, i: nat, a: Action)
    requires NoRangeSteals(c, s) && Enabled(c, s, i, a)
    ensures NoRangeSteals(c, Apply(c, s, i, a))
  {
    if c.perGrant == 0 || c.maxRoots == 0 {
      NextStays(c, s, i, a);
      if Closing(s) {
        ClosingStep(c, s, i, a);
      } else {
        match a
        case WorkerStep(w) => OpeningByWorker(c, s, i, w);
        case MasterStep(m) => OpeningByMaster(c, s, i, m);
      }
    }
  }

  lemma NextStays(c: Config, s: State, i: nat, a: Action)
    requires Enabled(c, s, i, a) && (c.perGrant == 0 || s.next == 0)
    ensures Apply(c, s, i, a).next == s.next
  {
    match a
    case WorkerStep(w) => SameStates(c, s, i, w);
    case MasterStep(m) =>
  }

  /** A stealer picked as its own victim: then there are ranges and somebody else has one. */
  lemma SelfPickNeedsRanges(c: Config, s: State, steps: seq<(nat, Action)>)
    requires Reaches(c, s, steps) && SelfPick(s)
    ensures c.n >= 2 && c.perGrant > 0 && c.maxRoots > 0
  {
    StealsInv(c, s, steps);
    assert forall j: nat | j < c.n :: Candidate(States(s), s.last, j) <==> j != s.last && s.sites[j].st != STEAL_WAIT;
  }

  /** The same sizes; the forest and the solutions may differ. */
  ghost predicate SameSizes(c: Config, d: Config) {
    d.n == c.n && d.maxRoots == c.maxRoots && d.perGrant == c.perGrant
  }

  /** `WaitRangeRequest` asserts that the victim is not the stealer. For given sizes this holds
      in every run on every forest exactly if there is one worker, or no root for each. */
  lemma SelfPickIff(c: Config, rootsPerNode: nat)
    requires c.n > 0 && rootsPerNode > 0 && c.perGrant == Clamped(rootsPerNode, c.maxRoots, c.n)
    ensures (forall d: Config, s, steps | SameSizes(c, d) && Reaches(d, s, steps) :: !SelfPick(s)) <==>
              c.n == 1 || c.maxRoots < c.n
  {
    ClampedIsPositive(rootsPerNode, c.maxRoots, c.n);
    if c.n == 1 || c.maxRoots < c.n {
      forall d: Config, s, steps | SameSizes(c, d) && Reaches(d, s, steps)
        ensures !SelfPick(s)
      {
        if SelfPick(s) {
          SelfPickNeedsRanges(d, s, steps);
        }
      }
    } else {
      if c.perGrant >= c.maxRoots {
        Grows(2, c.n, c.perGrant);
        assert false;
      }
      var d := c.(rootsOf := (r: nat) => [Tree(0, [])]);
      var s, steps := SelfPickRun(d);
      assert SameSizes(c, d) && Reaches(d, s, steps) && SelfPick(s);
    }
  }
}
