/** What the master/worker protocol guarantees on every run. */
module DistributedMpiTheorems {
  import opened Forest
  import opened Sums
  import opened DistributedMpi
  import opened DistributedMpiProof

  /** Reports of `x` still to come from a load. */
  ghost function LoadWeight(c: Config, load: Load, x: nat): nat {
    CountRoots(c.rootsOf, load.roots, x) + BelowAll(load.nodes, x)
  }

  ghost function MessageLoad(m: Message): Load {
    match m
    case RangeResponse(b, e) => Load(if b <= e then Interval(b, e) else [], [])
    case StealResponse(load) => load
    case _ => Load([], [])
  }

  ghost function MessagesWeight(c: Config, ms: seq<Message>, x: nat): nat {
    if ms == [] then 0 else LoadWeight(c, MessageLoad(ms[0]), x) + MessagesWeight(c, ms[1..], x)
  }

  ghost function SiteWeight(c: Config, site: Site, x: nat): nat {
    LoadWeight(c, site.w.load, x) + CountAll(site.w.todo, x)
    + MessagesWeight(c, site.up, x) + MessagesWeight(c, site.down, x)
  }

  ghost function SiteWeights(c: Config, sites: seq<Site>, x: nat): seq<nat> {
    seq(|sites|, i requires 0 <= i < |sites| => SiteWeight(c, sites[i], x))
  }

  ghost function HandWeight(c: Config, pc: MasterPC, x: nat): nat {
    if pc.Forward? then LoadWeight(c, pc.load, x) else 0
  }

  ghost function RootsWeight(c: Config, n: nat, x: nat): nat {
    CountRoots(c.rootsOf, Interval(0, n), x)
  }

  /** In the master's hands, not handed out yet, dropped by misled workers. */
  ghost function Elsewhere(c: Config, s: State, x: nat): nat {
    HandWeight(c, s.pc, x) + RootsWeight(c, s.next, x) + LoadWeight(c, s.dropped, x)
  }

  /** Reported, held, in transit or elsewhere: together the forest, and what has been loaded again. */
  ghost predicate Conserved(c: Config, s: State, x: nat) {
    s.reported[x] + Sum(SiteWeights(c, s.sites, x)) + Elsewhere(c, s, x)
    == RootsWeight(c, c.maxRoots, x) + CountRoots(c.rootsOf, s.again, x)
  }

  /** A worker that is not at work has none left. */
  ghost predicate IdleIsEmpty(s: State) {
    forall i | 0 <= i < |s.sites| && !s.sites[i].w.pc.Working? :: Empty(s.sites[i].w)
  }

  /** As long as every first answer was a range nothing is loaded twice; otherwise a program
      with assertions has stopped. */
  ghost predicate FairOk(c: Config, s: State) {
    && (!s.unfair ==> s.again == [] && s.dropped == Load([], []))
    && (c.asserts && s.unfair ==> s.aborted)
  }

  ghost function RequestCounts(ms: seq<Message>): nat {
    if ms == [] then 0 else (if ms[0].RangeRequest? then ms[0].count else 0) + RequestCounts(ms[1..])
  }

  ghost function SiteCount(site: Site): nat {
    site.w.found + (if site.w.pc.Asking? then site.w.pc.count else 0) + RequestCounts(site.up)
  }

  ghost function SiteCounts(sites: seq<Site>): seq<nat> {
    seq(|sites|, i requires 0 <= i < |sites| => SiteCount(sites[i]))
  }

  /** Counted by the master or still with the workers: together the solutions found. */
  ghost predicate Counted(s: State) {
    s.total + Sum(SiteCounts(s.sites)) == |s.solutions|
  }

  ghost predicate SolutionsOk(c: Config, s: State) {
    forall x: nat :: multiset(s.solutions)[x] == if c.isItem(x) then s.reported[x] else 0
  }

  ghost predicate GivenOk(c: Config, s: State) {
    s.next <= c.maxRoots && s.given == Interval(s.next, c.maxRoots)
  }

  lemma MessagesAppend(c: Config, ms: seq<Message>, m: Message, x: nat)
    ensures MessagesWeight(c, ms + [m], x) == MessagesWeight(c, ms, x) + LoadWeight(c, MessageLoad(m), x)
  {
    if ms == [] {
      assert ms + [m] == [m];
    } else {
      assert (ms + [m])[1..] == ms[1..] + [m];
      MessagesAppend(c, ms[1..], m, x);
    }
  }

  lemma RequestsAppend(ms: seq<Message>, m: Message)
    ensures RequestCounts(ms + [m]) == RequestCounts(ms) + if m.RangeRequest? then m.count else 0
  {
    if ms == [] {
      assert ms + [m] == [m];
    } else {
      assert (ms + [m])[1..] == ms[1..] + [m];
      RequestsAppend(ms[1..], m);
    }
  }

  /** One node as a list. */
  lemma OneNode(t: Tree, x: nat)
    ensures CountAll([t], x) == Count(t, x) == (if t.id == x then 1 else 0) + BelowAll([t], x)
    ensures BelowAll([t], x) == CountAll(t.kids, x)
  {
    assert [t][1..] == [];
  }

  lemma PopTodo(ts: seq<Tree>, x: nat)
    requires ts != []
    ensures CountAll(ts, x) == (if ts[0].id == x then 1 else 0) + BelowAll([ts[0]], x) + CountAll(ts[1..], x)
  {
    OneNode(ts[0], x);
  }

  lemma RootsSplit(c: Config, rs: seq<nat>, k: nat, x: nat)
    requires k <= |rs|
    ensures CountRoots(c.rootsOf, rs, x) == CountRoots(c.rootsOf, rs[..k], x) + CountRoots(c.rootsOf, rs[k..], x)
  {
    assert rs == rs[..k] + rs[k..];
    RootsConcat(c.rootsOf, rs[..k], rs[k..], x);
  }

  lemma NodesRemove(ns: seq<Tree>, at: nat, x: nat)
    requires at < |ns|
    ensures BelowAll(ns, x) == BelowAll(ns[..at] + ns[at + 1..], x) + CountAll(ns[at].kids, x)
  {
    assert ns == ns[..at] + ([ns[at]] + ns[at + 1..]);
    BelowConcat(ns[..at], [ns[at]] + ns[at + 1..], x);
    BelowConcat(ns[..at], ns[at + 1..], x);
  }

  lemma IntervalSplit(a: nat, b: nat, e: nat)
    requires a <= b <= e
    ensures Interval(a, e) == Interval(a, b) + Interval(b, e)
  {
  }

  /** The step moves work between the site, the reports and elsewhere, and loses none. */
  ghost predicate Balanced(c: Config, s: State, s': State, i: nat, x: nat) {
    && i < |s.sites| && |s'.sites| == |s.sites| && s'.sites == s.sites[i := s'.sites[i]]
    && s'.reported[x] + SiteWeight(c, s'.sites[i], x) + Elsewhere(c, s', x) + CountRoots(c.rootsOf, s.again, x)
    == s.reported[x] + SiteWeight(c, s.sites[i], x) + Elsewhere(c, s, x) + CountRoots(c.rootsOf, s'.again, x)
  }

  lemma WorkerBalance(c: Config, s: State, i: nat, a: WorkerAction, x: nat)
    requires EnabledWorker(c, s, i, a)
    requires a.OpenRoot? || a.Expand? || a.Keep?
    ensures Balanced(c, s, ApplyWorker(c, s, i, a), i, x)
  {
    var site := s.sites[i];
    var w := site.w;
    match a
    case OpenRoot =>
      CountConcat(w.todo, c.rootsOf(w.load.roots[0]), x);
    case Expand(at) =>
      NodesRemove(w.load.nodes, at, x);
      CountConcat(w.todo, w.load.nodes[at].kids, x);
    case Keep =>
      PopTodo(w.todo, x);
      BelowConcat(w.load.nodes, [w.todo[0]], x);
  }

  lemma GiveBalance(c: Config, s: State, i: nat, a: WorkerAction, x: nat)
    requires EnabledWorker(c, s, i, a)
    requires a.GiveNode? || a.GiveRoots?
    ensures Balanced(c, s, ApplyWorker(c, s, i, a), i, x)
  {
    var site := s.sites[i];
    var w := site.w;
    match a
    case GiveNode =>
      PopTodo(w.todo, x);
      MessagesAppend(c, site.up, StealResponse(Load([], [w.todo[0]])), x);
    case GiveRoots(k) =>
      RootsSplit(c, w.load.roots, k, x);
      MessagesAppend(c, site.up, StealResponse(Load(w.load.roots[..k], [])), x);
  }

  lemma TalkBalance(c: Config, s: State, i: nat, a: WorkerAction, x: nat)
    requires EnabledWorker(c, s, i, a) && (a.Finish? || a.Send?)
    ensures Balanced(c, s, ApplyWorker(c, s, i, a), i, x)
  {
    var site := s.sites[i];
    if a.Send? {
      MessagesAppend(c, site.up, RangeRequest(site.w.pc.count), x);
    }
  }

  lemma ReceiveBalance(c: Config, s: State, i: nat, x: nat)
    requires EnabledWorker(c, s, i, Receive) && Empty(s.sites[i].w)
    ensures Balanced(c, s, ApplyWorker(c, s, i, Receive), i, x)
  {
    if Misleads(s.sites[i].w, s.sites[i].down[0]) {
      MisleadBalance(c, s, i, x);
    }
  }

  lemma MisleadBalance(c: Config, s: State, i: nat, x: nat)
    requires EnabledWorker(c, s, i, Receive) && Empty(s.sites[i].w) && Misleads(s.sites[i].w, s.sites[i].down[0])
    ensures Balanced(c, s, ApplyWorker(c, s, i, Receive), i, x)
  {
    RootsConcat(c.rootsOf, s.again, Interval(0, c.maxRoots), x);
    DropWeight(c, s.dropped, s.sites[i].down[0], x);
  }

  lemma DropWeight(c: Config, load: Load, m: Message, x: nat)
    requires m.StealResponse? || m.Termination?
    ensures LoadWeight(c, Joined(load, m), x) == LoadWeight(c, load, x) + LoadWeight(c, MessageLoad(m), x)
  {
    if m.StealResponse? {
      RootsConcat(c.rootsOf, load.roots, m.load.roots, x);
      BelowConcat(load.nodes, m.load.nodes, x);
    }
  }

  lemma RequestBalance(c: Config, s: State, i: nat, x: nat)
    requires EnabledMaster(c, s, i, TakeRequest)
    ensures Balanced(c, s, ApplyMaster(c, s, i, TakeRequest), i, x)
  {
    var site := s.sites[i];
    if s.next > 0 && c.perGrant > 0 {
      var b := if s.next >= c.perGrant then s.next - c.perGrant else 0;
      MessagesAppend(c, site.down, RangeResponse(b, s.next), x);
      IntervalSplit(0, b, s.next);
      RootsConcat(c.rootsOf, Interval(0, b), Interval(b, s.next), x);
    }
  }

  lemma MasterBalance(c: Config, s: State, i: nat, a: MasterAction, x: nat)
    requires EnabledMaster(c, s, i, a) && i < |s.sites| && !a.TakeRequest?
    ensures Balanced(c, s, ApplyMaster(c, s, i, a), i, x)
  {
    var site := s.sites[i];
    match a
    case AskVictim => MessagesAppend(c, site.down, StealRequest, x);
    case PassOn => MessagesAppend(c, site.down, StealResponse(s.pc.load), x);
    case Tell => MessagesAppend(c, site.down, Termination, x);
    case _ =>
  }

  lemma ConservedStep(c: Config, s: State, i: nat, a: Action, x: nat)
    requires IdleIsEmpty(s) && Enabled(c, s, i, a) && Conserved(c, s, x)
    ensures Conserved(c, Apply(c, s, i, a), x)
  {
    if i < |s.sites| {
      var s' := Apply(c, s, i, a);
      assert Balanced(c, s, s', i, x) by {
        if a.WorkerStep? {
          if a.w.OpenRoot? || a.w.Expand? || a.w.Keep? {
            WorkerBalance(c, s, i, a.w, x);
          } else if a.w.GiveNode? || a.w.GiveRoots? {
            GiveBalance(c, s, i, a.w, x);
          } else if a.w.Receive? {
            ReceiveBalance(c, s, i, x);
          } else {
            TalkBalance(c, s, i, a.w, x);
          }
        } else if a.m.TakeRequest? {
          RequestBalance(c, s, i, x);
        } else {
          MasterBalance(c, s, i, a.m, x);
        }
      }
      assert SiteWeights(c, s'.sites, x) == SiteWeights(c, s.sites, x)[i := SiteWeight(c, s'.sites[i], x)];
      SumUpdate(SiteWeights(c, s.sites, x), i, SiteWeight(c, s'.sites[i], x));
    }
  }

  /** What the step adds to the master's total it takes from the site, up to new solutions. */
  ghost predicate CountsBalance(s: State, s': State, i: nat) {
    && i < |s.sites| && |s'.sites| == |s.sites| && s'.sites == s.sites[i := s'.sites[i]]
    && s'.total + SiteCount(s'.sites[i]) + |s.solutions| == s.total + SiteCount(s.sites[i]) + |s'.solutions|
  }

  lemma WorkerCounts(c: Config, s: State, i: nat, a: WorkerAction)
    requires EnabledWorker(c, s, i, a)
    ensures CountsBalance(s, ApplyWorker(c, s, i, a), i)
  {
    var site, site' := s.sites[i], ApplyWorker(c, s, i, a).sites[i];
    if a.GiveNode? || a.GiveRoots? || a.Send? {
      RequestsAppend(site.up, site'.up[|site.up|]);
      assert site'.up == site.up + [site'.up[|site.up|]];
    }
  }

  lemma MasterCounts(c: Config, s: State, i: nat, a: MasterAction)
    requires EnabledMaster(c, s, i, a) && i < |s.sites|
    ensures CountsBalance(s, ApplyMaster(c, s, i, a), i)
  {
  }

  lemma CountedStep(c: Config, s: State, i: nat, a: Action)
    requires Enabled(c, s, i, a) && Counted(s)
    ensures Counted(Apply(c, s, i, a))
  {
    if i < |s.sites| {
      var s' := Apply(c, s, i, a);
      if a.WorkerStep? {
        WorkerCounts(c, s, i, a.w);
      } else {
        MasterCounts(c, s, i, a.m);
      }
      assert SiteCounts(s'.sites) == SiteCounts(s.sites)[i := SiteCount(s'.sites[i])];
      SumUpdate(SiteCounts(s.sites), i, SiteCount(s'.sites[i]));
    }
  }

  lemma ReportKeepsSolutions(c: Config, s: State, node: Tree)
    requires SolutionsOk(c, s)
    ensures SolutionsOk(c, Report(c, s, node))
  {
  }

  lemma SolutionsStep(c: Config, s: State, i: nat, a: Action)
    requires SolutionsOk(c, s) && Enabled(c, s, i, a)
    ensures SolutionsOk(c, Apply(c, s, i, a))
  {
    var s' := Apply(c, s, i, a);
    if a.WorkerStep? && (a.w.Keep? || a.w.GiveNode?) {
      ReportKeepsSolutions(c, s, s.sites[i].w.todo[0]);
      assert s'.solutions == Report(c, s, s.sites[i].w.todo[0]).solutions;
    } else {
      assert s'.solutions == s.solutions && s'.reported == s.reported;
    }
  }

  lemma GivenStep(c: Config, s: State, i: nat, a: Action)
    requires GivenOk(c, s) && Enabled(c, s, i, a)
    ensures GivenOk(c, Apply(c, s, i, a))
  {
    if a == MasterStep(TakeRequest) && s.next > 0 && c.perGrant > 0 {
      IntervalSplit(Apply(c, s, i, a).next, s.next, c.maxRoots);
    }
  }

  /** The clamped number of roots per range is positive, unless there are no roots at all. */
  ghost predicate Serves(c: Config) {
    c.perGrant > 0 || c.maxRoots == 0
  }

  /** What holds in every run, whatever the forest and the clamped number. */
  ghost predicate Always(c: Config, s: State) {
    && IdleIsEmpty(s) && FairOk(c, s) && GivenOk(c, s) && SolutionsOk(c, s) && Counted(s)
    && forall x: nat :: Conserved(c, s, x)
  }

  lemma InitAlways(c: Config)
    ensures Always(c, Init(c))
  {
    AllZero(SiteCounts(Init(c).sites));
    forall x: nat
      ensures Conserved(c, Init(c), x)
    {
      AllZero(SiteWeights(c, Init(c).sites, x));
    }
  }

  lemma StepIdle(c: Config, s: State, i: nat, a: Action)
    requires IdleIsEmpty(s) && FairOk(c, s) && Enabled(c, s, i, a)
    ensures IdleIsEmpty(Apply(c, s, i, a)) && FairOk(c, Apply(c, s, i, a))
  {
    match a
    case WorkerStep(w) => IdleByWorker(c, s, i, w);
    case MasterStep(m) => IdleByMaster(c, s, i, m);
  }

  lemma IdleByWorker(c: Config, s: State, i: nat, w: WorkerAction)
    requires IdleIsEmpty(s) && EnabledWorker(c, s, i, w)
    ensures IdleIsEmpty(ApplyWorker(c, s, i, w))
  {
    assert s.sites[i].w.pc.Working? || Empty(s.sites[i].w);
  }

  lemma IdleByMaster(c: Config, s: State, i: nat, m: MasterAction)
    requires IdleIsEmpty(s) && EnabledMaster(c, s, i, m)
    ensures IdleIsEmpty(ApplyMaster(c, s, i, m))
  {
    assert i < |s.sites| ==> s.sites[i].w.pc.Working? || Empty(s.sites[i].w);
  }

  lemma ReachableAlways(c: Config, s: State, steps: seq<(nat, Action)>)
    requires Reaches(c, s, steps)
    ensures Always(c, s)
    decreases |steps|
  {
    if steps == [] {
      InitAlways(c);
    } else {
      var n := |steps| - 1;
      var i, a := steps[n].0, steps[n].1;
      var p: State :| Reaches(c, p, steps[..n]) && Enabled(c, p, i, a) && s == Apply(c, p, i, a);
      ReachableAlways(c, p, steps[..n]);
      StepIdle(c, p, i, a);
      GivenStep(c, p, i, a);
      SolutionsStep(c, p, i, a);
      CountedStep(c, p, i, a);
      forall x: nat { ConservedStep(c, p, i, a, x); }
    }
  }

  lemma ReachableProtocol(c: Config, s: State, steps: seq<(nat, Action)>)
    requires Serves(c) && Reaches(c, s, steps)
    ensures Protocol(c, s)
    decreases |steps|
  {
    if steps == [] {
      InitProtocol(c);
    } else {
      var n := |steps| - 1;
      var i, a := steps[n].0, steps[n].1;
      var p: State :| Reaches(c, p, steps[..n]) && Enabled(c, p, i, a) && s == Apply(c, p, i, a);
      ReachableProtocol(c, p, steps[..n]);
      ReachableAlways(c, p, steps[..n]);
      ProtocolStep(c, p, i, a);
    }
  }

  /** No work, no work in either channel, nothing to count. */
  ghost predicate Resting(site: Site) {
    && Empty(site.w) && (site.w.pc.Asking? ==> site.w.pc.count == 0)
    && (forall j | 0 <= j < |site.up| :: site.up[j] == RangeRequest(0))
    && (forall j | 0 <= j < |site.down| :: !IsGrant(site.down[j]))
  }

  /** No root unassigned, no work with any worker or in any channel. */
  ghost predicate NoWorkAnywhere(s: State) {
    s.next == 0 && forall i | 0 <= i < |s.sites| :: Resting(s.sites[i])
  }

  lemma SitesRest(c: Config, s: State)
    requires Protocol(c, s) && ((s.pc.Decide? && AllWaiting(s)) || (Over(s.pc) && !s.unfair))
    ensures NoWorkAnywhere(s)
  {
    forall i: nat | i < |s.sites|
      ensures Resting(s.sites[i])
    {
      assert SiteOk(s, i, s.sites[i]);
    }
  }

  /** The reports, once no work is left. */
  ghost predicate Accounted(c: Config, s: State, x: nat) {
    s.reported[x] + LoadWeight(c, s.dropped, x) == RootsWeight(c, c.maxRoots, x) + CountRoots(c.rootsOf, s.again, x)
  }

  /** Every node reported as often as it occurs, every solution counted. */
  ghost predicate Complete(c: Config, s: State) {
    && s.total == |s.solutions|
    && (forall x: nat :: s.reported[x] == RootsWeight(c, c.maxRoots, x))
    && forall x: nat :: multiset(s.solutions)[x] == if c.isItem(x) then RootsWeight(c, c.maxRoots, x) else 0
  }

  lemma NothingLeft(c: Config, s: State, x: nat)
    requires Conserved(c, s, x) && NoWorkAnywhere(s) && !s.pc.Forward?
    ensures Accounted(c, s, x)
  {
    forall i | 0 <= i < |s.sites|
      ensures SiteWeight(c, s.sites[i], x) == 0
    {
      assert Resting(s.sites[i]);
      NoLoads(c, s.sites[i].up, x);
      NoLoads(c, s.sites[i].down, x);
    }
    AllZero(SiteWeights(c, s.sites, x));
  }

  lemma NothingToAdd(s: State)
    requires Counted(s) && NoWorkAnywhere(s)
    ensures s.total == |s.solutions|
  {
    forall i | 0 <= i < |s.sites|
      ensures SiteCount(s.sites[i]) == 0
    {
      assert Resting(s.sites[i]);
      NoCounts(s.sites[i].up);
    }
    AllZero(SiteCounts(s.sites));
  }

  lemma AllAccounted(c: Config, s: State)
    requires Always(c, s) && NoWorkAnywhere(s) && !s.pc.Forward?
    ensures s.total == |s.solutions| && (forall x: nat :: Accounted(c, s, x)) && (!s.unfair ==> Complete(c, s))
  {
    NothingToAdd(s);
    forall x: nat
      ensures Accounted(c, s, x) && (!s.unfair ==> s.reported[x] == RootsWeight(c, c.maxRoots, x))
    {
      NothingLeft(c, s, x);
    }
  }

  lemma NoLoads(c: Config, ms: seq<Message>, x: nat)
    requires forall j | 0 <= j < |ms| :: !IsGrant(ms[j])
    ensures MessagesWeight(c, ms, x) == 0
  {
  }

  lemma NoCounts(ms: seq<Message>)
    requires forall j | 0 <= j < |ms| :: ms[j] == RangeRequest(0)
    ensures RequestCounts(ms) == 0
  {
  }

  /** The master decides to stop only when no work is left anywhere, and then its total is the
      number of solutions found. By then every node of the forest has been reported, except
      that misled workers have dropped some work and done all roots again. */
  lemma StopsOnlyWhenIdle(c: Config, s: State, steps: seq<(nat, Action)>)
    requires Serves(c) && Reaches(c, s, steps)
    requires Enabled(c, s, 0, MasterStep(BeginTermination)) || (Over(s.pc) && !s.unfair)
    ensures NoWorkAnywhere(s) && s.total == |s.solutions|
    ensures forall x: nat :: Accounted(c, s, x)
    ensures !s.unfair ==> Complete(c, s)
  {
    ReachableAlways(c, s, steps);
    ReachableProtocol(c, s, steps);
    SitesRest(c, s);
    AllAccounted(c, s);
  }

  /** At every moment of every run the ranges handed out and the rest split [0, maxRoots): no
      root is given twice or skipped. */
  lemma RangesPartition(c: Config, s: State, steps: seq<(nat, Action)>)
    requires Reaches(c, s, steps)
    ensures s.next <= c.maxRoots && Interval(0, s.next) + s.given == Interval(0, c.maxRoots)
  {
    ReachableAlways(c, s, steps);
    IntervalSplit(0, s.next, c.maxRoots);
  }

  /** No process ever finds a message it has no case for, and a worker at work only ever
      receives steal requests. */
  lemma NothingUnexpected(c: Config, s: State, steps: seq<(nat, Action)>, i: nat)
    requires Serves(c) && Reaches(c, s, steps) && i < c.n
    ensures |s.sites| == c.n
    ensures s.pc.Listen? && s.sites[i].up != [] ==> s.sites[i].up[0].RangeRequest?
    ensures s.pc.Await? && s.pc.victim == i && s.sites[i].up != [] ==>
              s.sites[i].up[0].RangeRequest? || s.sites[i].up[0].StealResponse?
    ensures s.sites[i].w.pc.Waiting? && s.sites[i].down != [] ==> !s.sites[i].down[0].RangeRequest?
    ensures s.sites[i].w.pc.Working? && s.sites[i].down != [] ==> s.sites[i].down == [StealRequest]
  {
    ReachableProtocol(c, s, steps);
    assert SiteOk(s, i, s.sites[i]);
  }

  ghost predicate CanMove(c: Config, s: State) {
    exists i: nat, a: Action :: Enabled(c, s, i, a)
  }

  lemma WorkerMoves(c: Config, s: State, i: nat)
    requires i < |s.sites| && !s.aborted
    requires var site := s.sites[i];
             site.w.pc.Working? || site.w.pc.Asking? || (site.w.pc.Waiting? && site.down != [] && !site.down[0].RangeRequest?)
    ensures CanMove(c, s)
  {
    var w := s.sites[i].w;
    var a := if w.pc.Asking? then Send else if w.pc.Waiting? then Receive
             else if w.load.roots != [] then OpenRoot else if w.load.nodes != [] then Expand(0)
             else if w.todo != [] then Keep else Finish;
    assert Enabled(c, s, i, WorkerStep(a));
  }

  /** `GetStealVictim` always has an answer. */
  lemma SomePick(states: seq<WorkerState>, requests: seq<nat>, last: nat) returns (v: nat)
    requires |states| == |requests| > 0
    ensures v < |states| && Picked(states, requests, last, v)
  {
    v := 0;
    var i := 0;
    var found := false;
    while i < |states|
      invariant i <= |states| && v < |states|
      invariant found ==> v < i && Candidate(states, last, v)
      invariant forall j: nat | found && j < i && Candidate(states, last, j) ::
                  requests[v] < requests[j] || (requests[v] == requests[j] && v <= j)
      invariant !found ==> v == 0 && forall j: nat | j < i :: !Candidate(states, last, j)
    {
      if Candidate(states, last, i) && (!found || requests[i] < requests[v]) {
        v, found := i, true;
      }
      i := i + 1;
    }
  }

  lemma MasterAsks(c: Config, s: State)
    requires s.pc.Decide? && !s.aborted && |s.sites| > 0 && |s.asked| == |s.sites|
    ensures CanMove(c, s)
  {
    var v := SomePick(States(s), s.asked, s.last);
    assert Enabled(c, s, v, MasterStep(if AllWaiting(s) then BeginTermination else AskVictim));
  }

  /** Waits for an answer that nobody will send once the master has finished. */
  ghost predicate Hangs(site: Site) {
    site.w.pc.Waiting? && site.down == []
  }

  /** No deadlock before the master has finished; then every worker stops, or hangs if its
      first answer was the end of the run. */
  lemma NeverStuck(c: Config, s: State, steps: seq<(nat, Action)>)
    requires Serves(c) && c.n > 0 && Reaches(c, s, steps) && !s.aborted
    ensures CanMove(c, s) || (s.pc.Finished? && forall i | 0 <= i < |s.sites| :: s.sites[i].w.pc.Stopped? || Hangs(s.sites[i]))
    ensures s.pc.Finished? && !s.unfair ==> forall i | 0 <= i < |s.sites| :: !Hangs(s.sites[i])
  {
    ReachableProtocol(c, s, steps);
    match s.pc
    case Listen =>
      assert SiteOk(s, 0, s.sites[0]);
      if s.sites[0].up != [] {
        assert Enabled(c, s, 0, MasterStep(TakeRequest));
      } else {
        WorkerMoves(c, s, 0);
      }
    case Decide(_) => MasterAsks(c, s);
    case Await(_, v) =>
      assert SiteOk(s, v, s.sites[v]);
      if s.sites[v].up != [] {
        assert Enabled(c, s, v, MasterStep(TakeAnswer));
      } else {
        WorkerMoves(c, s, v);
      }
    case Forward(stealer, _) => assert Enabled(c, s, stealer, MasterStep(PassOn));
    case Broadcast(pos) => assert Enabled(c, s, pos, MasterStep(if pos < c.n then Tell else Return));
    case Finished => AllEnd(c, s);
  }

  lemma AllEnd(c: Config, s: State)
    requires Protocol(c, s) && s.pc.Finished? && !s.aborted
    ensures CanMove(c, s) || forall i | 0 <= i < |s.sites| :: s.sites[i].w.pc.Stopped? || Hangs(s.sites[i])
    ensures !s.unfair ==> forall i | 0 <= i < |s.sites| :: !Hangs(s.sites[i])
  {
    forall i: nat | i < |s.sites|
      ensures !s.unfair ==> !Hangs(s.sites[i])
      ensures !s.sites[i].w.pc.Stopped? && !Hangs(s.sites[i]) ==> CanMove(c, s)
    {
      assert SiteOk(s, i, s.sites[i]);
      if !s.sites[i].w.pc.Stopped? && !Hangs(s.sites[i]) {
        WorkerMoves(c, s, i);
      }
    }
  }

  /** `Master::Run` lowers `roots_per_node` to at most the number of roots per worker. */
  function Clamped(rootsPerNode: nat, maxRoots: nat, n: nat): (r: nat)
    requires n > 0
    ensures r <= rootsPerNode && r * n <= maxRoots
    ensures r < rootsPerNode ==> maxRoots < (r + 1) * n
  {
    var most := maxRoots / n;
    assert most * n <= maxRoots < (most + 1) * n;
    if rootsPerNode > most then most
    else
      Grows(rootsPerNode, most, n);
      rootsPerNode
  }

  lemma Grows(a: nat, b: nat, n: nat)
    requires a <= b
    ensures a * n <= b * n
  {
  }

  ghost predicate NothingStarted(c: Config, s: State) {
    && s.reported == multiset{}
    && (s.pc.Listen? || s.pc.Decide? || s.pc.Await? || s.pc.Broadcast?)
    && forall i | 0 <= i < |s.sites| :: NotStarted(s.sites[i])
  }

  ghost predicate NotStarted(site: Site) {
    && site.w.first && !site.w.pc.Working?
    && (forall j | 0 <= j < |site.up| :: site.up[j].RangeRequest?)
    && (forall j | 0 <= j < |site.down| :: site.down[j].StealRequest? || site.down[j].Termination?)
  }

  /** No range leaves the master, and until a worker is misled nobody works. */
  ghost predicate NoRanges(c: Config, s: State) {
    && s.next == c.maxRoots && s.given == [] && !s.pc.Finished?
    && (!s.unfair ==> NothingStarted(c, s))
    && (c.asserts ==> s.reported == multiset{} && (s.unfair ==> s.aborted))
  }

  lemma NothingStartedStep(c: Config, s: State, i: nat, a: Action)
    requires c.perGrant == 0 && c.maxRoots > 0 && s.next == c.maxRoots && NothingStarted(c, s) && Enabled(c, s, i, a)
    ensures var s' := Apply(c, s, i, a); s'.reported == multiset{} && (!s'.unfair ==> NothingStarted(c, s'))
  {
    match a
    case WorkerStep(w) => NotStartedByWorker(c, s, i, w);
    case MasterStep(m) => NotStartedByMaster(c, s, i, m);
  }

  lemma NotStartedByWorker(c: Config, s: State, i: nat, w: WorkerAction)
    requires NothingStarted(c, s) && EnabledWorker(c, s, i, w)
    ensures var s' := ApplyWorker(c, s, i, w); s'.reported == multiset{} && (!s'.unfair ==> NothingStarted(c, s'))
  {
    assert NotStarted(s.sites[i]);
  }

  lemma NotStartedByMaster(c: Config, s: State, i: nat, m: MasterAction)
    requires c.perGrant == 0 && c.maxRoots > 0 && s.next == c.maxRoots && NothingStarted(c, s) && EnabledMaster(c, s, i, m)
    ensures var s' := ApplyMaster(c, s, i, m); s'.reported == multiset{} && (!s'.unfair ==> NothingStarted(c, s'))
  {
    assert i < |s.sites| ==> NotStarted(s.sites[i]);
  }

  lemma NoRangesStep(c: Config, s: State, i: nat, a: Action)
    requires c.perGrant == 0 && c.maxRoots > 0 && NoRanges(c, s) && Enabled(c, s, i, a)
    ensures NoRanges(c, Apply(c, s, i, a))
  {
    if !s.unfair {
      NothingStartedStep(c, s, i, a);
    }
    NoRangeSent(c, s, i, a);
  }

  lemma NoRangeSent(c: Config, s: State, i: nat, a: Action)
    requires c.perGrant == 0 && c.maxRoots > 0 && Enabled(c, s, i, a)
    requires s.next == c.maxRoots && s.given == [] && !s.pc.Finished?
    ensures var s' := Apply(c, s, i, a);
            && s'.next == c.maxRoots && s'.given == [] && !s'.pc.Finished?
            && (c.asserts && s'.unfair && !s.unfair ==> s'.aborted)
  {
  }

  /** With a clamped value of zero no range is ever sent and the master never finishes. */
  lemma NothingEnumerated(c: Config, s: State, steps: seq<(nat, Action)>)
    requires c.perGrant == 0 && c.maxRoots > 0 && Reaches(c, s, steps)
    ensures NoRanges(c, s)
    decreases |steps|
  {
    if steps != [] {
      var n := |steps| - 1;
      var i, a := steps[n].0, steps[n].1;
      var p: State :| Reaches(c, p, steps[..n]) && Enabled(c, p, i, a) && s == Apply(c, p, i, a);
      NothingEnumerated(c, p, steps[..n]);
      NoRangesStep(c, p, i, a);
    }
  }

  lemma ClampedIsPositive(rootsPerNode: nat, maxRoots: nat, n: nat)
    requires n > 0 && rootsPerNode > 0
    ensures Clamped(rootsPerNode, maxRoots, n) > 0 <==> maxRoots >= n
  {
    var r := Clamped(rootsPerNode, maxRoots, n);
    if r > 0 {
      Grows(1, r, n);
    }
  }
}
