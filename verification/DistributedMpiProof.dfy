/** The invariant of the master/worker protocol: what each pair of channels may hold. */
module DistributedMpiProof {
  import opened DistributedMpi

  function Bit(b: bool): nat {
    if b then 1 else 0
  }

  predicate IsGrant(m: Message) {
    m.RangeResponse? || m.StealResponse?
  }

  ghost predicate Granted(site: Site) {
    site.down != [] && IsGrant(site.down[0])
  }

  ghost predicate Handled(pc: MasterPC, i: nat) {
    match pc
    case Decide(stealer) => stealer == i
    case Await(stealer, _) => stealer == i
    case Forward(stealer, _) => stealer == i
    case _ => false
  }

  ghost predicate Asked(pc: MasterPC, i: nat) {
    pc.Await? && pc.victim == i
  }

  ghost predicate Over(pc: MasterPC) {
    pc.Broadcast? || pc.Finished?
  }

  ghost predicate Told(pc: MasterPC, i: nat) {
    pc.Finished? || (pc.Broadcast? && i < pc.pos)
  }

  ghost predicate Empty(w: Worker) {
    w.load == Load([], []) && w.todo == [] && w.found == 0
  }

  /** No request of this worker carries a count any more. */
  ghost predicate NothingToCount(site: Site) {
    && (site.w.pc.Asking? ==> site.w.pc.count == 0)
    && forall j | 0 <= j < |site.up| :: site.up[j].RangeRequest? ==> site.up[j].count == 0
  }

  /** Only the oldest request may carry a count. */
  ghost predicate CountsFirst(site: Site) {
    && (forall j | 0 < j < |site.up| :: site.up[j].RangeRequest? && site.up[j - 1].RangeRequest? ==> site.up[j].count == 0)
    && (site.up != [] && site.up[|site.up| - 1].RangeRequest? && site.w.pc.Asking? ==> site.w.pc.count == 0)
  }

  /** What the two channels may hold, by kind of message. */
  ghost predicate Shapes(site: Site, asked: bool) {
    && (forall j | 0 <= j < |site.up| :: site.up[j].RangeRequest? || (j == 0 && site.up[j].StealResponse?))
    && (forall j | 0 <= j < |site.down| :: site.down[j].StealRequest? || (j == 0 && IsGrant(site.down[j])))
    && (site.up != [] && site.up[0].StealResponse? ==> asked && site.down == [])
    && (site.w.pc.Working? ==> forall j | 0 <= j < |site.up| :: site.up[j].StealResponse?)
    && (Granted(site) ==> site.w.pc.Waiting? && site.up == [] && site.st != STEAL_WAIT)
  }

  /** While the run goes on: a worker has work, or exactly one request of its own on its way
      or in the master's hands; a steal request in either form adds one message. */
  ghost predicate Running(site: Site, asked: bool, handled: bool) {
    && Shapes(site, asked)
    && !site.w.pc.Stopped?
    && |site.up| + |site.down| + Bit(site.w.pc.Asking?) + Bit(site.w.pc.Working?) + Bit(handled) == Bit(asked) + 1
    && (!site.w.pc.Working? ==> Empty(site.w))
    && (handled ==> site.st == STEAL_WAIT)
    && (site.st == STEAL_WAIT ==> !site.w.pc.Working? && NothingToCount(site))
    && (site.st != STEAL_WAIT ==> CountsFirst(site))
    && (site.st != STEAL_WAIT && !site.w.pc.Working? && !Granted(site) ==> |site.down| <= Bit(asked))
  }

  /** After the master has decided to stop. */
  ghost predicate Ending(site: Site, told: bool) {
    && site.st == STEAL_WAIT && !site.w.pc.Working? && Empty(site.w) && NothingToCount(site)
    && (forall j | 0 <= j < |site.up| :: site.up[j].RangeRequest?)
    && (forall j | 0 <= j < |site.down| :: site.down[j].StealRequest? || (told && j == |site.down| - 1 && site.down[j].Termination?))
    && (site.w.pc.Stopped? ==> told && site.down == [])
    && (told && !site.w.pc.Stopped? ==> site.down != [] && site.down[|site.down| - 1].Termination?)
    && (!told ==> |site.up| + |site.down| + Bit(site.w.pc.Asking?) <= 1)
  }

  /** A worker whose first answer was the end of the run: it enumerates all roots once more,
      and nobody listens to it. */
  ghost predicate Misled(site: Site) {
    && site.st == STEAL_WAIT && !site.w.pc.Stopped? && !site.w.first && site.down == []
    && forall j | 0 <= j < |site.up| :: site.up[j].RangeRequest?
  }

  ghost predicate SiteOk(s: State, i: nat, site: Site) {
    if Over(s.pc) then Ending(site, Told(s.pc, i)) || (s.unfair && Told(s.pc, i) && Misled(site))
    else Running(site, Asked(s.pc, i), Handled(s.pc, i))
  }

  ghost predicate MasterOk(c: Config, s: State) {
    && |s.sites| == c.n && |s.asked| == c.n
    && (s.next > 0 ==> s.pc.Listen?)
    && (s.pc.Decide? || s.pc.Await? || s.pc.Forward? ==> s.pc.stealer < c.n)
    && (s.pc.Await? ==> s.pc.victim < c.n)
    && (s.pc.Broadcast? ==> s.pc.pos <= c.n)
    && (s.next > 0 ==> forall i | 0 <= i < c.n :: s.sites[i].st == ROOTS)
  }

  ghost predicate Protocol(c: Config, s: State) {
    && MasterOk(c, s)
    && forall i: nat | i < c.n :: SiteOk(s, i, s.sites[i])
  }

  lemma InitProtocol(c: Config)
    ensures Protocol(c, Init(c))
  {
  }

  /** A step changes one site and keeps what the others rely on. */
  lemma OthersKeptByWorker(c: Config, s: State, i: nat, a: WorkerAction, j: nat)
    requires Protocol(c, s) && EnabledWorker(c, s, i, a) && j < c.n && j != i
    ensures var s' := ApplyWorker(c, s, i, a); |s'.sites| == c.n && SiteOk(s', j, s'.sites[j])
  {
    assert SiteOk(s, j, s.sites[j]);
  }

  lemma OthersKeptByMaster(c: Config, s: State, i: nat, a: MasterAction, j: nat)
    requires Protocol(c, s) && EnabledMaster(c, s, i, a) && (c.perGrant > 0 || s.next == 0) && j < c.n
    requires a != BeginTermination ==> j != i
    ensures var s' := ApplyMaster(c, s, i, a); |s'.sites| == c.n && SiteOk(s', j, s'.sites[j])
  {
    assert SiteOk(s, j, s.sites[j]);
  }

  lemma WorkKeeps(c: Config, s: State, i: nat, a: WorkerAction)
    requires Protocol(c, s) && EnabledWorker(c, s, i, a) && (a.OpenRoot? || a.Expand? || a.Keep?)
    ensures var s' := ApplyWorker(c, s, i, a); SiteOk(s', i, s'.sites[i])
  {
    assert SiteOk(s, i, s.sites[i]);
  }

  lemma GiveKeeps(c: Config, s: State, i: nat, a: WorkerAction)
    requires Protocol(c, s) && EnabledWorker(c, s, i, a) && (a.GiveNode? || a.GiveRoots?)
    ensures var s' := ApplyWorker(c, s, i, a); SiteOk(s', i, s'.sites[i])
  {
    assert SiteOk(s, i, s.sites[i]);
  }

  lemma FinishKeeps(c: Config, s: State, i: nat)
    requires Protocol(c, s) && EnabledWorker(c, s, i, Finish)
    ensures var s' := ApplyWorker(c, s, i, Finish); SiteOk(s', i, s'.sites[i])
  {
    assert SiteOk(s, i, s.sites[i]);
  }

  lemma SendKeeps(c: Config, s: State, i: nat)
    requires Protocol(c, s) && EnabledWorker(c, s, i, Send)
    ensures var s' := ApplyWorker(c, s, i, Send); SiteOk(s', i, s'.sites[i])
  {
    if Over(s.pc) {
      SendEnds(c, s, i);
    } else {
      SendRuns(c, s, i);
    }
  }

  lemma SendRuns(c: Config, s: State, i: nat)
    requires Protocol(c, s) && EnabledWorker(c, s, i, Send) && !Over(s.pc)
    ensures Running(ApplyWorker(c, s, i, Send).sites[i], Asked(s.pc, i), Handled(s.pc, i))
  {
    assert SiteOk(s, i, s.sites[i]);
  }

  lemma SendEnds(c: Config, s: State, i: nat)
    requires Protocol(c, s) && EnabledWorker(c, s, i, Send) && Over(s.pc)
    ensures var s' := ApplyWorker(c, s, i, Send); SiteOk(s', i, s'.sites[i])
  {
    assert SiteOk(s, i, s.sites[i]);
  }

  lemma ReceiveKeeps(c: Config, s: State, i: nat)
    requires Protocol(c, s) && EnabledWorker(c, s, i, Receive)
    ensures var s' := ApplyWorker(c, s, i, Receive); SiteOk(s', i, s'.sites[i])
  {
    if Over(s.pc) {
      ReceiveEnds(c, s, i);
    } else {
      ReceiveRuns(c, s, i);
    }
  }

  lemma ReceiveRuns(c: Config, s: State, i: nat)
    requires Protocol(c, s) && EnabledWorker(c, s, i, Receive) && !Over(s.pc)
    ensures Running(ApplyWorker(c, s, i, Receive).sites[i], Asked(s.pc, i), Handled(s.pc, i))
  {
    assert SiteOk(s, i, s.sites[i]);
  }

  lemma ReceiveEnds(c: Config, s: State, i: nat)
    requires Protocol(c, s) && EnabledWorker(c, s, i, Receive) && Over(s.pc)
    ensures var s' := ApplyWorker(c, s, i, Receive); SiteOk(s', i, s'.sites[i])
  {
    assert SiteOk(s, i, s.sites[i]);
  }

  lemma WorkerKeeps(c: Config, s: State, i: nat, a: WorkerAction)
    requires Protocol(c, s) && EnabledWorker(c, s, i, a)
    ensures var s' := ApplyWorker(c, s, i, a); SiteOk(s', i, s'.sites[i])
  {
    if a.Receive? {
      ReceiveKeeps(c, s, i);
    } else if a.OpenRoot? || a.Expand? || a.Keep? {
      WorkKeeps(c, s, i, a);
    } else if a.GiveNode? || a.GiveRoots? {
      GiveKeeps(c, s, i, a);
    } else if a.Finish? {
      FinishKeeps(c, s, i);
    } else {
      SendKeeps(c, s, i);
    }
  }

  lemma RequestKeeps(c: Config, s: State, i: nat)
    requires Protocol(c, s) && EnabledMaster(c, s, i, TakeRequest) && i < c.n && (c.perGrant > 0 || s.next == 0)
    ensures var s' := ApplyMaster(c, s, i, TakeRequest); SiteOk(s', i, s'.sites[i])
  {
    assert SiteOk(s, i, s.sites[i]);
  }

  lemma AskKeeps(c: Config, s: State, i: nat)
    requires Protocol(c, s) && EnabledMaster(c, s, i, AskVictim) && i < c.n
    ensures var s' := ApplyMaster(c, s, i, AskVictim); SiteOk(s', i, s'.sites[i])
  {
    assert SiteOk(s, i, s.sites[i]);
  }

  lemma AnswerKeeps(c: Config, s: State, i: nat)
    requires Protocol(c, s) && EnabledMaster(c, s, i, TakeAnswer) && i < c.n
    ensures var s' := ApplyMaster(c, s, i, TakeAnswer); SiteOk(s', i, s'.sites[i])
  {
    assert SiteOk(s, i, s.sites[i]);
  }

  lemma TellKeeps(c: Config, s: State, i: nat, a: MasterAction)
    requires Protocol(c, s) && EnabledMaster(c, s, i, a) && i < c.n && (a.PassOn? || a.Tell? || a.Return?)
    ensures var s' := ApplyMaster(c, s, i, a); SiteOk(s', i, s'.sites[i])
  {
    assert SiteOk(s, i, s.sites[i]);
  }

  lemma MasterKeeps(c: Config, s: State, i: nat, a: MasterAction)
    requires Protocol(c, s) && EnabledMaster(c, s, i, a) && i < c.n && a != BeginTermination
    requires c.perGrant > 0 || s.next == 0
    ensures var s' := ApplyMaster(c, s, i, a); SiteOk(s', i, s'.sites[i])
  {
    if a.TakeRequest? {
      RequestKeeps(c, s, i);
    } else if a.AskVictim? {
      AskKeeps(c, s, i);
    } else if a.TakeAnswer? {
      AnswerKeeps(c, s, i);
    } else {
      TellKeeps(c, s, i, a);
    }
  }

  lemma MasterOkByWorker(c: Config, s: State, i: nat, a: WorkerAction)
    requires MasterOk(c, s) && EnabledWorker(c, s, i, a)
    ensures MasterOk(c, ApplyWorker(c, s, i, a))
  {
  }

  lemma MasterOkByMaster(c: Config, s: State, i: nat, a: MasterAction)
    requires MasterOk(c, s) && EnabledMaster(c, s, i, a) && (c.perGrant > 0 || s.next == 0)
    ensures MasterOk(c, ApplyMaster(c, s, i, a))
  {
  }

  lemma ProtocolStep(c: Config, s: State, i: nat, a: Action)
    requires Protocol(c, s) && Enabled(c, s, i, a) && (c.perGrant > 0 || s.next == 0)
    ensures Protocol(c, Apply(c, s, i, a))
  {
    var s' := Apply(c, s, i, a);
    if a.WorkerStep? {
      MasterOkByWorker(c, s, i, a.w);
    } else {
      MasterOkByMaster(c, s, i, a.m);
    }
    forall j: nat | j < c.n
      ensures SiteOk(s', j, s'.sites[j])
    {
      match a
      case WorkerStep(w) =>
        if j == i {
          WorkerKeeps(c, s, i, w);
        } else {
          OthersKeptByWorker(c, s, i, w, j);
        }
      case MasterStep(m) =>
        if j == i && m != BeginTermination {
          MasterKeeps(c, s, i, m);
        } else {
          OthersKeptByMaster(c, s, i, m, j);
        }
    }
  }
}
