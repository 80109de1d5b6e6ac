/** The master/worker protocol of the distributed enumerator (enumerator/distributed_mpi.hpp)
    as a state machine over FIFO channels, one channel each way per worker. */
module DistributedMpi {
  import opened Forest

  /** `perGrant` is `_rootsPerNode` after it has been clamped. `asserts` says whether the
      program is built with assertions. With `anyVictim` a steal may go to any worker,
      otherwise only to those that `GetStealVictim` picks. */
  datatype Config = Config(n: nat, maxRoots: nat, perGrant: nat, rootsOf: nat -> seq<Tree>, isItem: nat -> bool,
                           asserts: bool, anyVictim: bool)

  /** Roots to open and nodes to expand; the nodes have been reported already. */
  datatype Load = Load(roots: seq<nat>, nodes: seq<Tree>)

  /** A length header and the data that follows it are one message. */
  datatype Message =
    | RangeRequest(count: nat)
    | RangeResponse(begin: nat, end: nat)
    | StealRequest
    | StealResponse(load: Load)
    | Termination

  datatype WorkerState = ROOTS | STEAL_WAIT | STEAL_PROCESSING

  datatype PC = Working | Asking(count: nat) | Waiting | Stopped

  /** `todo` holds nodes handed to the callback by a running listing, `found` the number of
      solutions found since the last request; `first` holds until the first answer. */
  datatype Worker = Worker(pc: PC, load: Load, todo: seq<Tree>, found: nat, first: bool)

  /** A worker, its two channels and what the master believes of it. */
  datatype Site = Site(w: Worker, up: seq<Message>, down: seq<Message>, st: WorkerState)

  datatype MasterPC =
    | Listen                            // waiting for a request from any source
    | Decide(stealer: nat)              // head of the stealing loop
    | Await(stealer: nat, victim: nat)  // waiting for the victim's answer
    | Forward(stealer: nat, load: Load)
    | Broadcast(pos: nat)
    | Finished

  datatype State = State(
    sites: seq<Site>,
    pc: MasterPC,
    next: nat,              // nextRangeStart
    total: nat,             // _solutionsCount
    given: seq<nat>,        // roots handed out in ranges, latest range first
    reported: multiset<nat>,
    solutions: seq<nat>,
    last: nat,              // _lastStealVictim
    asked: seq<nat>,        // _lastRequest
    clock: nat,
    unfair: bool,           // some worker's first answer was not a range
    again: seq<nat>,        // roots loaded a second time by workers so answered
    dropped: Load,          // the work they were sent
    aborted: bool)          // an assertion has failed

  datatype Action = WorkerStep(w: WorkerAction) | MasterStep(m: MasterAction)

  datatype WorkerAction = OpenRoot | Expand(at: nat) | Keep | GiveNode | GiveRoots(k: nat) | Finish | Send | Receive

  datatype MasterAction = TakeRequest | AskVictim | TakeAnswer | PassOn | BeginTermination | Tell | Return

  ghost function Interval(b: nat, e: nat): seq<nat>
    requires b <= e
  {
    seq(e - b, i requires 0 <= i < e - b => b + i)
  }

  ghost predicate AllWaiting(s: State) {
    forall i | 0 <= i < |s.sites| :: s.sites[i].st == STEAL_WAIT
  }

  function States(s: State): (r: seq<WorkerState>)
    ensures |r| == |s.sites| && forall i | 0 <= i < |r| :: r[i] == s.sites[i].st
  {
    seq(|s.sites|, i requires 0 <= i < |s.sites| => s.sites[i].st)
  }

  /** What `GetStealVictim` looks for: a worker with work, other than the last victim. */
  predicate Candidate(states: seq<WorkerState>, last: nat, i: nat) {
    i < |states| && i != last && states[i] != STEAL_WAIT
  }

  /** `v` is the candidate that asked least recently, the first of them on a tie, or 0. */
  ghost predicate Picked(states: seq<WorkerState>, requests: seq<nat>, last: nat, v: nat)
    requires |states| == |requests|
  {
    if Candidate(states, last, v) then
      forall i: nat | Candidate(states, last, i) :: requests[v] < requests[i] || (requests[v] == requests[i] && v <= i)
    else v == 0 && forall i: nat :: !Candidate(states, last, i)
  }

  ghost predicate EnabledWorker(c: Config, s: State, i: nat, a: WorkerAction) {
    i < |s.sites| &&
    var site := s.sites[i];
    var w := site.w;
    match a
    case OpenRoot => w.pc.Working? && w.load.roots != []
    case Expand(at) => w.pc.Working? && at < |w.load.nodes|
    case Keep => w.pc.Working? && w.todo != []
    case GiveNode => w.pc.Working? && w.todo != [] && site.down != [] && site.down[0].StealRequest?
    case GiveRoots(k) => w.pc.Working? && 0 < k <= |w.load.roots| && site.down != [] && site.down[0].StealRequest?
    case Finish => w.pc.Working? && w.load == Load([], []) && w.todo == []
    case Send => w.pc.Asking?
    case Receive => w.pc.Waiting? && site.down != [] && !site.down[0].RangeRequest?
  }

  /** `i` is the worker at the other end. */
  ghost predicate EnabledMaster(c: Config, s: State, i: nat, a: MasterAction) {
    match a
    case TakeRequest => s.pc.Listen? && i < |s.sites| && s.sites[i].up != [] && s.sites[i].up[0].RangeRequest?
    case AskVictim =>
      s.pc.Decide? && i < |s.sites| && !AllWaiting(s) && |s.asked| == |s.sites|
      && (c.anyVictim || Picked(States(s), s.asked, s.last, i))
    case TakeAnswer =>
      s.pc.Await? && i == s.pc.victim && i < |s.sites| && s.sites[i].up != []
      && (s.sites[i].up[0].RangeRequest? || s.sites[i].up[0].StealResponse?)
    case PassOn => s.pc.Forward? && i == s.pc.stealer && i < |s.sites|
    case BeginTermination => s.pc.Decide? && AllWaiting(s)
    case Tell => s.pc.Broadcast? && i == s.pc.pos && i < |s.sites|
    case Return => s.pc.Broadcast? && s.pc.pos == |s.sites|
  }

  ghost predicate Enabled(c: Config, s: State, i: nat, a: Action) {
    !s.aborted &&
    match a
    case WorkerStep(w) => EnabledWorker(c, s, i, w)
    case MasterStep(m) => EnabledMaster(c, s, i, m)
  }

  ghost function Put(s: State, i: nat, site: Site): State
    requires i < |s.sites|
  {
    s.(sites := s.sites[i := site])
  }

  /** `ReportSolution` on a node. */
  ghost function Report(c: Config, s: State, node: Tree): State {
    s.(reported := s.reported + multiset{node.id},
       solutions := if c.isItem(node.id) then s.solutions + [node.id] else s.solutions)
  }

  ghost function Found(c: Config, node: Tree): nat {
    if c.isItem(node.id) then 1 else 0
  }

  ghost function ApplyWorker(c: Config, s: State, i: nat, a: WorkerAction): State
    requires EnabledWorker(c, s, i, a)
  {
    var site := s.sites[i];
    var w := site.w;
    match a
    case OpenRoot =>
      Put(s, i, site.(w := w.(load := w.load.(roots := w.load.roots[1..]),
                              todo := w.todo + c.rootsOf(w.load.roots[0]))))
    case Expand(at) =>
      var ns := w.load.nodes;
      Put(s, i, site.(w := w.(load := w.load.(nodes := ns[..at] + ns[at + 1..]), todo := w.todo + ns[at].kids)))
    case Keep =>
      var node := w.todo[0];
      Put(Report(c, s, node), i,
          site.(w := w.(load := w.load.(nodes := w.load.nodes + [node]), todo := w.todo[1..],
                        found := w.found + Found(c, node))))
    case GiveNode =>
      var node := w.todo[0];
      Put(Report(c, s, node), i,
          site.(w := w.(todo := w.todo[1..], found := w.found + Found(c, node)),
                up := site.up + [StealResponse(Load([], [node]))], down := site.down[1..]))
    case GiveRoots(k) =>
      Put(s, i, site.(w := w.(load := w.load.(roots := w.load.roots[k..])),
                      up := site.up + [StealResponse(Load(w.load.roots[..k], []))], down := site.down[1..]))
    case Finish => Put(s, i, site.(w := w.(pc := Asking(w.found), found := 0)))
    case Send => Put(s, i, site.(w := w.(pc := Waiting), up := site.up + [RangeRequest(w.pc.count)]))
    case Receive =>
      var s1 := Put(s, i, site.(w := Received(c, w, site.down[0]), down := site.down[1..]));
      if Misleads(w, site.down[0]) then
        s1.(unfair := true, aborted := c.asserts,
            again := s.again + Interval(0, c.maxRoots), dropped := Joined(s.dropped, site.down[0]))
      else s1
  }

  /** A first answer that is not a range. */
  predicate Misleads(w: Worker, m: Message) {
    w.first && (m.StealResponse? || m.Termination?)
  }

  ghost function Joined(load: Load, m: Message): Load {
    if m.StealResponse? then Load(load.roots + m.load.roots, load.nodes + m.load.nodes) else load
  }

  /** `Worker::Run` starts the runner with the range of the first answer, whatever its kind;
      if it had none, the range is (0, 0), and the runner then takes all roots. */
  ghost function Received(c: Config, w: Worker, m: Message): Worker {
    match m
    case RangeResponse(b, e) => w.(pc := Working, load := Load(if b <= e then Interval(b, e) else [], []), first := false)
    case StealRequest => w.(pc := Asking(0))
    case StealResponse(load) =>
      if w.first then w.(pc := Working, load := Load(Interval(0, c.maxRoots), []), first := false)
      else w.(pc := Working, load := load)
    case Termination =>
      if w.first then w.(pc := Working, load := Load(Interval(0, c.maxRoots), []), first := false)
      else w.(pc := Stopped)
    case RangeRequest(_) => w
  }

  ghost function Now(s: State, i: nat): seq<nat> {
    if i < |s.asked| then s.asked[i := s.clock] else s.asked
  }

  ghost function ApplyMaster(c: Config, s: State, i: nat, a: MasterAction): State
    requires EnabledMaster(c, s, i, a)
  {
    match a
    case TakeRequest =>
      var site := s.sites[i];
      var taken := site.(up := site.up[1..]);
      var s1 := s.(total := s.total + site.up[0].count, asked := Now(s, i), clock := s.clock + 1);
      if s.next > 0 && c.perGrant > 0 then
        var b := if s.next >= c.perGrant then s.next - c.perGrant else 0;
        Put(s1, i, taken.(down := site.down + [RangeResponse(b, s.next)]))
          .(next := b, given := Interval(b, s.next) + s.given)
      else Put(s1, i, taken.(st := STEAL_WAIT)).(pc := Decide(i))
    case AskVictim =>
      var site := s.sites[i];
      Put(s, i, site.(down := site.down + [StealRequest]))
        .(pc := Await(s.pc.stealer, i), last := i, aborted := c.asserts && i == s.pc.stealer)
    case TakeAnswer =>
      var site := s.sites[i];
      var taken := site.(up := site.up[1..]);
      (match site.up[0]
       case StealResponse(load) => Put(s, i, taken).(pc := Forward(s.pc.stealer, load))
       case RangeRequest(count) =>
         Put(s, i, taken.(st := STEAL_WAIT))
           .(total := s.total + count, pc := Decide(s.pc.stealer), asked := Now(s, i), clock := s.clock + 1))
    case PassOn =>
      var site := s.sites[i];
      Put(s, i, site.(down := site.down + [StealResponse(s.pc.load)], st := STEAL_PROCESSING)).(pc := Listen)
    case BeginTermination => s.(pc := Broadcast(0))
    case Tell =>
      var site := s.sites[i];
      Put(s, i, site.(down := site.down + [Termination])).(pc := Broadcast(i + 1))
    case Return =>
      // The loop that hands out ranges ignores the answer; only the last loop returns.
      s.(pc := if s.next > 0 then Listen else Finished)
  }

  ghost function Apply(c: Config, s: State, i: nat, a: Action): State
    requires Enabled(c, s, i, a)
  {
    match a
    case WorkerStep(w) => ApplyWorker(c, s, i, w)
    case MasterStep(m) => ApplyMaster(c, s, i, m)
  }

  ghost function Init(c: Config): State {
    State(seq(c.n, _ => Site(Worker(Asking(0), Load([], []), [], 0, true), [], [], ROOTS)),
          Listen, c.maxRoots, 0, [], multiset{}, [], 0, seq(c.n, _ => 0), 1, false, [], Load([], []), false)
  }

  ghost predicate Reaches(c: Config, s: State, steps: seq<(nat, Action)>)
    decreases |steps|
  {
    if steps == [] then s == Init(c)
    else
      var n := |steps| - 1;
      exists p: State :: Reaches(c, p, steps[..n]) && Enabled(c, p, steps[n].0, steps[n].1)
                         && s == Apply(c, p, steps[n].0, steps[n].1)
  }
}
