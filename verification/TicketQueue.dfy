/** The index protocol of `ExplicitProducer::dequeue` and `ImplicitProducer::dequeue`
    (util/concurrentqueue.hpp): any number of consumers race with one producer. */
module TicketQueue {
  import opened Graphs
  import opened Sums

  /** A consumer between two atomic operations. The last field of the middle states
      remembers which tickets had failed when the overcommit was loaded. */
  datatype PC =
    | Idle
    | HaveTail(tail: nat)
    | HaveOver(tail: nat, over: nat, known: set<nat>)
    | Commit(over: nat, known: set<nat>)           // before fetch_add on dequeueOptimisticCount
    | Recheck(my: nat, over: nat, known: set<nat>) // reload the tail and compare
    | Claim(my: nat)                                     // before fetch_add on headIndex
    | Undo(my: nat)                                      // before fetch_add on dequeueOvercommit
    | Read(index: nat)                                   // moving the element out

  datatype State = State(
    tailIndex: nat,
    headIndex: nat,
    optimistic: nat,       // dequeueOptimisticCount
    overcommit: nat,       // dequeueOvercommit
    pcs: seq<PC>,
    failed: set<nat>,      // tickets given back
    claimed: set<nat>,     // tickets that passed the second test
    seen: map<nat, set<nat>>, // for each of those, the failures it knew of
    taken: seq<nat>)       // indices of the elements moved out, in that order

  datatype Action = Enqueue | LoadTail | LoadOver | FirstTest | TakeTicket | SecondTest | TakeIndex | MoveOut | GiveBack

  ghost predicate Enabled(s: State, t: nat, a: Action) {
    match a
    case Enqueue => true
    case LoadTail => t < |s.pcs| && s.pcs[t].Idle?
    case LoadOver => t < |s.pcs| && s.pcs[t].HaveTail?
    case FirstTest => t < |s.pcs| && s.pcs[t].HaveOver?
    case TakeTicket => t < |s.pcs| && s.pcs[t].Commit?
    case SecondTest => t < |s.pcs| && s.pcs[t].Recheck?
    case TakeIndex => t < |s.pcs| && s.pcs[t].Claim?
    case MoveOut => t < |s.pcs| && s.pcs[t].Read?
    case GiveBack => t < |s.pcs| && s.pcs[t].Undo?
  }

  ghost function Goto(s: State, t: nat, pc: PC): State
    requires t < |s.pcs|
  {
    s.(pcs := s.pcs[t := pc])
  }

  ghost function Apply(s: State, t: nat, a: Action): State
    requires Enabled(s, t, a)
  {
    match a
    case Enqueue => s.(tailIndex := s.tailIndex + 1)
    case LoadTail => Goto(s, t, HaveTail(s.tailIndex))
    case LoadOver => Goto(s, t, HaveOver(s.pcs[t].tail, s.overcommit, s.failed))
    case FirstTest =>
      var pc := s.pcs[t];
      if s.optimistic - pc.over < pc.tail then Goto(s, t, Commit(pc.over, pc.known))
      else Goto(s, t, Idle)
    case TakeTicket =>
      Goto(s, t, Recheck(s.optimistic, s.pcs[t].over, s.pcs[t].known)).(optimistic := s.optimistic + 1)
    case SecondTest =>
      var pc := s.pcs[t];
      if pc.my - pc.over < s.tailIndex then
        Goto(s, t, Claim(pc.my)).(claimed := s.claimed + {pc.my}, seen := s.seen[pc.my := pc.known])
      else Goto(s, t, Undo(pc.my))
    case TakeIndex => Goto(s, t, Read(s.headIndex)).(headIndex := s.headIndex + 1)
    case MoveOut => Goto(s, t, Idle).(taken := s.taken + [s.pcs[t].index])
    case GiveBack =>
      Goto(s, t, Idle).(overcommit := s.overcommit + 1, failed := s.failed + {s.pcs[t].my})
  }

  ghost function Init(consumers: nat): State {
    State(0, 0, 0, 0, seq(consumers, _ => Idle), {}, {}, map[], [])
  }

  /** Holds a ticket that has not yet moved `headIndex` or `dequeueOvercommit`. */
  predicate InFlight(pc: PC) {
    pc.Recheck? || pc.Claim? || pc.Undo?
  }

  ghost function Flights(pcs: seq<PC>): seq<nat> {
    seq(|pcs|, i requires 0 <= i < |pcs| => if InFlight(pcs[i]) then 1 else 0)
  }

  ghost function Claims(pcs: seq<PC>): seq<nat> {
    seq(|pcs|, i requires 0 <= i < |pcs| => if pcs[i].Claim? then 1 else 0)
  }

  lemma CountsUpdate(pcs: seq<PC>, t: nat, pc: PC)
    requires t < |pcs|
    ensures Sum(Flights(pcs[t := pc])) + (if InFlight(pcs[t]) then 1 else 0)
         == Sum(Flights(pcs)) + (if InFlight(pc) then 1 else 0)
    ensures Sum(Claims(pcs[t := pc])) + (if pcs[t].Claim? then 1 else 0)
         == Sum(Claims(pcs)) + (if pc.Claim? then 1 else 0)
  {
    assert Flights(pcs[t := pc]) == Flights(pcs)[t := if InFlight(pc) then 1 else 0];
    assert Claims(pcs[t := pc]) == Claims(pcs)[t := if pc.Claim? then 1 else 0];
    SumUpdate(Flights(pcs), t, if InFlight(pc) then 1 else 0);
    SumUpdate(Claims(pcs), t, if pc.Claim? then 1 else 0);
  }

  ghost predicate AllBelow(xs: set<nat>, n: nat) {
    forall x | x in xs :: x < n
  }

  /** The pending ticket of a consumer. */
  predicate Pends(pc: PC, m: nat) {
    (pc.Recheck? && pc.my == m) || (pc.Undo? && pc.my == m)
  }

  ghost predicate Fresh(s: State, m: nat) {
    m < s.optimistic && m !in s.claimed && m !in s.failed
  }

  ghost predicate PcOk(s: State, pc: PC) {
    match pc
    case Idle => true
    case HaveTail(tail) => tail <= s.tailIndex
    case HaveOver(tail, over, known) =>
      tail <= s.tailIndex && |known| == over && known <= s.failed && AllBelow(known, s.optimistic)
    case Commit(over, known) => |known| == over && known <= s.failed && AllBelow(known, s.optimistic)
    case Recheck(my, over, known) => Fresh(s, my) && |known| == over && known <= s.failed && AllBelow(known, my)
    case Claim(my) => my in s.claimed
    case Undo(my) => Fresh(s, my)
    case Read(index) => index < s.headIndex && index !in s.taken
  }

  /** A ticket passed the second test only with room for it and all smaller tickets that
      were not known to have failed. */
  ghost predicate ClaimOk(s: State, m: nat) {
    && m in s.seen && m < s.optimistic && m !in s.failed
    && s.seen[m] <= s.failed && AllBelow(s.seen[m], m) && m - |s.seen[m]| < s.tailIndex
  }

  ghost predicate PcsOk(s: State) {
    && (forall t: nat | t < |s.pcs| :: PcOk(s, s.pcs[t]))
    && (forall t: nat, u: nat, m: nat | t < |s.pcs| && u < |s.pcs| && Pends(s.pcs[t], m) && Pends(s.pcs[u], m) :: t == u)
    && (forall t: nat, u: nat | t < |s.pcs| && u < |s.pcs| && s.pcs[t].Read? && s.pcs[t] == s.pcs[u] :: t == u)
  }

  ghost predicate SetsOk(s: State) {
    && (forall m | m in s.claimed :: ClaimOk(s, m))
    && AllBelow(s.failed, s.optimistic)
    && NoDup(s.taken) && (forall x | x in s.taken :: x < s.headIndex)
  }

  /** `headIndex` + `dequeueOvercommit` + tickets in flight = `dequeueOptimisticCount`. */
  ghost predicate CountsOk(s: State) {
    && |s.failed| == s.overcommit
    && |s.claimed| == s.headIndex + Sum(Claims(s.pcs))
    && s.headIndex + s.overcommit + Sum(Flights(s.pcs)) == s.optimistic
  }

  ghost predicate Inv(s: State) {
    PcsOk(s) && SetsOk(s) && CountsOk(s)
  }

  lemma InitInv(consumers: nat)
    ensures Inv(Init(consumers))
  {
    AllZero(Claims(Init(consumers).pcs));
    AllZero(Flights(Init(consumers).pcs));
  }

  lemma KeepPcs(s: State, t: nat, a: Action)
    requires Inv(s) && Enabled(s, t, a)
    ensures PcsOk(Apply(s, t, a))
  {
    var s' := Apply(s, t, a);
    forall u: nat | u < |s'.pcs|
      ensures PcOk(s', s'.pcs[u])
    {
      KeepPc(s, t, a, u);
    }
    if a.TakeTicket? {
      assert forall u: nat, m: nat | u < |s.pcs| && Pends(s.pcs[u], m) :: m < s.optimistic by {
        forall u: nat, m: nat | u < |s.pcs| && Pends(s.pcs[u], m)
          ensures m < s.optimistic
        {
          assert PcOk(s, s.pcs[u]);
        }
      }
    } else if a.TakeIndex? {
      assert forall u: nat | u < |s.pcs| && s.pcs[u].Read? :: s.pcs[u].index < s.headIndex by {
        forall u: nat | u < |s.pcs| && s.pcs[u].Read?
          ensures s.pcs[u].index < s.headIndex
        {
          assert PcOk(s, s.pcs[u]);
        }
      }
    }
  }

  lemma KeepPc(s: State, t: nat, a: Action, u: nat)
    requires Inv(s) && Enabled(s, t, a) && u < |s.pcs|
    ensures var s' := Apply(s, t, a); u < |s'.pcs| && PcOk(s', s'.pcs[u])
  {
    assert PcOk(s, s.pcs[u]);
    if !a.Enqueue? {
      assert PcOk(s, s.pcs[t]);
      if a.SecondTest? || a.GiveBack? {
        assert Pends(s.pcs[t], s.pcs[t].my);
        assert u != t ==> !Pends(s.pcs[u], s.pcs[t].my);
      }
    }
  }

  lemma KeepSets(s: State, t: nat, a: Action)
    requires PcsOk(s) && SetsOk(s) && Enabled(s, t, a)
    ensures SetsOk(Apply(s, t, a))
  {
    var s' := Apply(s, t, a);
    if !a.Enqueue? {
      assert PcOk(s, s.pcs[t]);
    }
    forall m | m in s'.claimed
      ensures ClaimOk(s', m)
    {
      assert m in s.claimed ==> ClaimOk(s, m);
    }
  }

  lemma KeepCounts(s: State, t: nat, a: Action)
    requires PcsOk(s) && CountsOk(s) && Enabled(s, t, a)
    ensures CountsOk(Apply(s, t, a))
  {
    if !a.Enqueue? {
      assert PcOk(s, s.pcs[t]);
      CountsUpdate(s.pcs, t, Apply(s, t, a).pcs[t]);
    }
  }

  lemma KeepInv(s: State, t: nat, a: Action)
    requires Inv(s) && Enabled(s, t, a)
    ensures Inv(Apply(s, t, a))
  {
    KeepPcs(s, t, a);
    KeepSets(s, t, a);
    KeepCounts(s, t, a);
  }

  ghost predicate Reaches(s: State, consumers: nat, steps: seq<(nat, Action)>)
    decreases |steps|
  {
    if steps == [] then s == Init(consumers)
    else
      var n := |steps| - 1;
      exists p: State :: Reaches(p, consumers, steps[..n]) && Enabled(p, steps[n].0, steps[n].1)
                         && s == Apply(p, steps[n].0, steps[n].1)
  }

  lemma ReachableInv(s: State, consumers: nat, steps: seq<(nat, Action)>)
    requires Reaches(s, consumers, steps)
    ensures Inv(s)
    decreases |steps|
  {
    if steps == [] {
      InitInv(consumers);
    } else {
      var n := |steps| - 1;
      var p: State :| Reaches(p, consumers, steps[..n]) && Enabled(p, steps[n].0, steps[n].1)
                      && s == Apply(p, steps[n].0, steps[n].1);
      ReachableInv(p, consumers, steps[..n]);
      KeepInv(p, steps[n].0, steps[n].1);
    }
  }

  ghost function Upto(n: nat): set<nat> {
    set x: nat | x < n && Small(n, x)
  }

  predicate Small(n: nat, x: nat) {
    x < n
  }

  lemma UptoSize(n: nat)
    ensures |Upto(n)| == n
  {
    if n > 0 {
      UptoSize(n - 1);
      assert forall x | x in Upto(n - 1) :: Small(n, x);
      assert Small(n, n - 1);
      assert Upto(n) == Upto(n - 1) + {n - 1};
    } else {
      assert Upto(0) == {};
    }
  }

  lemma HasMax(xs: set<nat>) returns (m: nat)
    requires xs != {}
    ensures m in xs && forall x | x in xs :: x <= m
  {
    m :| m in xs;
    var rest := xs - {m};
    assert forall x | x in xs :: x == m || x in rest;
    if rest != {} {
      var r := HasMax(rest);
      if r > m {
        m := r;
      }
    }
  }

  /** The claims never outnumber the enqueued elements: among the tickets up to the
      largest claim, those known to have failed are not claims. */
  lemma ClaimsFit(s: State)
    requires SetsOk(s)
    ensures |s.claimed| <= s.tailIndex
  {
    if s.claimed != {} {
      var m := HasMax(s.claimed);
      assert ClaimOk(s, m);
      var room := Upto(m + 1) - s.seen[m];
      forall x | x in s.claimed
        ensures x in room
      {
        assert ClaimOk(s, x) && Small(m + 1, x);
      }
      UptoSize(m + 1);
      assert forall x | x in s.seen[m] :: Small(m + 1, x);
      assert s.seen[m] <= Upto(m + 1);
      assert |room| == |Upto(m + 1)| - |s.seen[m]|;
      SubsetCardinality(s.claimed, room);
    }
  }

  /** Whatever the interleaving: the head never passes the tail, and every index handed
      out belongs to an enqueued element and is handed out once. */
  lemma DequeuesAreDistinct(s: State, consumers: nat, steps: seq<(nat, Action)>)
    requires Reaches(s, consumers, steps)
    ensures s.headIndex <= s.tailIndex
    ensures s.headIndex + s.overcommit + Sum(Flights(s.pcs)) == s.optimistic
    ensures NoDup(s.taken) && forall x | x in s.taken :: x < s.headIndex
    ensures forall t | 0 <= t < |s.pcs| && s.pcs[t].Read? :: s.pcs[t].index < s.headIndex && s.pcs[t].index !in s.taken
    ensures forall t, u | 0 <= t < u < |s.pcs| && s.pcs[t].Read? && s.pcs[u].Read? :: s.pcs[t].index != s.pcs[u].index
  {
    ReachableInv(s, consumers, steps);
    ClaimsFit(s);
    forall t | 0 <= t < |s.pcs| && s.pcs[t].Read?
      ensures s.pcs[t].index < s.headIndex && s.pcs[t].index !in s.taken
    {
      assert PcOk(s, s.pcs[t]);
    }
  }

  /** A consumer that passed the second test will find an element at the head. */
  lemma ClaimFindsElement(s: State, consumers: nat, steps: seq<(nat, Action)>, t: nat)
    requires Reaches(s, consumers, steps) && t < |s.pcs| && s.pcs[t].Claim?
    ensures s.headIndex < s.tailIndex
  {
    ReachableInv(s, consumers, steps);
    ClaimsFit(s);
    var cs := Claims(s.pcs);
    assert cs[t] == 1;
    SumAtLeast(cs, t);
  }

  /** The assertion in `dequeue`: the loaded overcommit does not exceed the ticket. */
  lemma OvercommitBelowTicket(s: State, consumers: nat, steps: seq<(nat, Action)>, t: nat)
    requires Reaches(s, consumers, steps) && t < |s.pcs| && s.pcs[t].Recheck?
    ensures s.pcs[t].over <= s.pcs[t].my
  {
    ReachableInv(s, consumers, steps);
    assert PcOk(s, s.pcs[t]);
    BelowFits(s.pcs[t].known, s.pcs[t].my);
  }

  lemma BelowFits(xs: set<nat>, n: nat)
    requires AllBelow(xs, n)
    ensures |xs| <= n
  {
    UptoSize(n);
    assert forall x | x in xs :: Small(n, x);
    SubsetCardinality(xs, Upto(n));
  }

  /** Once all consumers are idle the counters describe the queue exactly, so the first
      test of the next dequeue passes if and only if an element is there. */
  lemma QuietTestIsExact(s: State, consumers: nat, steps: seq<(nat, Action)>)
    requires Reaches(s, consumers, steps) && forall t | 0 <= t < |s.pcs| :: s.pcs[t].Idle?
    ensures s.optimistic - s.overcommit == s.headIndex
    ensures s.optimistic - s.overcommit < s.tailIndex <==> s.headIndex != s.tailIndex
  {
    ReachableInv(s, consumers, steps);
    ClaimsFit(s);
    AllZero(Flights(s.pcs));
  }

  lemma Then(s: State, consumers: nat, steps: seq<(nat, Action)>, t: nat, a: Action) returns (s': State, steps': seq<(nat, Action)>)
    requires Reaches(s, consumers, steps) && Enabled(s, t, a)
    ensures s' == Apply(s, t, a) && Reaches(s', consumers, steps')
    ensures steps' == steps + [(t, a)]
  {
    s' := Apply(s, t, a);
    steps' := steps + [(t, a)];
    assert steps'[..|steps|] == steps;
  }

  /** One `dequeue`, run without interruption, that finds an element. */
  const DEQUEUE: seq<Action> := [LoadTail, LoadOver, FirstTest, TakeTicket, SecondTest, TakeIndex, MoveOut]

  /** One that does not. */
  const DEQUEUE_NONE: seq<Action> := [LoadTail, LoadOver, FirstTest]

  ghost predicate Quiet(s: State) {
    forall t | 0 <= t < |s.pcs| :: s.pcs[t].Idle?
  }

  /** The steps of one consumer. */
  ghost function Alone(t: nat, actions: seq<Action>): seq<(nat, Action)> {
    seq(|actions|, i requires 0 <= i < |actions| => (t, actions[i]))
  }

  /** With all consumers idle, one of them that runs alone gets a ticket, if the queue has an
      element. */
  lemma TicketAlone(s: State, consumers: nat, steps: seq<(nat, Action)>, t: nat) returns (s': State, steps': seq<(nat, Action)>)
    requires Reaches(s, consumers, steps) && Quiet(s) && t < |s.pcs| && s.headIndex < s.tailIndex
    ensures Reaches(s', consumers, steps') && steps' == steps + Alone(t, DEQUEUE[..4])
    ensures s' == Goto(s, t, Recheck(s.optimistic, s.overcommit, s.failed)).(optimistic := s.optimistic + 1)
  {
    QuietTestIsExact(s, consumers, steps);
    s', steps' := Then(s, consumers, steps, t, LoadTail);
    s', steps' := Then(s', consumers, steps', t, LoadOver);
    s', steps' := Then(s', consumers, steps', t, FirstTest);
    s', steps' := Then(s', consumers, steps', t, TakeTicket);
    assert steps' == steps + Alone(t, DEQUEUE[..4]);
    assert s'.pcs == s.pcs[t := Recheck(s.optimistic, s.overcommit, s.failed)];
  }

  /** It takes the element at the head. */
  lemma DequeueAlone(s: State, consumers: nat, steps: seq<(nat, Action)>, t: nat) returns (s': State)
    requires Reaches(s, consumers, steps) && Quiet(s) && t < |s.pcs| && s.headIndex < s.tailIndex
    ensures Reaches(s', consumers, steps + Alone(t, DEQUEUE))
    ensures s'.taken == s.taken + [s.headIndex] && s'.headIndex == s.headIndex + 1 && s'.tailIndex == s.tailIndex && Quiet(s')
  {
    QuietTestIsExact(s, consumers, steps);
    var p;
    s', p := TicketAlone(s, consumers, steps, t);
    s', p := Then(s', consumers, p, t, SecondTest);
    s', p := Then(s', consumers, p, t, TakeIndex);
    s', p := Then(s', consumers, p, t, MoveOut);
    assert p == steps + Alone(t, DEQUEUE);
  }

  /** And finds none, if the queue is empty. */
  lemma DequeueNoneAlone(s: State, consumers: nat, steps: seq<(nat, Action)>, t: nat)
    requires Reaches(s, consumers, steps) && Quiet(s) && t < |s.pcs| && s.headIndex >= s.tailIndex
    ensures Reaches(s, consumers, steps + Alone(t, DEQUEUE_NONE))
  {
    DequeuesAreDistinct(s, consumers, steps);
    QuietTestIsExact(s, consumers, steps);
    var s1, p1 := Then(s, consumers, steps, t, LoadTail);
    var s2, p2 := Then(s1, consumers, p1, t, LoadOver);
    var s3, p3 := Then(s2, consumers, p2, t, FirstTest);
    assert p3 == steps + Alone(t, DEQUEUE_NONE);
    assert s3.pcs == s.pcs;
  }

  ghost predicate Held(s: State, x: nat) {
    exists t :: 0 <= t < |s.pcs| && s.pcs[t] == Read(x)
  }

  /** Every index below the head has been moved out or is being moved out. */
  ghost predicate NoneLost(s: State) {
    forall x: nat | x < s.headIndex :: x in s.taken || Held(s, x)
  }

  lemma KeepNone(s: State, t: nat, a: Action)
    requires NoneLost(s) && Enabled(s, t, a)
    ensures NoneLost(Apply(s, t, a))
  {
    var s' := Apply(s, t, a);
    forall x: nat | x < s'.headIndex
      ensures x in s'.taken || Held(s', x)
    {
      if x < s.headIndex && x !in s.taken {
        var u :| 0 <= u < |s.pcs| && s.pcs[u] == Read(x);
        if u == t {
          assert a.MoveOut? || a.Enqueue?;
          assert a.MoveOut? ==> s'.taken[|s.taken|] == x;
          assert a.Enqueue? ==> s'.pcs[u] == Read(x);
        } else {
          assert s'.pcs[u] == Read(x);
        }
      } else if x < s.headIndex {
        assert x in s'.taken;
      } else {
        assert s'.pcs[t] == Read(x);
      }
    }
  }

  ghost function Enqueues(steps: seq<(nat, Action)>): nat {
    if steps == [] then 0
    else Enqueues(steps[..|steps| - 1]) + (if steps[|steps| - 1].1.Enqueue? then 1 else 0)
  }

  /** No element is lost: the tail counts the elements enqueued, and each index below the head
      has been moved out or is held by a consumer that moves it out. */
  lemma NoElementLost(s: State, consumers: nat, steps: seq<(nat, Action)>)
    requires Reaches(s, consumers, steps)
    ensures s.tailIndex == Enqueues(steps) && |s.pcs| == consumers && NoneLost(s)
    decreases |steps|
  {
    if steps != [] {
      var n := |steps| - 1;
      var p: State :| Reaches(p, consumers, steps[..n]) && Enabled(p, steps[n].0, steps[n].1)
                      && s == Apply(p, steps[n].0, steps[n].1);
      NoElementLost(p, consumers, steps[..n]);
      KeepNone(p, steps[n].0, steps[n].1);
    }
  }

  /** When a dequeue gives up: the tickets it has to reckon with, that is, those issued before
      and not known to have been given back, are as many as the elements it saw. */
  lemma GivesUpIff(s: State, consumers: nat, steps: seq<(nat, Action)>, t: nat, a: Action)
    requires Reaches(s, consumers, steps) && Enabled(s, t, a)
    ensures a.FirstTest? || a.SecondTest? ==> s.pcs[t].known <= s.failed
    ensures a.FirstTest? ==> (Apply(s, t, a).pcs[t].Idle? <==> |Upto(s.optimistic) - s.pcs[t].known| >= s.pcs[t].tail)
    ensures a.SecondTest? ==>
              (Apply(s, t, a).pcs[t] == Undo(s.pcs[t].my) <==> |Upto(s.pcs[t].my) - s.pcs[t].known| >= s.tailIndex)
  {
    ReachableInv(s, consumers, steps);
    if a.FirstTest? || a.SecondTest? {
      assert PcOk(s, s.pcs[t]);
      WithoutKnown(if a.FirstTest? then s.optimistic else s.pcs[t].my, s.pcs[t].known);
    }
  }

  lemma WithoutKnown(n: nat, known: set<nat>)
    requires AllBelow(known, n)
    ensures |Upto(n) - known| == n - |known|
  {
    UptoSize(n);
    assert forall x | x in known :: Small(n, x);
    assert known <= Upto(n);
  }

  /** `circular_less_than` on indices that wrap at `2 * half` agrees with `<` on the
      unwrapped ones as long as they are less than `half` apart. */
  function CircularLess(half: nat, a: nat, b: nat): bool
    requires half > 0
  {
    (a - b) % (2 * half) > half
  }

  lemma CircularLessIsExact(half: nat, a: nat, b: nat)
    requires half > 0 && a < b + half && b < a + half
    ensures CircularLess(half, a % (2 * half), b % (2 * half)) <==> a < b
  {
    var m := 2 * half;
    ModDifference(a, b, m);
    if a < b {
      ModOnce(a - b + m, m, 1);
    } else {
      ModOnce(a - b, m, 0);
    }
  }

  lemma ModOnce(x: int, m: nat, k: int)
    requires 0 <= x < m
    ensures (x - k * m) % m == x
  {
    var q := (x - k * m) / m;
    var r := (x - k * m) % m;
    assert x - k * m == q * m + r;
    MulUnique(q + k, m, x - r);
  }

  lemma MulUnique(q: int, m: int, d: int)
    requires m > 0 && q * m == d && -m < d < m
    ensures d == 0
  {
    MulGrows(q - 1, m);
    MulGrows(-q - 1, m);
  }

  lemma MulGrows(q: int, m: int)
    requires m > 0
    ensures q >= 0 ==> (q + 1) * m >= m
  {
  }

  lemma ModDifference(a: nat, b: nat, m: nat)
    requires m > 0
    ensures (a % m - b % m) % m == (a - b) % m
  {
    var qa, qb := a / m, b / m;
    var d := a % m - b % m;
    assert a - b == (qa - qb) * m + d;
    var r := (a - b) % m;
    var q := (a - b) / m;
    MulSplit(q, qa - qb, m);
    ModOnce(r, m, -(q - (qa - qb)));
  }

  lemma MulSplit(a: int, b: int, m: int)
    ensures (a - b) * m == a * m - b * m
  {
  }
}
