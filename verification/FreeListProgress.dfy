/** The free list is obstruction free: a thread that runs alone finishes its call, whatever the
    other threads have left half done. */
module FreeListProgress {
  import opened Sums
  import opened FreeList

  /** The only step of a thread inside a call. */
  function Turn(pc: PC): Action
    requires !pc.Idle?
  {
    match pc
    case Add(_) => DoAdd
    case LoadHead(_, _) => DoLoadHead
    case SetNext(_, _, _) => DoSetNext
    case SetRefs(_, _, _) => DoSetRefs
    case Swing(_, _, _) => DoSwing
    case Retract(_, _, _) => DoRetract
    case Start => DoStart
    case Peek(_) => DoPeek
    case Grab(_, _) => DoGrab
    case ReadNext(_) => DoReadNext
    case Take(_, _) => DoTake
    case Release(_) => DoRelease
    case LetGo(_, _) => DoLetGo
  }

  /** Steps until the thread's failing CAS is behind it: the head it loaded is out of date. */
  function Outdated(head: Ref, pc: PC): nat {
    match pc
    case Add(_) => 6
    case Retract(_, h, _) => if h == head then 1 else 5
    case SetNext(_, h, _) => if h == head then 0 else 4
    case SetRefs(_, h, _) => if h == head then 0 else 3
    case Swing(_, h, _) => if h == head then 0 else 2
    case _ => 0
  }

  /** Nodes that their last reader has to link. */
  ghost function FlaggedNodes(status: seq<Status>): nat {
    Sum(seq(|status|, i requires 0 <= i < |status| => if status[i] == Flagged then 1 else 0))
  }

  /** How far the thread is from the end of its call, once nothing more gets in its way. */
  function Distance(head: Ref, refs: seq<int>, pc: PC): nat {
    match pc
    case Release(_) => 0
    case Take(n, _) => if head == At(n) then 1 else 7
    case ReadNext(n) => if head == At(n) then 2 else 8
    case Grab(n, seen) => if head == At(n) && n < |refs| && refs[n] == seen then 3 else 9
    case Peek(h) => if h == head then 4 else 10
    case Start => 5
    case LetGo(_, h) => if h == head then 6 else 11
    case Swing(_, _, _) => 12
    case SetRefs(_, _, _) => 13
    case SetNext(_, _, _) => 14
    case LoadHead(_, _) => 15
    case _ => 0
  }

  ghost predicate Nearer(s: State, s': State, t: nat)
    requires t < |s.pcs| == |s'.pcs|
  {
    var d, d' := Outdated(s.head, s.pcs[t]), Outdated(s'.head, s'.pcs[t]);
    var f, f' := FlaggedNodes(s.status), FlaggedNodes(s'.status);
    d' < d || (d' == d && (f' < f || (f' == f && Distance(s'.head, s'.refs, s'.pcs[t]) < Distance(s.head, s.refs, s.pcs[t]))))
  }

  lemma FlaggedUpdate(status: seq<Status>, n: nat, st: Status)
    requires n < |status|
    ensures FlaggedNodes(status[n := st]) + (if status[n] == Flagged then 1 else 0)
         == FlaggedNodes(status) + (if st == Flagged then 1 else 0)
  {
    var bits := seq(|status|, i requires 0 <= i < |status| => if status[i] == Flagged then 1 else 0);
    var bit := if st == Flagged then 1 else 0;
    var status' := status[n := st];
    assert seq(|status'|, i requires 0 <= i < |status'| => if status'[i] == Flagged then 1 else 0) == bits[n := bit];
    SumUpdate(bits, n, bit);
  }

  /** One turn of thread `t`, which has some way to go. */
  ghost predicate TurnsTo(s: State, t: nat, s': State) {
    && Inv(s) && t < |s.pcs| && !s.pcs[t].Idle?
    && Enabled(s, t, Turn(s.pcs[t])) && s' == Apply(s, t, Turn(s.pcs[t]))
  }

  lemma HasTurn(s: State, t: nat)
    requires Inv(s) && t < |s.pcs| && !s.pcs[t].Idle?
    ensures Enabled(s, t, Turn(s.pcs[t])) && TurnsTo(s, t, Apply(s, t, Turn(s.pcs[t])))
  {
    assert PcOk(s, t, s.pcs[t]);
  }

  /** Neither of the two steps that end a failed link brings the thread back to where it was. */
  lemma FailedLink(s: State, t: nat, s': State)
    requires TurnsTo(s, t, s') && (s.pcs[t].Retract? || s.pcs[t].Add?)
    ensures |s'.pcs| == |s.pcs| && s'.pcs == s.pcs[t := s'.pcs[t]] && Nearer(s, s', t)
  {
  }

  /** Reading on: the head of the list has a reference, so nobody turns away from it. */
  lemma PeekMoves(s: State, t: nat, s': State)
    requires TurnsTo(s, t, s') && s.pcs[t].Peek?
    ensures |s'.pcs| == |s.pcs| && s'.pcs == s.pcs[t := s'.pcs[t]] && (s'.pcs[t].Idle? || Nearer(s, s', t))
  {
    var h := s.pcs[t].h;
    if h == s.head && h.At? {
      assert s.chain[0] in s.chain;
      assert LinkOk(s.next, s.chain, 0);
      MaskedCount(s, h.n);
    }
  }

  /** The last reader of a flagged node takes the flag away. */
  lemma LetGoMoves(s: State, t: nat, s': State)
    requires TurnsTo(s, t, s') && s.pcs[t].LetGo?
    ensures |s'.pcs| == |s.pcs| && s'.pcs == s.pcs[t := s'.pcs[t]] && Nearer(s, s', t)
  {
    var n := s.pcs[t].n;
    FocusFacts(s, t, s'.pcs[t]);
    FlaggedUpdate(s.status, n, s'.status[n]);
    assert s'.status == s.status[n := s'.status[n]];
  }

  /** No other step flags a node. */
  lemma OtherMoves(s: State, t: nat, s': State)
    requires TurnsTo(s, t, s') && var pc := s.pcs[t]; !pc.Retract? && !pc.Add? && !pc.Peek? && !pc.LetGo?
    ensures |s'.pcs| == |s.pcs| && s'.pcs == s.pcs[t := s'.pcs[t]] && (s'.pcs[t].Idle? || Nearer(s, s', t))
  {
    var n := Focus(s, s.pcs[t]);
    assert PcOk(s, t, s.pcs[t]);
    if n < |s.status| {
      assert NodeOk(s, n);
      FlaggedUpdate(s.status, n, s'.status[n]);
      assert s'.status == s.status[n := s'.status[n]];
    }
  }

  lemma MovesOn(s: State, t: nat, s': State)
    requires TurnsTo(s, t, s')
    ensures |s'.pcs| == |s.pcs| && s'.pcs == s.pcs[t := s'.pcs[t]] && (s'.pcs[t].Idle? || Nearer(s, s', t))
  {
    match s.pcs[t]
    case Retract(_, _, _) => FailedLink(s, t, s');
    case Add(_) => FailedLink(s, t, s');
    case Peek(_) => PeekMoves(s, t, s');
    case LetGo(_, _) => LetGoMoves(s, t, s');
    case _ => OtherMoves(s, t, s');
  }

  /** On every run: a thread that runs alone from there finishes its call, and moves no other
      thread. */
  lemma FinishesAlone(run: seq<State>, steps: seq<(nat, Action)>, threads: nat, nodes: nat, i: nat, t: nat)
      returns (actions: seq<Action>, s': State)
    requires threads + 1 < SHOULD_BE_ON_FREELIST && IsRun(run, steps) && run[0] == Init(threads, nodes)
    requires i < |run| && t < |run[i].pcs|
    ensures RunsAlone(run[i], t, actions, s') && s'.pcs == run[i].pcs[t := Idle]
    ensures forall a | a in actions :: a != CallGet && !a.CallAdd?
  {
    RunInv(run, steps, threads, nodes, i);
    actions, s' := EndsAlone(run[i], t);
  }

  lemma EndsAlone(s: State, t: nat) returns (actions: seq<Action>, s': State)
    requires Inv(s) && t < |s.pcs|
    ensures RunsAlone(s, t, actions, s') && s'.pcs == s.pcs[t := Idle]
    ensures forall a | a in actions :: a != CallGet && !a.CallAdd?
    decreases Outdated(s.head, s.pcs[t]), FlaggedNodes(s.status), Distance(s.head, s.refs, s.pcs[t])
  {
    var pc := s.pcs[t];
    if pc.Idle? {
      actions, s' := [], s;
    } else {
      HasTurn(s, t);
      KeepInv(s, t, Turn(pc));
      var m := Apply(s, t, Turn(pc));
      MovesOn(s, t, m);
      if m.pcs[t].Idle? {
        actions, s' := [Turn(pc)], m;
        Single(s, t, Turn(pc));
      } else {
        var rest;
        rest, s' := EndsAlone(m, t);
        actions := [Turn(pc)] + rest;
        assert actions[1..] == rest;
      }
    }
  }
}
