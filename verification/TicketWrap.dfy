/** The dequeue protocol on counters that wrap (util/concurrentqueue.hpp): while the numbers
    compared are less than half the range apart, it does what the unbounded one does. */
module TicketWrap {
  import opened Graphs
  import T = TicketQueue

  datatype PC =
    | Idle
    | HaveTail(tail: nat)
    | HaveOver(tail: nat, over: nat)
    | Commit(over: nat)
    | Recheck(my: nat, over: nat)
    | Claim
    | Undo
    | Read(index: nat)

  datatype State = State(tailIndex: nat, headIndex: nat, optimistic: nat, overcommit: nat, pcs: seq<PC>, taken: seq<nat>)

  /** `index_t` has `2 * half` values. */
  function Wrap(half: nat, x: nat): nat
    requires half > 0
  {
    x % (2 * half)
  }

  function Minus(half: nat, a: nat, b: nat): nat
    requires half > 0
  {
    (a - b) % (2 * half)
  }

  ghost predicate Enabled(s: State, t: nat, a: T.Action) {
    match a
    case Enqueue => true
    case LoadTail => t < |s.pcs| && s.pcs[t].Idle?
    case LoadOver => t < |s.pcs| && s.pcs[t].HaveTail?
    case FirstTest => t < |s.pcs| && s.pcs[t].HaveOver?
    case TakeTicket => t < |s.pcs| && s.pcs[t].Commit?
    case SecondTest => t < |s.pcs| && s.pcs[t].Recheck?
    case TakeIndex => t < |s.pcs| && s.pcs[t].Claim?
    case MoveOut => t < |s.pcs| && s.pcs[t].Read?
    case GiveBack => t < |s.pcs| && s.pcs[t].Undo?
  }

  ghost function Goto(s: State, t: nat, pc: PC): State
    requires t < |s.pcs|
  {
    s.(pcs := s.pcs[t := pc])
  }

  ghost function Apply(half: nat, s: State, t: nat, a: T.Action): State
    requires half > 0 && Enabled(s, t, a)
  {
    match a
    case Enqueue => s.(tailIndex := Wrap(half, s.tailIndex + 1))
    case LoadTail => Goto(s, t, HaveTail(s.tailIndex))
    case LoadOver => Goto(s, t, HaveOver(s.pcs[t].tail, s.overcommit))
    case FirstTest =>
      var pc := s.pcs[t];
      Goto(s, t, if T.CircularLess(half, Minus(half, s.optimistic, pc.over), pc.tail) then Commit(pc.over) else Idle)
    case TakeTicket => Goto(s, t, Recheck(s.optimistic, s.pcs[t].over)).(optimistic := Wrap(half, s.optimistic + 1))
    case SecondTest =>
      var pc := s.pcs[t];
      Goto(s, t, if T.CircularLess(half, Minus(half, pc.my, pc.over), s.tailIndex) then Claim else Undo)
    case TakeIndex => Goto(s, t, Read(s.headIndex)).(headIndex := Wrap(half, s.headIndex + 1))
    case MoveOut => Goto(s, t, Idle).(taken := s.taken + [s.pcs[t].index])
    case GiveBack => Goto(s, t, Idle).(overcommit := Wrap(half, s.overcommit + 1))
  }

  ghost function ImagePc(half: nat, pc: T.PC): PC
    requires half > 0
  {
    match pc
    case Idle => Idle
    case HaveTail(tail) => HaveTail(Wrap(half, tail))
    case HaveOver(tail, over, _) => HaveOver(Wrap(half, tail), Wrap(half, over))
    case Commit(over, _) => Commit(Wrap(half, over))
    case Recheck(my, over, _) => Recheck(Wrap(half, my), Wrap(half, over))
    case Claim(_) => Claim
    case Undo(_) => Undo
    case Read(index) => Read(Wrap(half, index))
  }

  /** What remains of an unbounded state. */
  ghost function Image(half: nat, s: T.State): State
    requires half > 0
  {
    State(Wrap(half, s.tailIndex), Wrap(half, s.headIndex), Wrap(half, s.optimistic), Wrap(half, s.overcommit),
          seq(|s.pcs|, i requires 0 <= i < |s.pcs| => ImagePc(half, s.pcs[i])),
          seq(|s.taken|, i requires 0 <= i < |s.taken| => Wrap(half, s.taken[i])))
  }

  ghost predicate Close(half: nat, a: int, b: int) {
    a < b + half && b < a + half
  }

  /** What is compared is less than half the range apart, and an index being read is not
      older than the range. */
  ghost predicate Near(half: nat, s: T.State) {
    forall t | 0 <= t < |s.pcs| :: NearPc(half, s, s.pcs[t])
  }

  ghost predicate NearPc(half: nat, s: T.State, pc: T.PC) {
    && (pc.HaveOver? ==> Close(half, s.optimistic - pc.over, pc.tail))
    && (pc.Recheck? ==> Close(half, pc.my - pc.over, s.tailIndex))
    && (pc.Read? ==> s.headIndex <= pc.index + 2 * half)
  }

  lemma ModPlus(r: nat, m: nat, q: int)
    requires r < m
    ensures (r + q * m) % m == r
  {
    T.MulSplit(0, q, m);
    T.ModOnce(r, m, 0 - q);
  }

  lemma WrapNext(half: nat, x: nat)
    requires half > 0
    ensures Wrap(half, Wrap(half, x) + 1) == Wrap(half, x + 1)
  {
    var m := 2 * half;
    var q, r := x / m, x % m;
    assert x == r + q * m;
    if r + 1 < m {
      ModPlus(r + 1, m, q);
      ModPlus(r + 1, m, 0);
    } else {
      T.MulSplit(q, -1, m);
      ModPlus(0, m, q + 1);
      ModPlus(0, m, 1);
    }
  }

  /** A test on wrapped counters is the test on the true ones. */
  lemma TestIsExact(half: nat, a: nat, over: nat, tail: nat)
    requires half > 0 && over <= a && Close(half, a - over, tail)
    ensures T.CircularLess(half, Minus(half, Wrap(half, a), Wrap(half, over)), Wrap(half, tail)) <==> a - over < tail
  {
    T.ModDifference(a, over, 2 * half);
    T.CircularLessIsExact(half, a - over, tail);
  }

  lemma OverFits(s: T.State, t: nat)
    requires T.Inv(s) && t < |s.pcs|
    ensures s.pcs[t].HaveOver? ==> s.pcs[t].over <= s.optimistic
    ensures s.pcs[t].Recheck? ==> s.pcs[t].over <= s.pcs[t].my
  {
    var pc := s.pcs[t];
    assert T.PcOk(s, pc);
    if pc.HaveOver? {
      T.BelowFits(pc.known, s.optimistic);
    } else if pc.Recheck? {
      T.BelowFits(pc.known, pc.my);
    }
  }

  lemma StepIsImage(half: nat, s: T.State, t: nat, a: T.Action)
    requires half > 0 && T.Inv(s) && Near(half, s)
    requires T.Enabled(s, t, a)
    ensures Enabled(Image(half, s), t, a) && Apply(half, Image(half, s), t, a) == Image(half, T.Apply(s, t, a))
  {
    if a.FirstTest? || a.SecondTest? {
      TestIsImage(half, s, t, a);
    } else {
      CountIsImage(half, s, t, a);
    }
  }

  lemma TestIsImage(half: nat, s: T.State, t: nat, a: T.Action)
    requires half > 0 && T.Inv(s) && Near(half, s) && T.Enabled(s, t, a) && (a.FirstTest? || a.SecondTest?)
    ensures Enabled(Image(half, s), t, a) && Apply(half, Image(half, s), t, a) == Image(half, T.Apply(s, t, a))
  {
    TestsAgree(half, s, t);
    ImageGoto(half, s, t, a);
  }

  lemma CountIsImage(half: nat, s: T.State, t: nat, a: T.Action)
    requires half > 0 && T.Enabled(s, t, a) && !a.FirstTest? && !a.SecondTest?
    ensures Enabled(Image(half, s), t, a) && Apply(half, Image(half, s), t, a) == Image(half, T.Apply(s, t, a))
  {
    WrapNext(half, s.tailIndex);
    WrapNext(half, s.headIndex);
    WrapNext(half, s.optimistic);
    WrapNext(half, s.overcommit);
    ImageGoto(half, s, t, a);
  }

  lemma TestsAgree(half: nat, s: T.State, t: nat)
    requires half > 0 && T.Inv(s) && Near(half, s) && t < |s.pcs|
    ensures var pc := s.pcs[t];
            pc.HaveOver? ==>
              (T.CircularLess(half, Minus(half, Wrap(half, s.optimistic), Wrap(half, pc.over)), Wrap(half, pc.tail)) <==>
                 s.optimistic - pc.over < pc.tail)
    ensures var pc := s.pcs[t];
            pc.Recheck? ==>
              (T.CircularLess(half, Minus(half, Wrap(half, pc.my), Wrap(half, pc.over)), Wrap(half, s.tailIndex)) <==>
                 pc.my - pc.over < s.tailIndex)
  {
    var pc := s.pcs[t];
    OverFits(s, t);
    assert NearPc(half, s, pc);
    if pc.HaveOver? {
      TestIsExact(half, s.optimistic, pc.over, pc.tail);
    } else if pc.Recheck? {
      TestIsExact(half, pc.my, pc.over, s.tailIndex);
    }
  }

  /** The image of the program counters after the step. */
  lemma ImageGoto(half: nat, s: T.State, t: nat, a: T.Action)
    requires half > 0 && T.Enabled(s, t, a)
    ensures var s' := T.Apply(s, t, a);
            Image(half, s').pcs == if a.Enqueue? then Image(half, s).pcs else Image(half, s).pcs[t := ImagePc(half, s'.pcs[t])]
    ensures var s' := T.Apply(s, t, a);
            Image(half, s').taken == if a.MoveOut? then Image(half, s).taken + [Wrap(half, s.pcs[t].index)] else Image(half, s).taken
  {
  }

  ghost predicate Reaches(half: nat, s: State, consumers: nat, steps: seq<(nat, T.Action)>)
    requires half > 0
    decreases |steps|
  {
    if steps == [] then s == Image(half, T.Init(consumers))
    else
      var n := |steps| - 1;
      exists p: State :: Reaches(half, p, consumers, steps[..n]) && Enabled(p, steps[n].0, steps[n].1)
                         && s == Apply(half, p, steps[n].0, steps[n].1)
  }

  /** The unbounded run with these steps stays near. */
  ghost predicate StaysNear(half: nat, consumers: nat, steps: seq<(nat, T.Action)>) {
    forall n: nat, s: T.State | n <= |steps| && T.Reaches(s, consumers, steps[..n]) :: Near(half, s)
  }

  lemma EnabledIff(half: nat, s: T.State, t: nat, a: T.Action)
    requires half > 0
    ensures Enabled(Image(half, s), t, a) <==> T.Enabled(s, t, a)
  {
  }

  lemma ShorterStaysNear(half: nat, consumers: nat, steps: seq<(nat, T.Action)>)
    requires StaysNear(half, consumers, steps) && steps != []
    ensures StaysNear(half, consumers, steps[..|steps| - 1])
  {
    var most := steps[..|steps| - 1];
    forall n: nat, s: T.State | n <= |most| && T.Reaches(s, consumers, most[..n])
      ensures Near(half, s)
    {
      assert most[..n] == steps[..n];
    }
  }

  /** Every run on wrapped counters is what remains of an unbounded one. */
  lemma WrappedRun(half: nat, w: State, consumers: nat, steps: seq<(nat, T.Action)>) returns (s: T.State)
    requires half > 0 && Reaches(half, w, consumers, steps) && StaysNear(half, consumers, steps)
    ensures T.Reaches(s, consumers, steps) && w == Image(half, s) && Near(half, s)
    decreases |steps|
  {
    if steps == [] {
      s := T.Init(consumers);
    } else {
      var n := |steps| - 1;
      var t, a := steps[n].0, steps[n].1;
      var p: State :| Reaches(half, p, consumers, steps[..n]) && Enabled(p, t, a) && w == Apply(half, p, t, a);
      ShorterStaysNear(half, consumers, steps);
      var q := WrappedRun(half, p, consumers, steps[..n]);
      EnabledIff(half, q, t, a);
      T.ReachableInv(q, consumers, steps[..n]);
      StepIsImage(half, q, t, a);
      s := T.Apply(q, t, a);
      assert T.Reaches(s, consumers, steps);
    }
    assert steps[..|steps|] == steps;
  }

  lemma WrapApart(half: nat, x: nat, y: nat)
    requires half > 0 && x < y < x + 2 * half
    ensures Wrap(half, x) != Wrap(half, y)
  {
    var m := 2 * half;
    if x % m == y % m {
      T.ModDifference(y, x, m);
      ModPlus(y - x, m, 0);
      ModPlus(0, m, 0);
    }
  }

  /** On wrapped counters too: no two consumers read the same slot, the head does not pass the
      tail, and a consumer that passed the second test finds an element. */
  lemma WrappedDequeues(half: nat, w: State, consumers: nat, steps: seq<(nat, T.Action)>)
    requires half > 0 && Reaches(half, w, consumers, steps) && StaysNear(half, consumers, steps)
    ensures forall t, u | 0 <= t < u < |w.pcs| && w.pcs[t].Read? && w.pcs[u].Read? :: w.pcs[t].index != w.pcs[u].index
    ensures exists s: T.State ::
        && T.Reaches(s, consumers, steps) && w == Image(half, s) && s.headIndex <= s.tailIndex == T.Enqueues(steps)
        && NoDup(s.taken) && T.NoneLost(s) && forall t | 0 <= t < |s.pcs| && s.pcs[t].Claim? :: s.headIndex < s.tailIndex
  {
    var s := WrappedRun(half, w, consumers, steps);
    T.DequeuesAreDistinct(s, consumers, steps);
    T.NoElementLost(s, consumers, steps);
    forall t, u | 0 <= t < u < |w.pcs| && w.pcs[t].Read? && w.pcs[u].Read?
      ensures w.pcs[t].index != w.pcs[u].index
    {
      ReadsApart(half, s, t, u);
    }
    forall t: nat | t < |s.pcs| && s.pcs[t].Claim? {
      T.ClaimFindsElement(s, consumers, steps, t);
    }
  }

  /** Every unbounded run that stays near is one on wrapped counters. */
  lemma ImageRun(half: nat, s: T.State, consumers: nat, steps: seq<(nat, T.Action)>)
    requires half > 0 && T.Reaches(s, consumers, steps) && StaysNear(half, consumers, steps)
    ensures Reaches(half, Image(half, s), consumers, steps)
    decreases |steps|
  {
    if steps != [] {
      var n := |steps| - 1;
      var t, a := steps[n].0, steps[n].1;
      var p: T.State :| T.Reaches(p, consumers, steps[..n]) && T.Enabled(p, t, a) && s == T.Apply(p, t, a);
      ShorterStaysNear(half, consumers, steps);
      ImageRun(half, p, consumers, steps[..n]);
      T.ReachableInv(p, consumers, steps[..n]);
      StepIsImage(half, p, t, a);
    }
  }

  lemma PrefixStaysNear(half: nat, consumers: nat, steps: seq<(nat, T.Action)>, more: seq<(nat, T.Action)>)
    requires StaysNear(half, consumers, steps + more)
    ensures StaysNear(half, consumers, steps)
  {
    forall n: nat, s: T.State | n <= |steps| && T.Reaches(s, consumers, steps[..n])
      ensures Near(half, s)
    {
      assert (steps + more)[..n] == steps[..n];
    }
  }

  /** On wrapped counters too a consumer that runs alone takes the element at the head. */
  lemma WrappedDequeueAlone(half: nat, w: State, consumers: nat, steps: seq<(nat, T.Action)>, t: nat) returns (w': State)
    requires half > 0 && Reaches(half, w, consumers, steps) && StaysNear(half, consumers, steps + T.Alone(t, T.DEQUEUE))
    requires t < |w.pcs| && (forall u | 0 <= u < |w.pcs| :: w.pcs[u].Idle?) && w.headIndex != w.tailIndex
    ensures Reaches(half, w', consumers, steps + T.Alone(t, T.DEQUEUE)) && w'.taken == w.taken + [w.headIndex]
  {
    PrefixStaysNear(half, consumers, steps, T.Alone(t, T.DEQUEUE));
    var s := WrappedRun(half, w, consumers, steps);
    T.DequeuesAreDistinct(s, consumers, steps);
    forall u | 0 <= u < |s.pcs|
      ensures s.pcs[u].Idle?
    {
      assert w.pcs[u] == ImagePc(half, s.pcs[u]);
    }
    var s' := T.DequeueAlone(s, consumers, steps, t);
    ImageRun(half, s', consumers, steps + T.Alone(t, T.DEQUEUE));
    w' := Image(half, s');
    assert w'.taken == w.taken + [w.headIndex];
  }

  lemma ReadsApart(half: nat, s: T.State, t: nat, u: nat)
    requires half > 0 && Near(half, s) && t < |s.pcs| && u < |s.pcs| && s.pcs[t].Read? && s.pcs[u].Read?
    requires s.pcs[t].index < s.headIndex && s.pcs[u].index < s.headIndex && s.pcs[t].index != s.pcs[u].index
    ensures Wrap(half, s.pcs[t].index) != Wrap(half, s.pcs[u].index)
  {
    assert NearPc(half, s, s.pcs[t]) && NearPc(half, s, s.pcs[u]);
    if s.pcs[t].index < s.pcs[u].index {
      WrapApart(half, s.pcs[t].index, s.pcs[u].index);
    } else {
      WrapApart(half, s.pcs[u].index, s.pcs[t].index);
    }
  }
}
