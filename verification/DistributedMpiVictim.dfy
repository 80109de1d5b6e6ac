/** The master's choice of a steal victim (enumerator/distributed_mpi.hpp). */
module DistributedMpiVictim {
  import opened DistributedMpi

  class Master {
    const never: nat  // time_point::max
    var workersStates: seq<WorkerState>
    var lastRequest: seq<nat>
    var lastStealVictim: nat

    /** The vectors get their size in `Run`. */
    constructor (never: nat)
      ensures Valid() && this.never == never && workersStates == [] && lastRequest == [] && lastStealVictim == 0
    {
      this.never := never;
      workersStates, lastRequest, lastStealVictim := [], [], 0;
    }

    predicate Valid()
      reads this
    {
      |workersStates| == |lastRequest| && forall i | 0 <= i < |lastRequest| :: lastRequest[i] < never
    }

    method GetStealVictim() returns (victim: nat)
      requires Valid()
      modifies `lastStealVictim
      ensures Picked(workersStates, lastRequest, old(lastStealVictim), victim)
      ensures lastStealVictim == victim && Valid()
    {
      var minimum := never;
      victim := 0;
      ghost var some := false;
      for i := 0 to |lastRequest|
        invariant lastStealVictim == old(lastStealVictim) && Valid()
        invariant some ==> victim < |lastRequest|
        invariant minimum == if some then lastRequest[victim] else never
        invariant some ==> victim < i && Candidate(workersStates, lastStealVictim, victim)
        invariant !some ==> victim == 0
        invariant forall j: nat | j < i && Candidate(workersStates, lastStealVictim, j) ::
                    some && (minimum < lastRequest[j] || (minimum == lastRequest[j] && victim <= j))
      {
        if i != lastStealVictim && lastRequest[i] < minimum && workersStates[i] != STEAL_WAIT {
          minimum := lastRequest[i];
          victim := i;
          some := true;
        }
      }
      lastStealVictim := victim;
    }

    method Terminated() returns (all: bool)
      ensures all <==> forall i | 0 <= i < |workersStates| :: workersStates[i] == STEAL_WAIT
    {
      for i := 0 to |workersStates|
        invariant forall j | 0 <= j < i :: workersStates[j] == STEAL_WAIT
      {
        if workersStates[i] != STEAL_WAIT {
          return false;
        }
      }
      return true;
    }
  }

  /** The worker picked has run out of work exactly when nobody but the last victim has any
      left and worker 0 has none. */
  lemma PickedIsWaitingIff(states: seq<WorkerState>, requests: seq<nat>, last: nat, v: nat)
    requires |states| == |requests| > 0 && Picked(states, requests, last, v)
    ensures v < |states|
    ensures states[v] == STEAL_WAIT <==>
              states[0] == STEAL_WAIT && forall i | 0 <= i < |states| :: i == last || states[i] == STEAL_WAIT
  {
    assert forall i | 0 <= i < |states| :: Candidate(states, last, i) <==> (i != last && states[i] != STEAL_WAIT);
  }

  /** One such useless request is followed by a useful one, whatever has been updated since,
      as long as somebody has work and worker 0 is still waiting. */
  lemma SecondPickHasWork(states: seq<WorkerState>, requests: seq<nat>, states': seq<WorkerState>, requests': seq<nat>,
      last: nat, v: nat, v': nat, j: nat)
    requires |states| == |requests| == |states'| == |requests'| && j < |states|
    requires Picked(states, requests, last, v) && states[v] == STEAL_WAIT
    requires Picked(states', requests', v, v') && states'[0] == STEAL_WAIT && states'[j] != STEAL_WAIT
    ensures v' < |states'| && states'[v'] != STEAL_WAIT
  {
    assert v == 0;
    assert Candidate(states', v, j);
  }

  /** When the stealer is picked as its own victim (where the assertion in
      `WaitRangeRequest` fails): it is worker 0 and nobody but the last victim has work. */
  lemma PickedIsStealerIff(states: seq<WorkerState>, requests: seq<nat>, last: nat, v: nat, stealer: nat)
    requires |states| == |requests| && Picked(states, requests, last, v)
    requires stealer < |states| && states[stealer] == STEAL_WAIT
    ensures v == stealer <==> stealer == 0 && forall i | 0 <= i < |states| :: i == last || states[i] == STEAL_WAIT
  {
    assert forall i | 0 <= i < |states| :: Candidate(states, last, i) <==> (i != last && states[i] != STEAL_WAIT);
  }
}
