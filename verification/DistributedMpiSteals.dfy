/** A steal moves work: what the victim gives away is what the stealer goes on with. */
module DistributedMpiSteals {
  import opened DistributedMpi

  lemma Then(c: Config, s: State, steps: seq<(nat, Action)>, i: nat, a: Action) returns (s': State, steps': seq<(nat, Action)>)
    requires Reaches(c, s, steps) && Enabled(c, s, i, a)
    ensures s' == Apply(c, s, i, a) && Reaches(c, s', steps')
  {
    s' := Apply(c, s, i, a);
    steps' := steps + [(i, a)];
    assert steps'[..|steps|] == steps;
  }

  /** Worker `v`, at work, has got the steal request that is meant for worker `t`, who waits. */
  ghost predicate Stealing(s: State, t: nat, v: nat) {
    && !s.aborted && s.pc == Await(t, v) && t < |s.sites| && v < |s.sites| && t != v
    && s.sites[v].w.pc.Working? && s.sites[v].down == [StealRequest] && s.sites[v].up == []
    && s.sites[t].w.pc.Waiting? && !s.sites[t].w.first && s.sites[t].down == []
  }

  /** The stealer works on `load`, the victim is `w`, and the master listens again. */
  ghost function Stolen(s: State, t: nat, v: nat, w: Worker, load: Load): State
    requires Stealing(s, t, v)
  {
    s.(pc := Listen,
       sites := s.sites[v := s.sites[v].(w := w, down := [])]
                       [t := s.sites[t].(w := s.sites[t].w.(pc := Working, load := load), st := STEAL_PROCESSING)])
  }

  /** The answer of the victim is on its way. */
  ghost function Given(s: State, t: nat, v: nat, w: Worker, load: Load): State
    requires Stealing(s, t, v)
  {
    s.(sites := s.sites[v := s.sites[v].(w := w, up := [StealResponse(load)], down := [])])
  }

  lemma Arrives(c: Config, s: State, steps: seq<(nat, Action)>, t: nat, v: nat, w: Worker, load: Load)
      returns (s': State, steps': seq<(nat, Action)>)
    requires Stealing(s, t, v) && Reaches(c, Given(s, t, v, w, load), steps)
    ensures Reaches(c, s', steps') && s' == Stolen(s, t, v, w, load)
  {
    var m := Given(s, t, v, w, load);
    s', steps' := Then(c, m, steps, v, MasterStep(TakeAnswer));
    assert s'.sites[v] == s.sites[v].(w := w, down := []);
    s', steps' := Then(c, s', steps', t, MasterStep(PassOn));
    assert s'.sites[t].down == [StealResponse(load)];
    s', steps' := Then(c, s', steps', t, WorkerStep(Receive));
    assert s'.sites == Stolen(s, t, v, w, load).sites;
  }

  lemma GivenRoots(c: Config, s: State, t: nat, v: nat, k: nat)
    requires Stealing(s, t, v) && 0 < k <= |s.sites[v].w.load.roots|
    ensures EnabledWorker(c, s, v, GiveRoots(k))
    ensures var w := s.sites[v].w;
            ApplyWorker(c, s, v, GiveRoots(k))
            == Given(s, t, v, w.(load := Load(w.load.roots[k..], w.load.nodes)), Load(w.load.roots[..k], []))
  {
    var answer := StealResponse(Load(s.sites[v].w.load.roots[..k], []));
    assert s.sites[v].up + [answer] == [answer] && s.sites[v].down[1..] == [];
  }

  /** The victim, and the work it gives away. */
  ghost function Without(c: Config, w: Worker): Worker
    requires w.todo != []
  {
    w.(todo := w.todo[1..], found := w.found + Found(c, w.todo[0]))
  }

  ghost function NextNode(w: Worker): Load
    requires w.todo != []
  {
    Load([], [w.todo[0]])
  }

  lemma GivenNode(c: Config, s: State, t: nat, v: nat)
    requires Stealing(s, t, v) && s.sites[v].w.todo != []
    ensures EnabledWorker(c, s, v, GiveNode)
    ensures var w := s.sites[v].w;
            ApplyWorker(c, s, v, GiveNode) == Given(Report(c, s, w.todo[0]), t, v, Without(c, w), NextNode(w))
  {
    var answer := StealResponse(Load([], [s.sites[v].w.todo[0]]));
    assert s.sites[v].up + [answer] == [answer] && s.sites[v].down[1..] == [];
  }

  /** From every reachable state with such a request the victim can give away any number of
      roots, the first ones first, and the stealer goes on with these. */
  lemma RootsAreStolen(c: Config, s: State, steps: seq<(nat, Action)>, t: nat, v: nat, k: nat)
      returns (s': State, steps': seq<(nat, Action)>)
    requires Reaches(c, s, steps) && Stealing(s, t, v) && 0 < k <= |s.sites[v].w.load.roots|
    ensures var w := s.sites[v].w;
            && Reaches(c, s', steps')
            && s' == Stolen(s, t, v, w.(load := Load(w.load.roots[k..], w.load.nodes)), Load(w.load.roots[..k], []))
  {
    var w := s.sites[v].w;
    var kept := w.(load := Load(w.load.roots[k..], w.load.nodes));
    GivenRoots(c, s, t, v, k);
    s', steps' := Then(c, s, steps, v, WorkerStep(GiveRoots(k)));
    s', steps' := Arrives(c, s, steps', t, v, kept, Load(w.load.roots[..k], []));
  }

  /** Or the node that was just handed to its callback: the victim reports it, the stealer
      expands it. */
  lemma NodeIsStolen(c: Config, s: State, steps: seq<(nat, Action)>, t: nat, v: nat)
      returns (s': State, steps': seq<(nat, Action)>)
    requires Reaches(c, s, steps) && Stealing(s, t, v) && s.sites[v].w.todo != []
    ensures var w := s.sites[v].w;
            Reaches(c, s', steps') && s' == Stolen(Report(c, s, w.todo[0]), t, v, Without(c, w), NextNode(w))
  {
    var w := s.sites[v].w;
    GivenNode(c, s, t, v);
    s', steps' := Then(c, s, steps, v, WorkerStep(GiveNode));
    s', steps' := Arrives(c, Report(c, s, w.todo[0]), steps', t, v, Without(c, w), NextNode(w));
  }
}
