/** What the runner can do with work that is asked for: in distributed mode a thread that serves
    a steal sends roots or its node, and a node that is not sent goes to the other threads or
    stays with its own. */
module WorkStealingSteals {
  import opened Forest
  import opened WorkStealing
  import opened WorkStealingProof
  import opened WorkStealingTheorems

  lemma Then(c: Config, s: State, steps: seq<(nat, Action)>, t: nat, a: Action) returns (s': State, steps': seq<(nat, Action)>)
    requires Reaches(c, s, steps) && Enabled(c, s, t, a)
    ensures s' == Apply(c, s, t, a) && steps' == steps + [(t, a)] && Reaches(c, s', steps')
  {
    s' := Apply(c, s, t, a);
    steps' := steps + [(t, a)];
    assert steps'[..|steps|] == steps;
  }

  /** A thread may serve a steal, and nobody does. */
  ghost predicate CanServe(c: Config, s: State, t: nat) {
    c.distributed && t < |s.threads| && MayServe(s.threads[t]) && s.stealing == Free
  }

  /** Thread `t` serves a steal and has collected the first `k` roots. */
  ghost predicate Collected(s: State, m: State, t: nat, k: nat) {
    && t < |s.threads| && k <= |s.roots|
    && m == s.(threads := s.threads[t := s.threads[t].(loot := s.roots[..k])], roots := s.roots[k..], stealing := By(t))
  }

  lemma CollectsNone(c: Config, s: State, t: nat)
    requires CanServe(c, s, t) && s.threads[t].loot == []
    ensures Enabled(c, s, t, StealStep(StealBegin)) && Collected(s, Apply(c, s, t, StealStep(StealBegin)), t, 0)
  {
    assert s.roots[..0] == [] && s.roots[0..] == s.roots;
    assert s.threads == s.threads[t := s.threads[t].(loot := [])];
  }

  lemma CollectsNext(c: Config, s: State, m: State, t: nat, k: nat)
    requires CanServe(c, s, t) && k < |s.roots| && Collected(s, m, t, k)
    ensures Enabled(c, m, t, StealStep(StealRoot)) && Collected(s, Apply(c, m, t, StealStep(StealRoot)), t, k + 1)
  {
    assert s.roots[..k] + [s.roots[k]] == s.roots[..k + 1];
    assert s.roots[k..][1..] == s.roots[k + 1..];
  }

  lemma CollectsOne(c: Config, s: State, before: State, steps: seq<(nat, Action)>, t: nat, k: nat)
      returns (m: State, steps': seq<(nat, Action)>)
    requires Reaches(c, before, steps) && CanServe(c, s, t) && k < |s.roots| && Collected(s, before, t, k)
    ensures Reaches(c, m, steps') && Collected(s, m, t, k + 1)
  {
    CollectsNext(c, s, before, t, k);
    m, steps' := Then(c, before, steps, t, StealStep(StealRoot));
  }

  lemma BeginsToCollect(c: Config, s: State, steps: seq<(nat, Action)>, t: nat) returns (m: State, steps': seq<(nat, Action)>)
    requires Reaches(c, s, steps) && CanServe(c, s, t) && s.threads[t].loot == []
    ensures Reaches(c, m, steps') && Collected(s, m, t, 0)
  {
    CollectsNone(c, s, t);
    m, steps' := Then(c, s, steps, t, StealStep(StealBegin));
  }

  lemma Collects(c: Config, s: State, steps: seq<(nat, Action)>, t: nat, k: nat) returns (m: State, steps': seq<(nat, Action)>)
    requires Reaches(c, s, steps) && CanServe(c, s, t) && s.threads[t].loot == [] && k <= |s.roots|
    ensures Reaches(c, m, steps') && Collected(s, m, t, k)
  {
    if k == 0 {
      m, steps' := BeginsToCollect(c, s, steps, t);
    } else {
      var before, some := Collects(c, s, steps, t, k - 1);
      m, steps' := CollectsOne(c, s, before, some, t, k - 1);
    }
  }

  lemma NoLoot(c: Config, s: State, steps: seq<(nat, Action)>, t: nat)
    requires c.n >= 1 && Reaches(c, s, steps) && t < |s.threads| && s.stealing == Free
    ensures s.threads[t].loot == []
  {
    ReachableShape(c, s, steps);
    assert ThreadOk(c, s, t, s.threads[t]);
  }

  /** Reporting the node that thread `t` has passed on. */
  lemma Reports(c: Config, s: State, th: Thread, todo: seq<Tree>, node: Tree, t: nat)
    requires t < |s.threads| && th.pc.Work? && th.frames != []
    ensures var m := Put(s, t, SetTop(th, Frame(todo, [], [node])));
            && Enabled(c, m, t, ServeStep(Report))
            && Apply(c, m, t, ServeStep(Report))
               == Put(s, t, SetTop(th, Frame(todo, [], []))).(reported := s.reported + multiset{node.id})
  {
    var m := Put(s, t, SetTop(th, Frame(todo, [], [node])));
    assert Top(m.threads[t]) == Frame(todo, [], [node]);
    assert m.threads[t].frames[|th.frames| - 1 := Frame(todo, [], [])] == th.frames[|th.frames| - 1 := Frame(todo, [], [])];
  }

  /** From every reachable state in which a thread may serve a steal it can send away any number
      of the queued roots, the first ones first, and nothing else changes. */
  lemma SendsRoots(c: Config, s: State, steps: seq<(nat, Action)>, t: nat, k: nat) returns (s': State, steps': seq<(nat, Action)>)
    requires c.n >= 1 && Reaches(c, s, steps) && CanServe(c, s, t) && 0 < k <= |s.roots|
    ensures Reaches(c, s', steps') && s' == s.(roots := s.roots[k..], sentRoots := s.sentRoots + s.roots[..k])
  {
    NoLoot(c, s, steps, t);
    var m;
    m, steps' := Collects(c, s, steps, t, k);
    s', steps' := Then(c, m, steps', t, StealStep(StealSend));
    assert s'.threads == s.threads;
  }

  /** Or the node it has just been given, which it then reports but does not expand. */
  lemma SendsNode(c: Config, s: State, steps: seq<(nat, Action)>, t: nat) returns (s': State, steps': seq<(nat, Action)>)
    requires c.n >= 1 && Reaches(c, s, steps) && CanServe(c, s, t) && s.threads[t].pc.Work?
    ensures var th, f := s.threads[t], Top(s.threads[t]);
            && Reaches(c, s', steps')
            && s' == Put(s, t, SetTop(th, Frame(f.todo, [], []))).(
                       sentNodes := s.sentNodes + f.serving, reported := s.reported + multiset{f.serving[0].id})
  {
    NoLoot(c, s, steps, t);
    var th, f := s.threads[t], Top(s.threads[t]);
    var m;
    m, steps' := Then(c, s, steps, t, StealStep(StealBegin));
    m, steps' := Then(c, m, steps', t, StealStep(StealSend));
    assert f.serving == [f.serving[0]];
    var sent := s.(sentNodes := s.sentNodes + f.serving);
    assert m == Put(sent, t, SetTop(th, Frame(f.todo, [], [f.serving[0]])));
    Reports(c, sent, th, f.todo, f.serving[0], t);
    s', steps' := Then(c, m, steps', t, ServeStep(Report));
  }

  /** Or nothing, when there are no roots or the callback says so. */
  lemma SendsNothing(c: Config, s: State, steps: seq<(nat, Action)>, t: nat) returns (s': State, steps': seq<(nat, Action)>)
    requires c.n >= 1 && Reaches(c, s, steps) && CanServe(c, s, t)
    ensures Reaches(c, s', steps') && s' == s
  {
    NoLoot(c, s, steps, t);
    var m;
    m, steps' := Then(c, s, steps, t, StealStep(StealBegin));
    s', steps' := Then(c, m, steps', t, StealStep(StealGiveUp));
  }

  /** A thread has been given a node and does not serve a steal with it. */
  ghost predicate HasNode(s: State, t: nat) {
    t < |s.threads| && !Holds(s, t)
    && s.threads[t].pc.Work? && s.threads[t].frames != [] && |Top(s.threads[t]).serving| == 1
  }

  /** A node that is not sent can be handed to the other threads and is reported next. */
  lemma Offers(c: Config, s: State, steps: seq<(nat, Action)>, t: nat) returns (s': State, steps': seq<(nat, Action)>)
    requires Reaches(c, s, steps) && HasNode(s, t)
    ensures Reaches(c, s', steps')
    ensures var th, f := s.threads[t], Top(s.threads[t]);
            s' == Put(s, t, SetTop(th, Frame(f.todo, [], [])))
                    .(gnodes := s.gnodes + f.serving, reported := s.reported + multiset{f.serving[0].id})
  {
    var th, f := s.threads[t], Top(s.threads[t]);
    assert f.serving == [f.serving[0]];
    Reports(c, s.(gnodes := s.gnodes + f.serving), th, f.todo, f.serving[0], t);
    var m;
    m, steps' := Then(c, s, steps, t, ServeStep(Offer));
    s', steps' := Then(c, m, steps', t, ServeStep(Report));
  }

  lemma KeptAs(c: Config, s: State, t: nat)
    requires HasNode(s, t) && !c.recursive
    ensures var th, f := s.threads[t], Top(s.threads[t]);
            && Enabled(c, s, t, ServeStep(Keep))
            && Apply(c, s, t, ServeStep(Keep))
               == Put(s, t, SetTop(th.(lnodes := th.lnodes + f.serving), Frame(f.todo, [], f.serving)))
  {
  }

  /** Or, without recursion, put on the thread's own list. */
  lemma Keeps(c: Config, s: State, steps: seq<(nat, Action)>, t: nat) returns (s': State, steps': seq<(nat, Action)>)
    requires Reaches(c, s, steps) && HasNode(s, t) && !c.recursive
    ensures Reaches(c, s', steps')
    ensures var th, f := s.threads[t], Top(s.threads[t]);
            s' == Put(s, t, SetTop(th.(lnodes := th.lnodes + f.serving), Frame(f.todo, [], [])))
                    .(reported := s.reported + multiset{f.serving[0].id})
  {
    var th, f := s.threads[t], Top(s.threads[t]);
    assert f.serving == [f.serving[0]];
    KeptAs(c, s, t);
    Reports(c, s, th.(lnodes := th.lnodes + f.serving), f.todo, f.serving[0], t);
    var m;
    m, steps' := Then(c, s, steps, t, ServeStep(Keep));
    s', steps' := Then(c, m, steps', t, ServeStep(Report));
  }

  /** Or, with recursion, expanded at once. */
  lemma Recurses(c: Config, s: State, steps: seq<(nat, Action)>, t: nat) returns (s': State, steps': seq<(nat, Action)>)
    requires Reaches(c, s, steps) && HasNode(s, t) && c.recursive
    ensures Reaches(c, s', steps')
    ensures var th, f := s.threads[t], Top(s.threads[t]);
            s' == Put(s, t, th.(frames := SetTop(th, Frame(f.todo, [], f.serving)).frames + [Frame(f.serving[0].kids, [], [])]))
                    .(expanded := s.expanded + multiset{f.serving[0].id})
  {
    s', steps' := Then(c, s, steps, t, ServeStep(Recurse));
  }
}
