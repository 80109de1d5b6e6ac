/** `CHSystem::Resort`: a solution reordered by breadth-first search from a seed, smallest
    vertex first within a level (enumerable/connected_hereditary.hpp). */
module Resort {
  import opened Graphs

  /** The part of `s` within `d` steps of the seed. */
  ghost function Ball(s: seq<nat>, neigh: (nat, nat) -> bool, seed: nat, d: nat): set<nat> {
    if d == 0 then {seed}
    else
      var near := Ball(s, neigh, seed, d - 1);
      near + set v | v in s && NextTo(neigh, near, v)
  }

  ghost predicate NextTo(neigh: (nat, nat) -> bool, near: set<nat>, v: nat) {
    exists u :: u in near && neigh(u, v)
  }

  ghost predicate Reachable(s: seq<nat>, neigh: (nat, nat) -> bool, seed: nat, v: nat) {
    exists d: nat :: v in Ball(s, neigh, seed, d)
  }

  /** `d` is the length of a shortest path inside `s` from the seed to `v`. */
  ghost predicate Distance(s: seq<nat>, neigh: (nat, nat) -> bool, seed: nat, v: nat, d: nat) {
    v in Ball(s, neigh, seed, d) && (d > 0 ==> v !in Ball(s, neigh, seed, d - 1))
  }

  lemma BallGrows(s: seq<nat>, neigh: (nat, nat) -> bool, seed: nat, d: nat, e: nat)
    requires d <= e
    ensures Ball(s, neigh, seed, d) <= Ball(s, neigh, seed, e)
    decreases e
  {
    if d < e {
      BallGrows(s, neigh, seed, d, e - 1);
    }
  }

  /** A walk from the seed to `v` that stays in `s`. */
  ghost predicate IsPath(s: seq<nat>, neigh: (nat, nat) -> bool, seed: nat, p: seq<nat>, v: nat) {
    && p != [] && p[0] == seed && p[|p| - 1] == v
    && forall i | 0 < i < |p| :: p[i] in s && neigh(p[i - 1], p[i])
  }

  lemma PathInBall(s: seq<nat>, neigh: (nat, nat) -> bool, seed: nat, p: seq<nat>, v: nat)
    requires IsPath(s, neigh, seed, p, v)
    ensures v in Ball(s, neigh, seed, |p| - 1)
    decreases |p|
  {
    if |p| > 1 {
      var n := |p| - 1;
      PathInBall(s, neigh, seed, p[..n], p[n - 1]);
      assert p[n] in s && neigh(p[n - 1], p[n]);
    }
  }

  lemma BallHasPath(s: seq<nat>, neigh: (nat, nat) -> bool, seed: nat, v: nat, d: nat) returns (p: seq<nat>)
    requires v in Ball(s, neigh, seed, d)
    ensures IsPath(s, neigh, seed, p, v) && |p| <= d + 1
    decreases d
  {
    if d == 0 {
      p := [seed];
    } else if v in Ball(s, neigh, seed, d - 1) {
      p := BallHasPath(s, neigh, seed, v, d - 1);
    } else {
      var u :| u in Ball(s, neigh, seed, d - 1) && neigh(u, v);
      p := BallHasPath(s, neigh, seed, u, d - 1);
      p := p + [v];
    }
  }

  /** `Distance` is the length of a shortest path inside `s`. */
  lemma DistanceIsShortest(s: seq<nat>, neigh: (nat, nat) -> bool, seed: nat, v: nat, d: nat)
    ensures Distance(s, neigh, seed, v, d) <==>
              (exists p :: IsPath(s, neigh, seed, p, v) && |p| == d + 1)
              && (forall p | IsPath(s, neigh, seed, p, v) :: |p| >= d + 1)
  {
    if Distance(s, neigh, seed, v, d) {
      var p := BallHasPath(s, neigh, seed, v, d);
      forall q | IsPath(s, neigh, seed, q, v)
        ensures |q| >= d + 1
      {
        PathInBall(s, neigh, seed, q, v);
        if |q| <= d {
          BallGrows(s, neigh, seed, |q| - 1, d - 1);
          assert false;
        }
      }
      assert |p| == d + 1;
    }
    if (exists p :: IsPath(s, neigh, seed, p, v) && |p| == d + 1) && forall p | IsPath(s, neigh, seed, p, v) :: |p| >= d + 1 {
      var p :| IsPath(s, neigh, seed, p, v) && |p| == d + 1;
      PathInBall(s, neigh, seed, p, v);
      if d > 0 && v in Ball(s, neigh, seed, d - 1) {
        var q := BallHasPath(s, neigh, seed, v, d - 1);
        assert false;
      }
    }
  }

  /** A vertex has one distance. */
  lemma DistanceUnique(s: seq<nat>, neigh: (nat, nat) -> bool, seed: nat, v: nat, d: nat, e: nat)
    requires Distance(s, neigh, seed, v, d) && Distance(s, neigh, seed, v, e)
    ensures d == e
  {
    if d < e {
      BallGrows(s, neigh, seed, d, e - 1);
    } else if e < d {
      BallGrows(s, neigh, seed, e, d - 1);
    }
  }

  /** A set that holds the seed and what its members see in `s` holds every ball. */
  lemma ClosedHasBalls(s: seq<nat>, neigh: (nat, nat) -> bool, seed: nat, xs: set<nat>, d: nat)
    requires seed in xs && Closed(s, neigh, xs, xs)
    ensures Ball(s, neigh, seed, d) <= xs
  {
  }

  datatype Entry = Entry(level: nat, id: nat)

  /** The order of the tuples in the priority queue. */
  predicate Before(a: Entry, b: Entry) {
    a.level < b.level || (a.level == b.level && a.id < b.id)
  }

  /** `std::priority_queue::top` as an index. */
  method Top(q: seq<Entry>) returns (at: nat)
    requires q != []
    ensures at < |q| && forall l | 0 <= l < |q| :: q[l] == q[at] || Before(q[at], q[l])
  {
    at := 0;
    for m := 1 to |q|
      invariant at < m && forall l | 0 <= l < m :: q[l] == q[at] || Before(q[at], q[l])
    {
      if Before(q[m], q[at]) {
        at := m;
      }
    }
  }

  ghost function Ids(es: seq<Entry>): set<nat> {
    set e | e in es :: e.id
  }

  ghost predicate Rightly(s: seq<nat>, neigh: (nat, nat) -> bool, seed: nat, es: seq<Entry>) {
    forall e | e in es :: e.id in s && Distance(s, neigh, seed, e.id, e.level)
  }

  ghost predicate Once(es: seq<Entry>) {
    forall i, j | 0 <= i < j < |es| :: es[i].id != es[j].id
  }

  ghost predicate Sorted(es: seq<Entry>) {
    forall i, j | 0 <= i < j < |es| :: Before(es[i], es[j])
  }

  /** What the vertices in `xs` see has been seen. */
  ghost predicate Closed(s: seq<nat>, neigh: (nat, nat) -> bool, xs: set<nat>, seen: set<nat>) {
    forall u, v | u in xs && v in s && neigh(u, v) :: v in seen
  }

  /** `done` in the order popped, `q` waiting. */
  ghost predicate Entries(s: seq<nat>, neigh: (nat, nat) -> bool, seed: nat, done: seq<Entry>, q: seq<Entry>) {
    && Rightly(s, neigh, seed, done) && Rightly(s, neigh, seed, q)
    && Once(done) && Once(q) && Ids(done) !! Ids(q)
    && seed in Ids(done) + Ids(q) && Sorted(done)
  }

  /** Entries wait on at most two levels, after all that is done. */
  ghost predicate Waiting(done: seq<Entry>, q: seq<Entry>) {
    && (forall i, e | 0 <= i < |done| && e in q :: Before(done[i], e))
    && (forall a, b | a in q && b in q :: a.level <= b.level + 1)
  }

  /** The search between two pops. */
  ghost predicate Search(s: seq<nat>, neigh: (nat, nat) -> bool, seed: nat, done: seq<Entry>, q: seq<Entry>) {
    && Entries(s, neigh, seed, done, q) && Waiting(done, q)
    && Closed(s, neigh, Ids(done), Ids(done) + Ids(q))
  }

  /** Everything closer than the waiting entries is done, so everything as close has been seen. */
  lemma SeenSoFar(s: seq<nat>, neigh: (nat, nat) -> bool, seed: nat, done: seq<Entry>, q: seq<Entry>, d: nat)
    requires Search(s, neigh, seed, done, q) && forall e | e in q :: e.level >= d
    ensures Ball(s, neigh, seed, d) <= Ids(done) + Ids(q)
    decreases d
  {
    if d > 0 {
      SeenSoFar(s, neigh, seed, done, q, d - 1);
      var near := Ball(s, neigh, seed, d - 1);
      forall v | v in Ball(s, neigh, seed, d) && v !in near
        ensures v in Ids(done) + Ids(q)
      {
        var u :| u in near && neigh(u, v);
        NearIsDone(s, neigh, seed, done, q, d, u);
      }
    }
  }

  lemma NearIsDone(s: seq<nat>, neigh: (nat, nat) -> bool, seed: nat, done: seq<Entry>, q: seq<Entry>, d: nat, u: nat)
    requires Rightly(s, neigh, seed, q) && d > 0 && (forall e | e in q :: e.level >= d)
    requires u in Ball(s, neigh, seed, d - 1) && u in Ids(done) + Ids(q)
    ensures u in Ids(done)
  {
    if u in Ids(q) {
      var e :| e in q && e.id == u;
      BallGrows(s, neigh, seed, d - 1, e.level - 1);
      assert false;
    }
  }

  /** With nothing waiting, all that can be reached is done. */
  lemma SearchEnds(s: seq<nat>, neigh: (nat, nat) -> bool, seed: nat, done: seq<Entry>, d: nat)
    requires Search(s, neigh, seed, done, [])
    ensures Ball(s, neigh, seed, d) <= Ids(done)
  {
    ClosedHasBalls(s, neigh, seed, Ids(done), d);
  }

  lemma IdsConcat(a: seq<Entry>, b: seq<Entry>)
    ensures Ids(a + b) == Ids(a) + Ids(b)
  {
  }

  /** Distinct vertices of `s`: at most as many as `s` has. */
  lemma OnceFits(s: seq<nat>, es: seq<Entry>)
    requires Once(es) && forall e | e in es :: e.id in s
    ensures |es| <= |s|
  {
    var ids := seq(|es|, i requires 0 <= i < |es| => es[i].id);
    NoDupCardinality(ids);
    assert forall x | x in ids :: x in s by {
      assert forall i | 0 <= i < |es| :: es[i] in es;
    }
    SubsetCardinality(Elems(ids), Elems(s));
    ElemsFit(s);
  }

  lemma ElemsFit(s: seq<nat>)
    ensures |Elems(s)| <= |s|
  {
    if s == [] {
      assert Elems(s) == {};
    } else {
      ElemsFit(s[1..]);
      assert Elems(s) == {s[0]} + Elems(s[1..]);
    }
  }

  /** What may wait while `p` is looked at. */
  ghost predicate Next(p: Entry, q: seq<Entry>) {
    forall e | e in q :: Before(p, e) && e.level <= p.level + 1
  }

  ghost predicate LookedAt(s: seq<nat>, neigh: (nat, nat) -> bool, id: nat, n: nat, seen: set<nat>)
    requires n <= |s|
  {
    forall l | 0 <= l < n && neigh(id, s[l]) :: s[l] in seen
  }

  /** While `p`, the last of `done`, is looking at `s`; it has looked at the first `n`. */
  ghost predicate Looking(s: seq<nat>, neigh: (nat, nat) -> bool, seed: nat, done: seq<Entry>, p: Entry, q: seq<Entry>, n: nat)
    requires n <= |s|
  {
    && Entries(s, neigh, seed, done, q) && Next(p, q) && Last(done, p)
    && Ball(s, neigh, seed, p.level) <= Ids(done) + Ids(q)
    && Closed(s, neigh, Ids(done) - {p.id}, Ids(done) + Ids(q))
    && LookedAt(s, neigh, p.id, n, Ids(done) + Ids(q))
  }

  ghost predicate Last(done: seq<Entry>, p: Entry) {
    done != [] && done[|done| - 1] == p
  }

  lemma Popped(q: seq<Entry>, at: nat)
    requires at < |q| && Once(q)
    ensures var rest := q[..at] + q[at + 1..];
            && Ids(rest) == Ids(q) - {q[at].id} && Once(rest)
            && (forall e | e in rest :: e in q && e != q[at])
  {
    var rest := q[..at] + q[at + 1..];
    forall x
      ensures x in Ids(rest) <==> x in Ids(q) && x != q[at].id
    {
      if x in Ids(q) && x != q[at].id {
        var l :| 0 <= l < |q| && q[l].id == x;
        assert q[l] in rest by {
          if l < at {
            assert rest[l] == q[l];
          } else {
            assert rest[l - 1] == q[l];
          }
        }
      }
    }
  }

  lemma PopEntries(s: seq<nat>, neigh: (nat, nat) -> bool, seed: nat, done: seq<Entry>, q: seq<Entry>, at: nat)
    requires Entries(s, neigh, seed, done, q) && Waiting(done, q) && at < |q|
    ensures Entries(s, neigh, seed, done + [q[at]], q[..at] + q[at + 1..])
    ensures Ids(done + [q[at]]) == Ids(done) + {q[at].id}
    ensures Ids(q[..at] + q[at + 1..]) == Ids(q) - {q[at].id}
  {
    var p := q[at];
    Popped(q, at);
    IdsConcat(done, [p]);
    assert Ids([p]) == {p.id};
    assert p in q && p.id in Ids(q);
    assert forall e | e in done :: e.id in Ids(done);
  }

  lemma PopStep(s: seq<nat>, neigh: (nat, nat) -> bool, seed: nat, done: seq<Entry>, q: seq<Entry>, at: nat)
    requires Search(s, neigh, seed, done, q) && at < |q|
    requires forall l | 0 <= l < |q| :: q[l] == q[at] || Before(q[at], q[l])
    ensures Looking(s, neigh, seed, done + [q[at]], q[at], q[..at] + q[at + 1..], 0)
    ensures Ids(done + [q[at]]) + Ids(q[..at] + q[at + 1..]) == Ids(done) + Ids(q)
  {
    PopEntries(s, neigh, seed, done, q, at);
    Popped(q, at);
    assert q[at] in q && q[at].id in Ids(q);
    SeenSoFar(s, neigh, seed, done, q, q[at].level);
  }

  lemma AddEntry(s: seq<nat>, neigh: (nat, nat) -> bool, seed: nat, done: seq<Entry>, q: seq<Entry>, e: Entry)
    requires Entries(s, neigh, seed, done, q)
    requires e.id in s && e.id !in Ids(done) + Ids(q) && Distance(s, neigh, seed, e.id, e.level)
    ensures Entries(s, neigh, seed, done, q + [e]) && Ids(q + [e]) == Ids(q) + {e.id}
  {
    IdsConcat(q, [e]);
    assert Ids([e]) == {e.id};
    assert forall x | x in q :: x.id in Ids(q);
  }

  lemma FoundDistance(s: seq<nat>, neigh: (nat, nat) -> bool, seed: nat, done: seq<Entry>, p: Entry, q: seq<Entry>, n: nat)
    requires n < |s| && Looking(s, neigh, seed, done, p, q, n)
    requires neigh(p.id, s[n]) && s[n] !in Ids(done) + Ids(q)
    ensures Distance(s, neigh, seed, s[n], p.level + 1)
  {
    assert p in done;
    assert NextTo(neigh, Ball(s, neigh, seed, p.level), s[n]);
  }

  lemma SeeStep(s: seq<nat>, neigh: (nat, nat) -> bool, seed: nat, done: seq<Entry>, p: Entry, q: seq<Entry>, n: nat)
    requires n < |s| && Looking(s, neigh, seed, done, p, q, n)
    requires neigh(p.id, s[n]) && s[n] !in Ids(done) + Ids(q)
    ensures Looking(s, neigh, seed, done, p, q + [Entry(p.level + 1, s[n])], n + 1)
    ensures Ids(q + [Entry(p.level + 1, s[n])]) == Ids(q) + {s[n]}
  {
    FoundDistance(s, neigh, seed, done, p, q, n);
    AddEntry(s, neigh, seed, done, q, Entry(p.level + 1, s[n]));
  }

  lemma LookedStep(s: seq<nat>, neigh: (nat, nat) -> bool, seed: nat, done: seq<Entry>, p: Entry, q: seq<Entry>)
    requires Looking(s, neigh, seed, done, p, q, |s|)
    ensures Search(s, neigh, seed, done, q)
  {
    AllWait(done, p, q);
    NowClosed(s, neigh, p.id, Ids(done), Ids(done) + Ids(q));
  }

  lemma AllWait(done: seq<Entry>, p: Entry, q: seq<Entry>)
    requires Sorted(done) && Last(done, p) && Next(p, q)
    ensures Waiting(done, q)
  {
    forall i, e | 0 <= i < |done| && e in q
      ensures Before(done[i], e)
    {
      assert i < |done| - 1 ==> Before(done[i], p);
    }
  }

  lemma NowClosed(s: seq<nat>, neigh: (nat, nat) -> bool, id: nat, xs: set<nat>, seen: set<nat>)
    requires Closed(s, neigh, xs - {id}, seen) && LookedAt(s, neigh, id, |s|, seen)
    ensures Closed(s, neigh, xs, seen)
  {
    forall u, v | u in xs && v in s && neigh(u, v)
      ensures v in seen
    {
      var l :| 0 <= l < |s| && s[l] == v;
      assert u == id ==> neigh(id, s[l]);
    }
  }

  ghost predicate Marked(s: seq<nat>, visited: seq<bool>, seen: set<nat>) {
    |visited| == |s| && forall i | 0 <= i < |s| :: visited[i] <==> s[i] in seen
  }

  /** The two vectors returned, read together. */
  ghost predicate Lists(done: seq<Entry>, sorted: seq<nat>, level: seq<nat>) {
    && |done| == |sorted| == |level|
    && forall i | 0 <= i < |done| :: done[i] == Entry(level[i], sorted[i])
  }

  /** The loop over `s` for one vertex. */
  method Look(s: seq<nat>, neigh: (nat, nat) -> bool, ghost seed: nat, ghost done: seq<Entry>, p: Entry, q0: seq<Entry>,
      visited0: seq<bool>) returns (q: seq<Entry>, visited: seq<bool>)
    requires NoDup(s) && Looking(s, neigh, seed, done, p, q0, 0)
    requires Marked(s, visited0, Ids(done) + Ids(q0))
    ensures Looking(s, neigh, seed, done, p, q, |s|) && Marked(s, visited, Ids(done) + Ids(q))
  {
    q, visited := q0, visited0;
    for i := 0 to |s|
      invariant Looking(s, neigh, seed, done, p, q, i) && Marked(s, visited, Ids(done) + Ids(q))
    {
      if !visited[i] && neigh(p.id, s[i]) {
        SeeStep(s, neigh, seed, done, p, q, i);
        q := q + [Entry(p.level + 1, s[i])];
        visited := visited[i := true];
      }
    }
  }

  lemma StartSearch(s: seq<nat>, neigh: (nat, nat) -> bool, seed: nat)
    requires seed in s
    ensures Search(s, neigh, seed, [], [Entry(0, seed)]) && Ids([]) + Ids([Entry(0, seed)]) == {seed}
  {
    assert Ids([Entry(0, seed)]) == {seed} && Ids([]) == {};
  }

  method Resort(s: seq<nat>, seed: nat, neigh: (nat, nat) -> bool) returns (sorted: seq<nat>, level: seq<nat>)
    requires NoDup(s) && seed in s
    ensures |sorted| == |level| && NoDup(sorted)
    ensures forall v: nat :: v in sorted <==> Reachable(s, neigh, seed, v)
    ensures forall i | 0 <= i < |sorted| :: forall d: nat :: Distance(s, neigh, seed, sorted[i], d) <==> d == level[i]
    ensures forall i, j | 0 <= i < j < |sorted| :: Before(Entry(level[i], sorted[i]), Entry(level[j], sorted[j]))
  {
    var seedIndex := 0;
    while s[seedIndex] != seed
      invariant seedIndex < |s| && seed in s[seedIndex..]
      decreases |s| - seedIndex
    {
      assert s[seedIndex..] == [s[seedIndex]] + s[seedIndex + 1..];
      seedIndex := seedIndex + 1;
    }
    var visited := seq(|s|, i => i == seedIndex);
    var q := [Entry(0, seed)];
    ghost var done: seq<Entry> := [];
    sorted, level := [], [];
    StartSearch(s, neigh, seed);
    while q != []
      invariant Search(s, neigh, seed, done, q)
      invariant Marked(s, visited, Ids(done) + Ids(q)) && Lists(done, sorted, level)
      decreases |s| - |done|
    {
      var at := Top(q);
      PopStep(s, neigh, seed, done, q, at);
      var p := q[at];
      q, visited := Look(s, neigh, seed, done + [p], p, q[..at] + q[at + 1..], visited);
      done := done + [p];
      LookedStep(s, neigh, seed, done, p, q);
      OnceFits(s, done);
      sorted := sorted + [p.id];
      level := level + [p.level];
    }
    Finished(s, neigh, seed, done, sorted, level);
  }

  lemma Finished(s: seq<nat>, neigh: (nat, nat) -> bool, seed: nat, done: seq<Entry>, sorted: seq<nat>, level: seq<nat>)
    requires Search(s, neigh, seed, done, []) && Lists(done, sorted, level)
    ensures NoDup(sorted)
    ensures forall v: nat :: v in sorted <==> Reachable(s, neigh, seed, v)
    ensures forall i | 0 <= i < |sorted| :: forall d: nat :: Distance(s, neigh, seed, sorted[i], d) <==> d == level[i]
    ensures forall i, j | 0 <= i < j < |sorted| :: Before(Entry(level[i], sorted[i]), Entry(level[j], sorted[j]))
  {
    ListsHold(s, neigh, seed, done, sorted, level);
    forall i, d: nat | 0 <= i < |sorted| && Distance(s, neigh, seed, sorted[i], d)
      ensures d == level[i]
    {
      DistanceUnique(s, neigh, seed, sorted[i], d, level[i]);
    }
    forall v: nat
      ensures v in sorted <==> Reachable(s, neigh, seed, v)
    {
      if Reachable(s, neigh, seed, v) {
        var d: nat :| v in Ball(s, neigh, seed, d);
        SearchEnds(s, neigh, seed, done, d);
        assert v in Elems(sorted);
      }
      if v in sorted {
        var i :| 0 <= i < |sorted| && sorted[i] == v;
        assert v in Ball(s, neigh, seed, level[i]);
      }
    }
  }

  lemma ListsHold(s: seq<nat>, neigh: (nat, nat) -> bool, seed: nat, done: seq<Entry>, sorted: seq<nat>, level: seq<nat>)
    requires Lists(done, sorted, level) && Once(done) && Rightly(s, neigh, seed, done) && Sorted(done)
    ensures NoDup(sorted) && Elems(sorted) == Ids(done)
    ensures forall i | 0 <= i < |sorted| :: Distance(s, neigh, seed, sorted[i], level[i])
    ensures forall i, j | 0 <= i < j < |sorted| :: Before(Entry(level[i], sorted[i]), Entry(level[j], sorted[j]))
  {
    forall i | 0 <= i < |sorted|
      ensures done[i] in done && sorted[i] in Ids(done)
    {
    }
    forall v | v in Ids(done)
      ensures v in sorted
    {
      var e :| e in done && e.id == v;
      var i :| 0 <= i < |done| && done[i] == e;
      assert sorted[i] == v;
    }
  }
}
