/** Smallest-degree-last ordering with buckets (permute/permute.hpp). */
module Degeneracy {
  import opened Graphs

  /** Neighbours of `v` that are not yet taken out. */
  ghost function Left(g: Graph, v: nat, out: set<nat>): set<nat> {
    set u: nat | u < g.Size() && g.Has(u) && g.Adj(v, u) && u !in out
  }

  ghost predicate IsOrder(g: Graph, perm: seq<nat>) {
    |perm| == g.Size() && NoDup(perm) && forall v | v in perm :: g.Has(v)
  }

  /** Number of neighbours that come later. */
  ghost function Later(g: Graph, perm: seq<nat>, i: nat): nat
    requires i < |perm|
  {
    |Left(g, perm[i], Elems(perm[..i]))|
  }

  ghost predicate AtMost(g: Graph, perm: seq<nat>, d: nat) {
    forall i: nat | i < |perm| :: Later(g, perm, i) <= d
  }

  /** Each vertex has the fewest neighbours among those that are left. */
  ghost predicate MinFirst(g: Graph, perm: seq<nat>) {
    forall i: nat | i < |perm| :: LeastAt(g, perm, i)
  }

  ghost predicate LeastAt(g: Graph, perm: seq<nat>, i: nat)
    requires i < |perm|
  {
    forall w: nat | g.Has(w) && w !in perm[..i] :: Later(g, perm, i) <= |Left(g, w, Elems(perm[..i]))|
  }

  lemma OrderHasAll(g: Graph, perm: seq<nat>, v: nat)
    requires IsOrder(g, perm) && g.Has(v)
    ensures v in perm
  {
    NoDupCardinality(perm);
    AllVertices(g);
    SubsetCardinality(Elems(perm), g.Vertices());
    assert v in Elems(perm);
  }

  lemma AllVertices(g: Graph)
    ensures |g.Vertices()| == g.Size()
  {
    UptoSize(g, g.Size());
    assert Upto(g, g.Size()) == g.Vertices();
  }

  ghost function Upto(g: Graph, n: nat): set<nat> {
    set u: nat | u < n && g.Has(u)
  }

  lemma UptoSize(g: Graph, n: nat)
    requires n <= g.Size()
    ensures |Upto(g, n)| == n
  {
    if n > 0 {
      UptoSize(g, n - 1);
      assert Upto(g, n) == Upto(g, n - 1) + {n - 1};
    } else {
      assert Upto(g, 0) == {};
    }
  }

  /** The first vertex of `perm` outside `out`. */
  lemma FirstOutside(g: Graph, perm: seq<nat>, out: set<nat>, v: nat) returns (m: nat)
    requires IsOrder(g, perm) && g.Has(v) && v !in out
    ensures m < |perm| && perm[m] !in out && Elems(perm[..m]) <= out
  {
    OrderHasAll(g, perm, v);
    m := 0;
    while perm[m] in out
      invariant m < |perm| && Elems(perm[..m]) <= out
      invariant exists j :: m <= j < |perm| && perm[j] == v
      decreases |perm| - m
    {
      PrefixStep(perm, m);
      m := m + 1;
    }
  }

  /** No ordering has fewer later neighbours at its worst vertex. */
  lemma MinFirstIsBest(g: Graph, perm: seq<nat>, other: seq<nat>, d: nat)
    requires IsOrder(g, perm) && MinFirst(g, perm) && IsOrder(g, other) && AtMost(g, other, d)
    ensures AtMost(g, perm, d)
  {
    forall i: nat | i < |perm|
      ensures Later(g, perm, i) <= d
    {
      var out := Elems(perm[..i]);
      assert perm[i] !in out && LeastAt(g, perm, i);
      var m := FirstOutside(g, other, out, perm[i]);
      assert other[m] in other && other[m] !in perm[..i];
      SubsetCardinality(Left(g, other[m], out), Left(g, other[m], Elems(other[..m])));
      assert Later(g, other, m) <= d;
    }
  }

  /** Vertices by current degree, and where each one is in its bucket. */
  datatype Buckets = Buckets(d: seq<seq<nat>>, degs: seq<nat>, positions: seq<nat>)

  /** `live` are the vertices in the buckets. */
  ghost predicate Consistent(b: Buckets, n: nat, live: set<nat>) {
    && |b.d| == |b.degs| == |b.positions| == n
    && (forall v | v in live :: Filed(b, n, v))
    && (forall a: nat, p: nat | a < n && p < |b.d[a]| :: FiledAt(b, live, a, p))
  }

  ghost predicate Filed(b: Buckets, n: nat, v: nat)
    requires |b.d| == |b.degs| == |b.positions| == n
  {
    v < n && b.degs[v] < n && b.positions[v] < |b.d[b.degs[v]]| && b.d[b.degs[v]][b.positions[v]] == v
  }

  ghost predicate FiledAt(b: Buckets, live: set<nat>, a: nat, p: nat)
    requires a < |b.d| == |b.degs| == |b.positions| && p < |b.d[a]|
  {
    var v := b.d[a][p];
    v in live && v < |b.degs| && b.degs[v] == a && b.positions[v] == p
  }

  /** `d[a].push_back(v)` with the position noted. */
  function Push(b: Buckets, a: nat, v: nat): Buckets
    requires a < |b.d| && v < |b.degs| && v < |b.positions|
  {
    Buckets(b.d[a := b.d[a] + [v]], b.degs[v := a], b.positions[v := |b.d[a]|])
  }

  /** Swap `v` with the last vertex of its bucket and pop it. */
  function Drop(b: Buckets, v: nat): Buckets
    requires v < |b.degs| && v < |b.positions| && b.degs[v] < |b.d| && b.positions[v] < |b.d[b.degs[v]]|
    requires forall x | x in b.d[b.degs[v]] :: x < |b.positions|
  {
    var row := b.d[b.degs[v]];
    var last := row[|row| - 1];
    assert last in row;
    Buckets(b.d[b.degs[v] := row[b.positions[v] := last][..|row| - 1]], b.degs, b.positions[last := b.positions[v]])
  }

  lemma PushKeeps(b: Buckets, n: nat, live: set<nat>, a: nat, v: nat)
    requires Consistent(b, n, live) && a < n && v < n && v !in live
    ensures Consistent(Push(b, a, v), n, live + {v})
  {
    var b' := Push(b, a, v);
    forall a': nat, p: nat | a' < n && p < |b'.d[a']|
      ensures FiledAt(b', live + {v}, a', p)
    {
      if p < |b.d[a']| {
        assert FiledAt(b, live, a', p);
      }
    }
    forall u | u in live + {v}
      ensures Filed(b', n, u)
    {
      if u != v {
        assert Filed(b, n, u);
      }
    }
  }

  lemma DropKeeps(b: Buckets, n: nat, live: set<nat>, v: nat)
    requires Consistent(b, n, live) && v in live
    ensures Filed(b, n, v) && forall x | x in b.d[b.degs[v]] :: x < n
    ensures Consistent(Drop(b, v), n, live - {v})
  {
    assert Filed(b, n, v);
    var a, p := b.degs[v], b.positions[v];
    var row := b.d[a];
    forall x | x in row
      ensures x < n
    {
      var q: nat :| q < |row| && row[q] == x;
      assert FiledAt(b, live, a, q);
    }
    var b' := Drop(b, v);
    assert FiledAt(b, live, a, |row| - 1);
    forall a': nat, q: nat | a' < n && q < |b'.d[a']|
      ensures FiledAt(b', live - {v}, a', q)
    {
      assert FiledAt(b, live, a', q);
      assert FiledAt(b, live, a, p);
    }
    forall u | u in live - {v}
      ensures Filed(b', n, u)
    {
      assert Filed(b, n, u);
    }
  }

  ghost predicate DegreesAre(g: Graph, degs: seq<nat>, out: set<nat>) {
    |degs| == g.Size() && forall v: nat | g.Has(v) && v !in out :: degs[v] == |Left(g, v, out)|
  }

  /** While `v` is being taken out: the neighbours in `rest` still count it. */
  ghost predicate DegreesBut(g: Graph, degs: seq<nat>, out: set<nat>, rest: seq<nat>) {
    |degs| == g.Size()
    && forall x: nat | g.Has(x) && x !in out :: degs[x] == |Left(g, x, out)| + if x in rest then 1 else 0
  }

  lemma TakeOut(g: Graph, degs: seq<nat>, out: set<nat>, v: nat)
    requires g.Valid() && DegreesAre(g, degs, out) && g.Has(v) && v !in out
    ensures DegreesBut(g, degs, out + {v}, g.adj[v])
  {
    forall x: nat | g.Has(x) && x !in out + {v}
      ensures degs[x] == |Left(g, x, out + {v})| + if x in g.adj[v] then 1 else 0
    {
      if g.Adj(v, x) {
        assert g.Adj(x, v);
        assert Left(g, x, out) == Left(g, x, out + {v}) + {v};
      } else {
        assert !g.Adj(x, v);
        assert Left(g, x, out) == Left(g, x, out + {v});
      }
    }
  }

  lemma InitialDegrees(g: Graph, degs: seq<nat>)
    requires g.Valid() && |degs| == g.Size() && forall v: nat | g.Has(v) :: degs[v] == |g.adj[v]|
    ensures DegreesAre(g, degs, {})
  {
    forall v: nat | g.Has(v)
      ensures degs[v] == |Left(g, v, {})|
    {
      IncreasingIsNoDup(g.adj[v]);
      NoDupCardinality(g.adj[v]);
      assert Left(g, v, {}) == Elems(g.adj[v]) by {
        forall u: nat
          ensures u in Left(g, v, {}) <==> u in g.adj[v]
        {
          assert g.Adj(v, u) <==> u in g.adj[v];
        }
      }
    }
  }

  lemma DegreeIsSmall(g: Graph, v: nat, out: set<nat>)
    requires g.Valid() && g.Has(v)
    ensures |Left(g, v, out)| < g.Size()
  {
    AllVertices(g);
    assert v !in Left(g, v, out);
    SubsetCardinality(Left(g, v, out) + {v}, g.Vertices());
  }

  ghost predicate EmptyBelow(d: seq<seq<nat>>, j: nat) {
    forall a | 0 <= a < |d| && a < j :: d[a] == []
  }

  /** All vertices but `out` are filed under their current degree. */
  ghost predicate InOrder(g: Graph, b: Buckets, out: set<nat>) {
    Consistent(b, g.Size(), g.Vertices() - out) && DegreesAre(g, b.degs, out)
  }

  /** `degeneracy` is the largest number of later neighbours so far. */
  ghost predicate Worst(g: Graph, perm: seq<nat>, degeneracy: nat) {
    && AtMost(g, perm, degeneracy)
    && (perm != [] ==> exists i: nat :: i < |perm| && Later(g, perm, i) == degeneracy)
    && (perm == [] ==> degeneracy == 0)
  }

  ghost predicate Chosen(g: Graph, perm: seq<nat>) {
    NoDup(perm) && forall v | v in perm :: g.Has(v)
  }

  lemma SamePrefix(g: Graph, perm: seq<nat>, v: nat, l: nat)
    requires l <= |perm|
    ensures (perm + [v])[..l] == perm[..l]
    ensures l < |perm| ==> Later(g, perm + [v], l) == Later(g, perm, l)
    ensures l == |perm| ==> Later(g, perm + [v], l) == |Left(g, v, Elems(perm))|
  {
    if l == |perm| {
      assert perm[..l] == perm;
    }
  }

  lemma MinFirstStep(g: Graph, perm: seq<nat>, v: nat)
    requires MinFirst(g, perm)
    requires forall w: nat | g.Has(w) && w !in perm :: |Left(g, v, Elems(perm))| <= |Left(g, w, Elems(perm))|
    ensures MinFirst(g, perm + [v])
  {
    var perm' := perm + [v];
    forall i: nat | i < |perm'|
      ensures LeastAt(g, perm', i)
    {
      SamePrefix(g, perm, v, i);
      if i == |perm| {
        assert perm[..i] == perm;
      } else {
        assert LeastAt(g, perm, i);
      }
    }
  }

  lemma WorstStep(g: Graph, perm: seq<nat>, degeneracy: nat, v: nat, d: nat)
    requires Worst(g, perm, degeneracy) && d == |Left(g, v, Elems(perm))|
    ensures Worst(g, perm + [v], if degeneracy < d then d else degeneracy)
  {
    var d' := if degeneracy < d then d else degeneracy;
    forall i: nat | i < |perm| + 1
      ensures Later(g, perm + [v], i) <= d'
    {
      SamePrefix(g, perm, v, i);
    }
    SamePrefix(g, perm, v, |perm|);
    if degeneracy < d || perm == [] {
      assert Later(g, perm + [v], |perm|) == d';
    } else {
      var i: nat :| i < |perm| && Later(g, perm, i) == degeneracy;
      SamePrefix(g, perm, v, i);
    }
  }

  /** A vertex in the first bucket that is not empty has the fewest neighbours left. */
  lemma FirstBucketIsLeast(g: Graph, b: Buckets, out: set<nat>, v: nat)
    requires InOrder(g, b, out) && g.Has(v) && v !in out && EmptyBelow(b.d, b.degs[v])
    ensures b.degs[v] == |Left(g, v, out)|
    ensures forall w: nat | g.Has(w) && w !in out :: |Left(g, v, out)| <= |Left(g, w, out)|
  {
    forall w: nat | g.Has(w) && w !in out
      ensures b.degs[v] <= |Left(g, w, out)|
    {
      assert w in g.Vertices() - out;
      assert Filed(b, g.Size(), w);
    }
  }

  lemma Strict(a: set<nat>, b: set<nat>)
    requires a <= b && |a| != |b|
    ensures a < b
  {
    assert b <= a ==> a == b;
  }

  /** Some vertex is left, so a bucket from `j` on is not empty. */
  lemma BucketAhead(g: Graph, b: Buckets, perm: seq<nat>, j: nat)
    requires InOrder(g, b, Elems(perm)) && EmptyBelow(b.d, j) && Chosen(g, perm) && |perm| < g.Size()
    ensures j < g.Size()
    ensures b.d[j] == [] ==> j + 1 < g.Size() && EmptyBelow(b.d, j + 1)
  {
    AllVertices(g);
    NoDupCardinality(perm);
    var w: nat :| g.Has(w) && w !in perm by {
      assert Elems(perm) <= g.Vertices();
      Strict(Elems(perm), g.Vertices());
      ProperHasExtra(Elems(perm), g.Vertices());
    }
    assert w in g.Vertices() - Elems(perm);
    assert Filed(b, g.Size(), w);
    assert b.d[b.degs[w]] != [];
  }

  /** Files every vertex under its degree. */
  method FileAll(g: Graph) returns (b: Buckets)
    requires g.Valid()
    ensures InOrder(g, b, {})
  {
    var n := g.Size();
    b := Buckets(seq(n, _ => []), seq(n, _ => 0), seq(n, _ => 0));
    for i := 0 to n
      invariant Consistent(b, n, Upto(g, i))
      invariant forall v: nat | v < i :: b.degs[v] == |g.adj[v]|
    {
      DegreeOfAll(g, i);
      PushKeeps(b, n, Upto(g, i), |g.adj[i]|, i);
      assert Upto(g, i) + {i} == Upto(g, i + 1);
      b := Push(b, |g.adj[i]|, i);
    }
    InitialDegrees(g, b.degs);
    assert Upto(g, n) == g.Vertices() - {};
  }

  lemma DegreeOfAll(g: Graph, v: nat)
    requires g.Valid() && g.Has(v)
    ensures |g.adj[v]| < g.Size()
  {
    DegreeIsSmall(g, v, {});
    InitialDegrees(g, seq(g.Size(), u requires 0 <= u < g.Size() => |g.adj[u]|));
  }

  /** Moves one neighbour to the bucket below: swap with the last one, pop, push. */
  method Lower(b0: Buckets, n: nat, ghost live: set<nat>, x: nat) returns (b: Buckets)
    requires Consistent(b0, n, live) && x in live && x < n && b0.degs[x] > 0
    ensures Consistent(b, n, live) && b.degs == b0.degs[x := b0.degs[x] - 1]
    ensures b0.degs[x] < n && b0.d[b0.degs[x]] != []
    ensures forall a | 0 <= a < n && a != b0.degs[x] - 1 :: b0.d[a] == [] ==> b.d[a] == []
  {
    DropKeeps(b0, n, live, x);
    var d, degs, positions := b0.d, b0.degs, b0.positions;
    var p, row := positions[x], d[degs[x]];
    var last := row[|row| - 1];
    assert last in row;
    row := row[p := last][|row| - 1 := x];
    positions := positions[last := p];
    d := d[degs[x] := row[..|row| - 1]];
    assert Buckets(d, degs, positions) == Drop(b0, x);
    PushKeeps(Drop(b0, x), n, live - {x}, degs[x] - 1, x);
    assert live - {x} + {x} == live;
    degs := degs[x := degs[x] - 1];
    d := d[degs[x] := d[degs[x]] + [x]];
    positions := positions[x := |d[degs[x]]| - 1];
    b := Buckets(d, degs, positions);
    assert b == Push(Drop(b0, x), degs[x], x);
  }

  /** `v` is out: each remaining neighbour has one neighbour less. */
  method LowerNeighbours(g: Graph, v: nat, b0: Buckets, used: seq<bool>, ghost out: set<nat>, j: nat) returns (b: Buckets)
    requires g.Valid() && g.Has(v) && v in out && Consistent(b0, g.Size(), g.Vertices() - out)
    requires DegreesBut(g, b0.degs, out, g.adj[v]) && EmptyBelow(b0.d, j)
    requires Marks(g, used, out)
    ensures InOrder(g, b, out) && EmptyBelow(b.d, if j > 0 then j - 1 else 0)
  {
    b := b0;
    var nb := g.adj[v];
    for m := 0 to |nb|
      invariant Consistent(b, g.Size(), g.Vertices() - out)
      invariant DegreesBut(g, b.degs, out, nb[m..])
      invariant EmptyBelow(b.d, if j > 0 then j - 1 else 0)
    {
      var x := nb[m];
      assert g.Adj(v, x);
      assert nb[m..] == [x] + nb[m + 1..];
      IncreasingIsNoDup(nb);
      if !used[x] {
        b := Lower(b, g.Size(), g.Vertices() - out, x);
      }
    }
  }

  ghost predicate Marks(g: Graph, used: seq<bool>, out: set<nat>) {
    |used| == g.Size() && forall u: nat | g.Has(u) :: used[u] <==> u in out
  }

  lemma ChosenStep(g: Graph, perm: seq<nat>, v: nat)
    requires Chosen(g, perm) && g.Has(v) && v !in perm
    ensures Chosen(g, perm + [v]) && Elems(perm + [v]) == Elems(perm) + {v}
  {
  }

  ghost predicate Progress(g: Graph, perm: seq<nat>, degeneracy: nat) {
    Chosen(g, perm) && MinFirst(g, perm) && Worst(g, perm, degeneracy)
  }

  lemma StartProgress(g: Graph)
    ensures Progress(g, [], 0) && Elems<nat>([]) == {}
  {
  }

  lemma ProgressStep(g: Graph, perm: seq<nat>, degeneracy: nat, v: nat, j: nat)
    requires Progress(g, perm, degeneracy) && g.Has(v) && v !in perm && j == |Left(g, v, Elems(perm))|
    requires forall w: nat | g.Has(w) && w !in perm :: j <= |Left(g, w, Elems(perm))|
    ensures Progress(g, perm + [v], if degeneracy < j then j else degeneracy)
    ensures Elems(perm + [v]) == Elems(perm) + {v}
  {
    MinFirstStep(g, perm, v);
    WorstStep(g, perm, degeneracy, v, j);
    ChosenStep(g, perm, v);
  }

  lemma BestOfAll(g: Graph, perm: seq<nat>)
    requires IsOrder(g, perm) && MinFirst(g, perm)
    ensures forall other, d | IsOrder(g, other) && AtMost(g, other, d) :: AtMost(g, perm, d)
  {
    forall other, d | IsOrder(g, other) && AtMost(g, other, d)
      ensures AtMost(g, perm, d)
    {
      MinFirstIsBest(g, perm, other, d);
    }
  }

  /** Popping the last vertex of a bucket needs no swap. */
  lemma DropLast(b: Buckets, v: nat)
    requires v < |b.degs| && v < |b.positions| && b.degs[v] < |b.d|
    requires var row := b.d[b.degs[v]]; row != [] && b.positions[v] == |row| - 1 && row[|row| - 1] == v
    requires forall x | x in b.d[b.degs[v]] :: x < |b.positions|
    ensures var row := b.d[b.degs[v]]; Drop(b, v) == b.(d := b.d[b.degs[v] := row[..|row| - 1]])
  {
    var row := b.d[b.degs[v]];
    assert row[|row| - 1 := v][..|row| - 1] == row[..|row| - 1];
    assert b.positions[v := b.positions[v]] == b.positions;
  }

  /** Skips the empty buckets. */
  method FirstBucket(g: Graph, b: Buckets, ghost perm: seq<nat>, j0: nat) returns (j: nat)
    requires InOrder(g, b, Elems(perm)) && EmptyBelow(b.d, j0) && Chosen(g, perm) && |perm| < g.Size()
    ensures j0 <= j < g.Size() && EmptyBelow(b.d, j) && b.d[j] != []
  {
    j := j0;
    BucketAhead(g, b, perm, j);
    while b.d[j] == []
      invariant j0 <= j < g.Size() && EmptyBelow(b.d, j)
      decreases g.Size() - j
    {
      BucketAhead(g, b, perm, j);
      j := j + 1;
    }
  }

  /** The vertex last filed in the first bucket that is not empty goes next. */
  method TakeNext(g: Graph, b0: Buckets, used0: seq<bool>, ghost perm: seq<nat>, j: nat)
      returns (v: nat, b: Buckets, used: seq<bool>)
    requires g.Valid() && InOrder(g, b0, Elems(perm)) && j < g.Size() && EmptyBelow(b0.d, j) && b0.d[j] != []
    requires Marks(g, used0, Elems(perm))
    ensures g.Has(v) && v !in perm && |Left(g, v, Elems(perm))| == j
    ensures forall w: nat | g.Has(w) && w !in perm :: j <= |Left(g, w, Elems(perm))|
    ensures InOrder(g, b, Elems(perm) + {v}) && EmptyBelow(b.d, if j > 0 then j - 1 else 0)
    ensures Marks(g, used, Elems(perm) + {v})
  {
    ghost var out := Elems(perm);
    var row := b0.d[j];
    v := row[|row| - 1];
    assert FiledAt(b0, g.Vertices() - out, j, |row| - 1);
    FirstBucketIsLeast(g, b0, out, v);
    DropKeeps(b0, g.Size(), g.Vertices() - out, v);
    TakeOut(g, b0.degs, out, v);
    b := b0.(d := b0.d[j := row[..|row| - 1]]);
    DropLast(b0, v);
    assert g.Vertices() - out - {v} == g.Vertices() - (out + {v});
    used := used0[v := true];
    b := LowerNeighbours(g, v, b, used, out + {v}, j);
  }

  /** `scans` is how often the search for a bucket that is not empty moves on in all. */
  method DegeneracyOrder(g: Graph) returns (perm: seq<nat>, degeneracy: nat, ghost scans: nat)
    requires g.Valid()
    ensures degeneracy <= scans <= 2 * g.Size()
    ensures IsOrder(g, perm) && MinFirst(g, perm)
    ensures Worst(g, perm, degeneracy)
    ensures forall other, d | IsOrder(g, other) && AtMost(g, other, d) :: AtMost(g, perm, d)
  {
    perm, degeneracy := [], 0;
    var b := FileAll(g);
    var used := seq(g.Size(), _ => false);
    var j := 0;
    scans := 0;
    StartProgress(g);
    for i := 0 to g.Size()
      invariant |perm| == i && Progress(g, perm, degeneracy)
      invariant InOrder(g, b, Elems(perm)) && EmptyBelow(b.d, j) && j <= g.Size()
      invariant j <= scans <= j + i && degeneracy <= scans
      invariant Marks(g, used, Elems(perm))
    {
      ghost var before := j;
      j := FirstBucket(g, b, perm, j);
      scans := scans + (j - before);
      var v;
      v, b, used := TakeNext(g, b, used, perm, j);
      ProgressStep(g, perm, degeneracy, v, j);
      perm := perm + [v];
      if degeneracy < j {
        degeneracy := j;
      }
      if j > 0 {
        j := j - 1;
      }
    }
    BestOfAll(g, perm);
  }
}
