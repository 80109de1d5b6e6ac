/** The hash set behind `are_neighs` (util/cuckoo.hpp): two buckets per key, insertion by
    eviction, and a rehash that may rehash again. The flat array is kept as one row per
    bucket; keys are unsigned numbers of `width` bits other than `missing`. */
module CuckooSet {

  function Pow2(b: nat): (p: nat)
    ensures p >= 1
  {
    if b == 0 then 1 else 2 * Pow2(b - 1)
  }

  /** Content of one bucket or of a table, without the empty slots. */
  ghost function RowKeys(row: seq<nat>, missing: nat): multiset<nat> {
    multiset(row)[missing := 0]
  }

  ghost function Content(t: seq<seq<nat>>, missing: nat): multiset<nat> {
    if t == [] then multiset{} else RowKeys(t[0], missing) + Content(t[1..], missing)
  }

  /** Every entry is in one of the two complementary buckets of its key. */
  ghost predicate Placed(t: seq<seq<nat>>, mask: nat, missing: nat) {
    forall h | 0 <= h < |t| :: RowPlaced(t[h], h, mask, missing)
  }

  ghost predicate RowPlaced(row: seq<nat>, h: nat, mask: nat, missing: nat) {
    forall pos | 0 <= pos < |row| && row[pos] != missing :: h == Hash1(row[pos], mask) || h == Hash2(row[pos], mask)
  }

  /** `k & mask` and `~k & mask`, where `mask + 1` is a power of two. */
  function Hash1(k: nat, mask: nat): (h: nat)
    ensures h <= mask
  {
    k % (mask + 1)
  }

  function Hash2(k: nat, mask: nat): (h: nat)
    ensures h <= mask
  {
    mask - Hash1(k, mask)
  }

  lemma ContentConcat(s: seq<seq<nat>>, t: seq<seq<nat>>, missing: nat)
    ensures Content(s + t, missing) == Content(s, missing) + Content(t, missing)
  {
    if s == [] {
      assert s + t == t;
    } else {
      assert (s + t)[1..] == s[1..] + t;
      ContentConcat(s[1..], t, missing);
    }
  }

  lemma ContentSplit(t: seq<seq<nat>>, h: nat, missing: nat)
    requires h < |t|
    ensures Content(t, missing) == Content(t[..h], missing) + RowKeys(t[h], missing) + Content(t[h + 1..], missing)
  {
    assert t == t[..h] + t[h..];
    ContentConcat(t[..h], t[h..], missing);
  }

  lemma ContentUpdate(t: seq<seq<nat>>, h: nat, row: seq<nat>, missing: nat)
    requires h < |t|
    ensures Content(t[h := row], missing) + RowKeys(t[h], missing) == Content(t, missing) + RowKeys(row, missing)
  {
    ContentSplit(t, h, missing);
    ContentSplit(t[h := row], h, missing);
    assert t[h := row][..h] == t[..h] && t[h := row][h + 1..] == t[h + 1..];
  }

  lemma RowUpdate(row: seq<nat>, pos: nat, x: nat, missing: nat)
    requires pos < |row|
    ensures RowKeys(row[pos := x], missing) + RowKeys([row[pos]], missing) == RowKeys(row, missing) + RowKeys([x], missing)
  {
    assert row == row[..pos] + [row[pos]] + row[pos + 1..];
    assert row[pos := x] == row[..pos] + [x] + row[pos + 1..];
  }

  /** Writing one slot. */
  function WithSlot(t: seq<seq<nat>>, h: nat, pos: nat, x: nat): seq<seq<nat>>
    requires h < |t| && pos < |t[h]|
  {
    var row: seq<nat> := t[h][pos := x];
    t[h := row]
  }

  lemma Exchange(a: multiset<nat>, a': multiset<nat>, r: multiset<nat>, r': multiset<nat>, o: multiset<nat>, n: multiset<nat>)
    requires a' + r == a + r' && r' + o == r + n
    ensures a' + o == a + n
  {
    forall v: nat
      ensures (a' + o)[v] == (a + n)[v]
    {
      assert (a' + r)[v] == (a + r')[v] && (r' + o)[v] == (r + n)[v];
    }
  }

  lemma SlotUpdate(t: seq<seq<nat>>, h: nat, pos: nat, x: nat, missing: nat)
    requires h < |t| && pos < |t[h]|
    ensures Content(WithSlot(t, h, pos, x), missing) + RowKeys([t[h][pos]], missing) == Content(t, missing) + RowKeys([x], missing)
  {
    var row: seq<nat> := t[h][pos := x];
    ContentUpdate(t, h, row, missing);
    RowUpdate(t[h], pos, x, missing);
    Exchange(Content(t, missing), Content(WithSlot(t, h, pos, x), missing), RowKeys(t[h], missing), RowKeys(row, missing),
             RowKeys([t[h][pos]], missing), RowKeys([x], missing));
  }

  lemma InRow(row: seq<nat>, x: nat, missing: nat)
    requires x != missing
    ensures x in RowKeys(row, missing) <==> exists pos :: 0 <= pos < |row| && row[pos] == x
  {
    assert x in multiset(row) <==> x in row;
  }

  /** A key of the table is in one of its own two buckets. */
  lemma InTable(t: seq<seq<nat>>, mask: nat, x: nat, missing: nat)
    requires |t| == mask + 1 && Placed(t, mask, missing) && x != missing
    ensures x in Content(t, missing) <==> x in t[Hash1(x, mask)] || x in t[Hash2(x, mask)]
  {
    if x in Content(t, missing) {
      var h := RowOf(t, x, missing);
      InRow(t[h], x, missing);
      assert RowPlaced(t[h], h, mask, missing);
    }
    if x in t[Hash1(x, mask)] {
      InRow(t[Hash1(x, mask)], x, missing);
      ContentSplit(t, Hash1(x, mask), missing);
    }
    if x in t[Hash2(x, mask)] {
      InRow(t[Hash2(x, mask)], x, missing);
      ContentSplit(t, Hash2(x, mask), missing);
    }
  }

  lemma RowOf(t: seq<seq<nat>>, x: nat, missing: nat) returns (h: nat)
    requires x in Content(t, missing)
    ensures h < |t| && x in RowKeys(t[h], missing)
  {
    if x in RowKeys(t[0], missing) {
      h := 0;
    } else {
      var r := RowOf(t[1..], x, missing);
      h := r + 1;
    }
  }

  ghost predicate Once(m: multiset<nat>) {
    forall x: nat :: m[x] <= 1
  }

  ghost predicate Rows(t: seq<seq<nat>>, mask: nat, slots: nat) {
    |t| == mask + 1 && forall h | 0 <= h < |t| :: |t[h]| == slots
  }

  /** With as many buckets as keys, the first bucket of a new key has a free slot: beside
      the key itself only its complement can be there. */
  lemma FullWidthHasRoom(t: seq<seq<nat>>, mask: nat, slots: nat, k: nat, missing: nat)
    requires Rows(t, mask, slots) && Placed(t, mask, missing) && slots >= 2
    requires Once(Content(t, missing)) && k !in Content(t, missing) && missing == mask && k < missing
    requires forall h, pos | 0 <= h < |t| && 0 <= pos < slots :: t[h][pos] <= missing
    ensures t[Hash1(k, mask)][0] == missing || t[Hash1(k, mask)][1] == missing
  {
    SmallHash(k, mask);
    assert RowPlaced(t[k], k, mask, missing);
    RowInContent(t, k, missing);
    RowHasRoom(t[k], mask, k);
  }

  lemma RowInContent(t: seq<seq<nat>>, h: nat, missing: nat)
    requires h < |t|
    ensures RowKeys(t[h], missing) <= Content(t, missing)
    ensures Once(Content(t, missing)) ==> Once(RowKeys(t[h], missing))
  {
    ContentSplit(t, h, missing);
  }

  lemma SmallHash(k: nat, mask: nat)
    requires k <= mask
    ensures Hash1(k, mask) == k && Hash2(k, mask) == mask - k
  {
  }

  lemma RowHasRoom(row: seq<nat>, mask: nat, k: nat)
    requires |row| >= 2 && k < mask && RowPlaced(row, k, mask, mask) && row[0] <= mask && row[1] <= mask
    requires Once(RowKeys(row, mask)) && k !in RowKeys(row, mask)
    ensures row[0] == mask || row[1] == mask
  {
    var rest := row[2..];
    assert row == [row[0], row[1]] + rest;
    assert multiset(row) == multiset{row[0], row[1]} + multiset(rest);
    SmallHash(row[0], mask);
    SmallHash(row[1], mask);
    assert row[0] != mask ==> row[0] in RowKeys(row, mask);
    assert row[0] != mask && row[0] == row[1] ==> RowKeys(row, mask)[row[0]] >= 2;
  }

  /** A table for the given mask. */
  ghost predicate TableFor(t: seq<seq<nat>>, mask: nat, slots: nat, missing: nat) {
    && Rows(t, mask, slots) && Placed(t, mask, missing) && Once(Content(t, missing))
    && Bounded(t, missing)
  }

  ghost predicate Bounded(t: seq<seq<nat>>, missing: nat) {
    forall h, pos | 0 <= h < |t| && 0 <= pos < |t[h]| :: t[h][pos] <= missing
  }

  lemma Singles(k: nat, missing: nat)
    ensures RowKeys([missing], missing) == multiset{}
    ensures k != missing ==> RowKeys([k], missing) == multiset{k}
  {
  }

  /** A new key goes into a free slot of one of its buckets. */
  lemma PutKeeps(t: seq<seq<nat>>, mask: nat, slots: nat, missing: nat, h: nat, pos: nat, k: nat)
    requires TableFor(t, mask, slots, missing) && k < missing && k !in Content(t, missing)
    requires h < |t| && pos < slots && t[h][pos] == missing && (h == Hash1(k, mask) || h == Hash2(k, mask))
    ensures TableFor(WithSlot(t, h, pos, k), mask, slots, missing)
    ensures Content(WithSlot(t, h, pos, k), missing) == Content(t, missing) + multiset{k}
  {
    SlotUpdate(t, h, pos, k, missing);
    Singles(k, missing);
    Singles(missing, missing);
    AddedOnce(Content(t, missing), k, Content(WithSlot(t, h, pos, k), missing));
    SlotPlaced(t, mask, missing, h, pos, k);
  }

  lemma AddedOnce(a: multiset<nat>, k: nat, b: multiset<nat>)
    requires b == a + multiset{k} && Once(a) && k !in a
    ensures Once(b)
  {
  }

  lemma SlotPlaced(t: seq<seq<nat>>, mask: nat, missing: nat, h: nat, pos: nat, k: nat)
    requires Placed(t, mask, missing) && h < |t| && pos < |t[h]|
    requires k == missing || h == Hash1(k, mask) || h == Hash2(k, mask)
    ensures Placed(WithSlot(t, h, pos, k), mask, missing)
  {
    var t' := WithSlot(t, h, pos, k);
    forall g | 0 <= g < |t'|
      ensures RowPlaced(t'[g], g, mask, missing)
    {
      assert RowPlaced(t[g], g, mask, missing);
    }
  }

  ghost function Shifted(row: seq<nat>, k: nat): seq<nat>
    requires row != []
  {
    row[1..] + [k]
  }

  lemma MovedDown(row: seq<nat>, pos: nat)
    requires 1 <= pos < |row|
    ensures var now := row[1..pos] + row[pos - 1..];
            |now| == |row| && now[pos - 1 := now[pos]] == row[1..pos + 1] + row[pos..]
  {
  }

  /** The first key of a bucket makes room for a new one at the end. */
  lemma EvictKeeps(t: seq<seq<nat>>, mask: nat, slots: nat, missing: nat, h: nat, k: nat)
    requires TableFor(t, mask, slots, missing) && k < missing && k !in Content(t, missing)
    requires h < |t| && slots > 0 && t[h][0] != missing && (h == Hash1(k, mask) || h == Hash2(k, mask))
    ensures var t' := t[h := Shifted(t[h], k)];
            && TableFor(t', mask, slots, missing)
            && Content(t', missing) + multiset{t[h][0]} == Content(t, missing) + multiset{k}
            && t[h][0] !in Content(t', missing) && t[h][0] < missing
            && (h == Hash1(t[h][0], mask) || h == Hash2(t[h][0], mask))
  {
    var row := t[h];
    var t' := t[h := Shifted(row, k)];
    ShiftContent(t, h, k, missing);
    assert RowPlaced(row, h, mask, missing);
    RowInContent(t, h, missing);
    InRow(row, row[0], missing);
    EvictedIsGone(t, t', missing, row[0], k);
    ShiftPlaced(t, mask, missing, h, k);
    ShiftRows(t, mask, slots, missing, h, k);
  }

  lemma ShiftContent(t: seq<seq<nat>>, h: nat, k: nat, missing: nat)
    requires h < |t| && t[h] != [] && t[h][0] != missing && k != missing
    ensures Content(t[h := Shifted(t[h], k)], missing) + multiset{t[h][0]} == Content(t, missing) + multiset{k}
  {
    var row := t[h];
    ContentUpdate(t, h, Shifted(row, k), missing);
    assert row == [row[0]] + row[1..];
    Exchange(Content(t, missing), Content(t[h := Shifted(row, k)], missing), RowKeys(row, missing),
             RowKeys(Shifted(row, k), missing), multiset{row[0]}, multiset{k});
  }

  lemma ShiftRows(t: seq<seq<nat>>, mask: nat, slots: nat, missing: nat, h: nat, k: nat)
    requires Rows(t, mask, slots) && Bounded(t, missing) && h < |t| && slots > 0 && k < missing
    ensures Rows(t[h := Shifted(t[h], k)], mask, slots) && Bounded(t[h := Shifted(t[h], k)], missing)
  {
    var t' := t[h := Shifted(t[h], k)];
    forall g, pos | 0 <= g < |t'| && 0 <= pos < |t'[g]|
      ensures t'[g][pos] <= missing
    {
      assert g != h ==> t'[g][pos] == t[g][pos];
      assert g == h && pos < slots - 1 ==> t'[g][pos] == t[h][pos + 1];
    }
  }

  lemma ShiftPlaced(t: seq<seq<nat>>, mask: nat, missing: nat, h: nat, k: nat)
    requires Placed(t, mask, missing) && h < |t| && t[h] != [] && (h == Hash1(k, mask) || h == Hash2(k, mask))
    ensures Placed(t[h := Shifted(t[h], k)], mask, missing)
  {
    var t' := t[h := Shifted(t[h], k)];
    forall g | 0 <= g < |t'|
      ensures RowPlaced(t'[g], g, mask, missing)
    {
      assert RowPlaced(t[g], g, mask, missing);
    }
  }

  lemma EvictedIsGone(t: seq<seq<nat>>, t': seq<seq<nat>>, missing: nat, x: nat, k: nat)
    requires Content(t', missing) + multiset{x} == Content(t, missing) + multiset{k}
    requires Once(Content(t, missing)) && k !in Content(t, missing)
    requires x in Content(t, missing)
    ensures Once(Content(t', missing)) && x !in Content(t', missing)
  {
    forall v: nat
      ensures Content(t', missing)[v] <= 1 && (v == x ==> Content(t', missing)[v] == 0)
    {
      assert (Content(t', missing) + multiset{x})[v] == (Content(t, missing) + multiset{k})[v];
    }
  }

  lemma Fewer(a: multiset<nat>, c: multiset<nat>, b: multiset<nat>)
    requires a + c == b && Once(b)
    ensures Once(a)
  {
    forall x: nat
      ensures a[x] <= 1
    {
      assert b[x] <= 1;
    }
  }

  lemma EraseContent(t: seq<seq<nat>>, h: nat, pos: nat, missing: nat)
    requires h < |t| && pos < |t[h]| && t[h][pos] != missing
    ensures Content(WithSlot(t, h, pos, missing), missing) + multiset{t[h][pos]} == Content(t, missing)
  {
    SlotUpdate(t, h, pos, missing, missing);
    Singles(t[h][pos], missing);
    Singles(missing, missing);
  }

  lemma EraseKeeps(t: seq<seq<nat>>, mask: nat, slots: nat, missing: nat, h: nat, pos: nat)
    requires TableFor(t, mask, slots, missing) && h < |t| && pos < slots && t[h][pos] != missing
    ensures TableFor(WithSlot(t, h, pos, missing), mask, slots, missing)
    ensures Content(WithSlot(t, h, pos, missing), missing) + multiset{t[h][pos]} == Content(t, missing)
  {
    var t' := WithSlot(t, h, pos, missing);
    EraseContent(t, h, pos, missing);
    Fewer(Content(t', missing), multiset{t[h][pos]}, Content(t, missing));
    SlotPlaced(t, mask, missing, h, pos, missing);
  }

  /** A bucket without the key itself and its complement is empty at full width, so the
      first search for a free slot succeeds. */
  lemma BlockedIsNarrow(t: seq<seq<nat>>, mask: nat, bits: nat, width: nat, slots: nat, k: nat, missing: nat)
    requires TableFor(t, mask, slots, missing) && slots >= 2 && k < missing && k !in Content(t, missing)
    requires mask + 1 == Pow2(bits) && bits <= width && missing == Pow2(width) - 1
    requires forall pos | 0 <= pos < slots :: t[Hash1(k, mask)][pos] != missing
    ensures bits < width
  {
    if bits == width {
      FullWidthHasRoom(t, mask, slots, k, missing);
      assert false;
    }
  }

  lemma Removed(a: multiset<nat>, k: nat, b: multiset<nat>)
    requires a + multiset{k} == b
    ensures k in b && a == b - multiset{k} && |a| == |b| - 1
  {
  }

  lemma Erased(t: seq<seq<nat>>, mask: nat, slots: nat, missing: nat, h: nat, pos: nat)
    requires TableFor(t, mask, slots, missing) && h < |t| && pos < slots && t[h][pos] != missing
    ensures var t', k := WithSlot(t, h, pos, missing), t[h][pos];
            && TableFor(t', mask, slots, missing) && k in Content(t, missing)
            && Content(t', missing) == Content(t, missing) - multiset{k} && |Content(t', missing)| == |Content(t, missing)| - 1
  {
    EraseKeeps(t, mask, slots, missing, h, pos);
    Removed(Content(WithSlot(t, h, pos, missing), missing), t[h][pos], Content(t, missing));
  }

  /** The search through one bucket, for a key or for a free slot. */
  method Find(row: seq<nat>, x: nat) returns (pos: nat)
    ensures pos <= |row|
    ensures pos < |row| ==> row[pos] == x
    ensures forall j | 0 <= j < pos :: row[j] != x
  {
    pos := 0;
    while pos < |row|
      invariant pos <= |row|
      invariant forall j | 0 <= j < pos :: row[j] != x
    {
      if row[pos] == x {
        break;
      }
      pos := pos + 1;
    }
  }

  lemma NextSlot(row: seq<nat>, i: nat, k: nat)
    requires i < |row|
    ensures k in row[..i + 1] <==> k in row[..i] || row[i] == k
  {
    assert row[..i + 1] == row[..i] + [row[i]];
  }

  /** One of the two buckets of `k` has a free slot. */
  ghost predicate HasRoom(t: seq<seq<nat>>, mask: nat, k: nat, missing: nat) {
    var h1, h2 := Hash1(k, mask), Hash2(k, mask);
    h1 < |t| && h2 < |t| && (missing in t[h1] || missing in t[h2])
  }

  /** The other bucket of a key in bucket `h`. */
  function Other(k: nat, mask: nat, h: nat): nat {
    if h == Hash2(k, mask) then Hash1(k, mask) else Hash2(k, mask)
  }

  /** Key `k` goes to bucket `h`, the first key of that bucket to its other one, and so on:
      within `steps` buckets there is one with a free slot. */
  ghost predicate Settles(t: seq<seq<nat>>, mask: nat, missing: nat, k: nat, h: nat, steps: nat)
    decreases steps
  {
    && steps > 0 && h < |t| && t[h] != []
    && (missing in t[h] || Settles(t[h := Shifted(t[h], k)], mask, missing, t[h][0], Other(t[h][0], mask, h), steps - 1))
  }

  function Bucket(useHash1: bool, k: nat, mask: nat): nat {
    if useHash1 then Hash1(k, mask) else Hash2(k, mask)
  }

  lemma SettlesStep(t: seq<seq<nat>>, mask: nat, missing: nat, k: nat, h: nat, steps: nat)
    requires steps > 0 && h < |t| && t[h] != []
    ensures missing in t[h] ==> Settles(t, mask, missing, k, h, steps)
    ensures missing !in t[h] ==>
              (Settles(t, mask, missing, k, h, steps)
               <==> Settles(t[h := Shifted(t[h], k)], mask, missing, t[h][0],
                            Bucket(h == Hash2(t[h][0], mask), t[h][0], mask), steps - 1))
  {
  }

  /** There is a place for `k` without a rehash. */
  ghost predicate Fits(t: seq<seq<nat>>, mask: nat, k: nat, missing: nat) {
    HasRoom(t, mask, k, missing) || Settles(t, mask, missing, k, Hash1(k, mask), mask)
  }

  /** One eviction is enough if the first key of the bucket finds room in its other one. */
  lemma SettlesNext(t: seq<seq<nat>>, mask: nat, slots: nat, missing: nat, k: nat, steps: nat)
    requires TableFor(t, mask, slots, missing) && slots > 0 && steps >= 2 && mask % 2 == 1
    requires t[Hash1(k, mask)][0] != missing
    requires missing in t[Other(t[Hash1(k, mask)][0], mask, Hash1(k, mask))]
    ensures Settles(t, mask, missing, k, Hash1(k, mask), steps)
  {
    var h := Hash1(k, mask);
    var evicted := t[h][0];
    assert RowPlaced(t[h], h, mask, missing);
    assert Other(evicted, mask, h) != h;
  }

  class CuckooHashSet {
    const width: nat
    const slots: nat    // bucket_size
    const missing: nat
    var ht: array<seq<nat>>
    var mask: nat
    var sz: nat
    ghost var bits: nat

    /** `16 / sizeof(T)` slots: four or two. */
    ghost predicate Params()
    {
      width >= 1 && slots >= 2 && missing == Pow2(width) - 1
    }

    ghost predicate MaskOk()
      reads `mask, `bits
    {
      Params() && bits <= width && mask + 1 == Pow2(bits)
    }

    ghost predicate Valid()
      reads this, ht
    {
      MaskOk() && TableFor(ht[..], mask, slots, missing) && sz == |Keys()|
    }

    ghost function Keys(): multiset<nat>
      reads this, ht
    {
      Content(ht[..], missing)
    }

    constructor (width: nat, slots: nat)
      requires width >= 1 && slots >= 2
      ensures Valid() && fresh(ht) && this.width == width && this.slots == slots
      ensures Keys() == multiset{}
    {
      this.width := width;
      this.slots := slots;
      this.missing := Pow2(width) - 1;
      mask := 0;
      bits := 0;
      sz := 0;
      ht := new seq<nat>[1](_ => seq(slots, _ => Pow2(width) - 1));
      new;
      EmptyTable(ht[..], mask, slots, missing);
    }

    /** The public `insert`. */
    method Insert(k: nat)
      requires Valid() && k < missing
      modifies this, ht
      ensures Valid() && (ht == old(ht) || fresh(ht))
      ensures Keys() == if k in old(Keys()) then old(Keys()) else old(Keys()) + multiset{k}
      ensures sz == old(sz) + if k in old(Keys()) then 0 else 1
      ensures bits > old(bits) <==> k !in old(Keys()) && !Fits(old(ht[..]), old(mask), k, missing)
      ensures bits == old(bits) ==> ht == old(ht) && mask == old(mask)
    {
      var found := Count(k);
      if found {
        return;
      }
      ht := InsertInto(k, ht);
      sz := sz + 1;
    }

    method Count(k: nat) returns (result: bool)
      requires Valid() && k < missing
      ensures result <==> k in Keys()
    {
      var h1 := Hash1(k, mask);
      var h2 := Hash2(k, mask);
      InTable(ht[..], mask, k, missing);
      result := false;
      for i := 0 to slots
        invariant result <==> k in ht[h1][..i] || k in ht[h2][..i]
      {
        NextSlot(ht[h1], i, k);
        NextSlot(ht[h2], i, k);
        result := result || ht[h1][i] == k || ht[h2][i] == k;
      }
      assert ht[h1][..slots] == ht[h1] && ht[h2][..slots] == ht[h2];
    }

    method Erase(k: nat)
      requires Valid() && k < missing
      modifies this, ht
      ensures Valid() && ht == old(ht)
      ensures Keys() == old(Keys()) - multiset{k}
      ensures sz == old(sz) - if k in old(Keys()) then 1 else 0
    {
      InTable(ht[..], mask, k, missing);
      var done := EraseFrom(Hash1(k, mask), k);
      if !done {
        done := EraseFrom(Hash2(k, mask), k);
      }
    }

    method EraseFrom(h: nat, k: nat) returns (done: bool)
      requires Valid() && k < missing && h < ht.Length
      modifies `sz, ht
      ensures Valid()
      ensures done <==> k in old(ht[h])
      ensures done ==> k in old(Keys()) && Keys() == old(Keys()) - multiset{k} && sz == old(sz) - 1
      ensures !done ==> ht[..] == old(ht[..]) && sz == old(sz)
    {
      var pos := Find(ht[h], k);
      done := pos < slots;
      if done {
        Erased(ht[..], mask, slots, missing, h, pos);
        ht[h] := ht[h][pos := missing];
        assert ht[..] == WithSlot(old(ht[..]), h, pos, missing);
        sz := sz - 1;
      }
    }

    /** `sz` is the number of different keys. */
    lemma SizeIsCardinality()
      requires Valid()
      ensures sz == |SetOf(Keys())|
    {
      OnceIsSet(Keys());
    }

    /** The first key moves out of a full bucket and the others one slot down. */
    method Evict(t: array<seq<nat>>, h: nat, k: nat) returns (cuckooed: nat)
      requires h < t.Length && |t[h]| == slots > 0
      modifies t
      ensures cuckooed == old(t[h][0])
      ensures t[..] == old(t[..])[h := Shifted(old(t[h]), k)]
    {
      var row := t[h];
      ghost var before, table := row, t[..];
      cuckooed := row[0];
      var pos := 1;
      while pos < slots
        invariant 1 <= pos <= slots
        invariant row == before[1..pos] + before[pos - 1..]
        invariant t[..] == table[h := row]
      {
        MovedDown(before, pos);
        row := row[pos - 1 := row[pos]];
        t[h] := row;
        pos := pos + 1;
      }
      row := row[pos - 1 := k];
      assert row == Shifted(before, k);
      t[h] := row;
    }

    /** The private `insert`. The table is the set's own or the one a rehash is filling; it
        may be replaced by a larger one. */
    method InsertInto(k0: nat, table: array<seq<nat>>) returns (t: array<seq<nat>>)
      requires MaskOk() && TableFor(table[..], mask, slots, missing)
      requires k0 < missing && k0 !in Content(table[..], missing)
      modifies `mask, `bits, table
      ensures MaskOk() && TableFor(t[..], mask, slots, missing)
      ensures Content(t[..], missing) == old(Content(table[..], missing)) + multiset{k0}
      ensures t == table || fresh(t)
      ensures if Fits(old(table[..]), old(mask), k0, missing) then t == table && bits == old(bits) && mask == old(mask)
              else bits > old(bits)
      decreases width - bits, 1
    {
      t := table;
      var placed := TryBucket(Hash1(k0, mask), k0, t);
      if placed {
        return;
      }
      BlockedIsNarrow(t[..], mask, bits, width, slots, k0, missing);
      placed := TryBucket(Hash2(k0, mask), k0, t);
      if placed {
        return;
      }
      var k, done := Displace(k0, t);
      if done {
        return;
      }
      t := Rehash(t);
      t := InsertInto(k, t);
    }

    /** Puts `k` into the first free slot of a bucket, if it has one. */
    method TryBucket(h: nat, k: nat, t: array<seq<nat>>) returns (placed: bool)
      requires MaskOk() && TableFor(t[..], mask, slots, missing)
      requires k < missing && k !in Content(t[..], missing)
      requires h < t.Length && (h == Hash1(k, mask) || h == Hash2(k, mask))
      modifies t
      ensures placed <==> missing in old(t[h])
      ensures !placed ==> t[..] == old(t[..])
      ensures placed ==> TableFor(t[..], mask, slots, missing) && Content(t[..], missing) == old(Content(t[..], missing)) + multiset{k}
    {
      var pos := Find(t[h], missing);
      placed := pos < slots;
      if placed {
        PutKeeps(t[..], mask, slots, missing, h, pos, k);
        t[h] := t[h][pos := k];
        assert t[..] == WithSlot(old(t[..]), h, pos, k);
      }
    }

    /** At most `mask` evictions; `done` if one of them found a free slot. */
    method Displace(k0: nat, t: array<seq<nat>>) returns (k: nat, done: bool)
      requires MaskOk() && TableFor(t[..], mask, slots, missing)
      requires k0 < missing && k0 !in Content(t[..], missing)
      modifies t
      ensures TableFor(t[..], mask, slots, missing)
      ensures done ==> Content(t[..], missing) == old(Content(t[..], missing)) + multiset{k0}
      ensures !done ==> k < missing && k !in Content(t[..], missing)
                        && Content(t[..], missing) + multiset{k} == old(Content(t[..], missing)) + multiset{k0}
      ensures done <==> Settles(old(t[..]), mask, missing, k0, Hash1(k0, mask), mask)
    {
      k := k0;
      var useHash1 := true;
      for i := 0 to mask
        invariant TableFor(t[..], mask, slots, missing)
        invariant k < missing && k !in Content(t[..], missing)
        invariant Content(t[..], missing) + multiset{k} == old(Content(t[..], missing)) + multiset{k0}
        invariant Settles(old(t[..]), mask, missing, k0, Hash1(k0, mask), mask)
                  == Settles(t[..], mask, missing, k, Bucket(useHash1, k, mask), mask - i)
      {
        var hash := if useHash1 then Hash1(k, mask) else Hash2(k, mask);
        SettlesStep(t[..], mask, missing, k, hash, mask - i);
        var full, cuckooed := Place(hash, k, t);
        if !full {
          return k, true;
        }
        useHash1 := hash == Hash2(cuckooed, mask);
        k := cuckooed;
      }
      done := false;
    }

    /** Puts `k` into one bucket, at the cost of its first key if the bucket is full. */
    method Place(h: nat, k: nat, t: array<seq<nat>>) returns (full: bool, cuckooed: nat)
      requires MaskOk() && TableFor(t[..], mask, slots, missing)
      requires k < missing && k !in Content(t[..], missing)
      requires h < t.Length && (h == Hash1(k, mask) || h == Hash2(k, mask))
      modifies t
      ensures TableFor(t[..], mask, slots, missing)
      ensures !full ==> Content(t[..], missing) == old(Content(t[..], missing)) + multiset{k}
      ensures full ==> cuckooed < missing && cuckooed !in Content(t[..], missing)
                       && (h == Hash1(cuckooed, mask) || h == Hash2(cuckooed, mask))
                       && Content(t[..], missing) + multiset{cuckooed} == old(Content(t[..], missing)) + multiset{k}
      ensures |old(t[h])| == slots && (full <==> missing !in old(t[h]))
      ensures full ==> cuckooed == old(t[h])[0] && t[..] == old(t[..])[h := Shifted(old(t[h]), k)]
    {
      var pos := Find(t[h], missing);
      full := pos == slots;
      if full {
        EvictKeeps(t[..], mask, slots, missing, h, k);
        cuckooed := Evict(t, h, k);
      } else {
        PutKeeps(t[..], mask, slots, missing, h, pos, k);
        cuckooed := missing;
        t[h] := t[h][pos := k];
        assert t[..] == WithSlot(old(t[..]), h, pos, k);
      }
    }

    /** Twice as many buckets, all empty. */
    method Grow() returns (t: array<seq<nat>>)
      requires MaskOk() && bits < width
      modifies `mask, `bits
      ensures MaskOk() && TableFor(t[..], mask, slots, missing) && Content(t[..], missing) == multiset{}
      ensures fresh(t) && bits == old(bits) + 1
    {
      mask := if mask == 0 then 1 else 2 * mask + 1;
      bits := bits + 1;
      t := new seq<nat>[mask + 1](_ => seq(slots, _ => missing));
      EmptyTable(t[..], mask, slots, missing);
    }

    method Rehash(table: array<seq<nat>>) returns (t: array<seq<nat>>)
      requires MaskOk() && TableFor(table[..], mask, slots, missing) && bits < width
      modifies `mask, `bits
      ensures MaskOk() && TableFor(t[..], mask, slots, missing)
      ensures Content(t[..], missing) == Content(table[..], missing)
      ensures fresh(t) && bits > old(bits)
      decreases width - bits, 0
    {
      var oldmask := mask;
      t := Grow();
      ghost var bits0, rows := bits, table[..];
      for h := 0 to oldmask + 1
        invariant MaskOk() && bits >= bits0 && fresh(t) && TableFor(t[..], mask, slots, missing)
        invariant Content(t[..], missing) == Content(rows[..h], missing)
      {
        RowMoved(rows, h, missing);
        t := MoveRow(table[h], Content(rows[..h], missing), t);
      }
      assert rows[..oldmask + 1] == rows;
    }

    ghost function Moved(row: seq<nat>, pos: nat, moved: multiset<nat>): multiset<nat>
      requires pos <= |row|
    {
      moved + RowKeys(row[..pos], missing)
    }

    lemma MoveOne(row: seq<nat>, pos: nat, moved: multiset<nat>)
      requires pos < |row| && Once(moved + RowKeys(row, missing))
      ensures Moved(row, pos + 1, moved) == Moved(row, pos, moved) + RowKeys([row[pos]], missing)
      ensures row[pos] !in Moved(row, pos, moved) || row[pos] == missing
    {
      NextKey(row, pos, moved, missing);
    }

    method MoveSlot(x: nat, t0: array<seq<nat>>) returns (t: array<seq<nat>>)
      requires MaskOk() && TableFor(t0[..], mask, slots, missing)
      requires x <= missing && (x == missing || x !in Content(t0[..], missing))
      modifies `mask, `bits, t0
      ensures MaskOk() && TableFor(t[..], mask, slots, missing)
      ensures Content(t[..], missing) == old(Content(t0[..], missing)) + RowKeys([x], missing)
      ensures t == t0 || fresh(t)
      ensures bits >= old(bits)
      decreases width - bits, 2
    {
      t := t0;
      Singles(x, missing);
      if x != missing {
        t := InsertInto(x, t);
      }
    }

    /** Moves the keys of one bucket of the old table; `moved` are those moved before. */
    method MoveRow(row: seq<nat>, ghost moved: multiset<nat>, t0: array<seq<nat>>) returns (t: array<seq<nat>>)
      requires MaskOk() && TableFor(t0[..], mask, slots, missing) && Content(t0[..], missing) == moved
      requires Once(moved + RowKeys(row, missing)) && forall pos | 0 <= pos < |row| :: row[pos] <= missing
      modifies `mask, `bits, t0
      ensures MaskOk() && TableFor(t[..], mask, slots, missing)
      ensures Content(t[..], missing) == moved + RowKeys(row, missing)
      ensures t == t0 || fresh(t)
      ensures bits >= old(bits)
      decreases width - bits, 3
    {
      t := t0;
      for pos := 0 to |row|
        invariant MaskOk() && bits >= old(bits) && TableFor(t[..], mask, slots, missing)
        invariant t == t0 || fresh(t)
        invariant Content(t[..], missing) == Moved(row, pos, moved)
      {
        MoveOne(row, pos, moved);
        t := MoveSlot(row[pos], t);
      }
      assert row[..|row|] == row;
    }
  }

  lemma RowMoved(rows: seq<seq<nat>>, h: nat, missing: nat)
    requires h < |rows| && Once(Content(rows, missing))
    ensures Content(rows[..h + 1], missing) == Content(rows[..h], missing) + RowKeys(rows[h], missing)
    ensures Once(Content(rows[..h + 1], missing))
  {
    assert rows[..h + 1] == rows[..h] + [rows[h]];
    ContentConcat(rows[..h], [rows[h]], missing);
    ContentSplit(rows, h, missing);
    Fewer(Content(rows[..h + 1], missing), Content(rows[h + 1..], missing), Content(rows, missing));
  }

  ghost function SetOf(m: multiset<nat>): set<nat> {
    set x | x in m
  }

  lemma OnceIsSet(m: multiset<nat>)
    requires Once(m)
    ensures |m| == |SetOf(m)|
    decreases |m|
  {
    if m != multiset{} {
      var x :| x in m;
      var rest := m - multiset{x};
      Fewer(rest, multiset{x}, m);
      OnceIsSet(rest);
      assert m[x] <= 1 && x !in rest;
      assert |m| == |rest| + 1 by {
        assert m == rest + multiset{x};
      }
      assert SetOf(m) == SetOf(rest) + {x} && x !in SetOf(rest);
    } else {
      assert SetOf(m) == {};
    }
  }

  lemma EmptyTable(t: seq<seq<nat>>, mask: nat, slots: nat, missing: nat)
    requires |t| == mask + 1 && forall h | 0 <= h < |t| :: t[h] == seq(slots, _ => missing)
    ensures TableFor(t, mask, slots, missing) && Content(t, missing) == multiset{}
  {
    EmptyContent(t, slots, missing);
  }

  lemma EmptyContent(t: seq<seq<nat>>, slots: nat, missing: nat)
    requires forall h | 0 <= h < |t| :: t[h] == seq(slots, _ => missing)
    ensures Content(t, missing) == multiset{}
  {
    if t != [] {
      EmptyContent(t[1..], slots, missing);
      forall x: nat
        ensures x !in RowKeys(t[0], missing)
      {
        if x != missing {
          InRow(t[0], x, missing);
        }
      }
    }
  }

  /** The next slot of the old table holds nothing, or a key not moved yet. */
  lemma NextKey(row: seq<nat>, pos: nat, moved: multiset<nat>, missing: nat)
    requires pos < |row| && Once(moved + RowKeys(row, missing))
    ensures RowKeys(row[..pos + 1], missing) == RowKeys(row[..pos], missing) + RowKeys([row[pos]], missing)
    ensures row[pos] !in moved + RowKeys(row[..pos], missing) || row[pos] == missing
  {
    assert row[..pos + 1] == row[..pos] + [row[pos]];
    assert row == row[..pos] + [row[pos]] + row[pos + 1..];
    assert RowKeys(row, missing) == RowKeys(row[..pos], missing) + RowKeys([row[pos]], missing) + RowKeys(row[pos + 1..], missing);
    Singles(row[pos], missing);
    assert (moved + RowKeys(row, missing))[row[pos]] <= 1;
  }
}
