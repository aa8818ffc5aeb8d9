/**
 The list of ranges as a set of addresses: what each allocation function and
 each free adds and removes, what it reports, and for which arguments that is
 what its description in the header promises.
 */
module RangeSets {
  import opened Words
  import opened VirtualRanges

  // ---------------------------------------------------------------------------
  // Sets of addresses and the shape of the list
  // ---------------------------------------------------------------------------

  ghost predicate Covers(list: seq<Range>, a: nat) {
    exists k :: 0 <= k < |list| && list[k].base <= a < list[k].End()
  }

  /** Some address of the block is allocated. */
  ghost predicate Overlaps(list: seq<Range>, frame: nat, bytes: nat) {
    exists a: nat :: frame <= a < frame + bytes && Covers(list, a)
  }

  predicate Aligned(r: Range) {
    r.base % 0x1000 == 0 && r.length % 0x1000 == 0 && r.End() < WORD
  }

  /** Page-aligned entries in increasing order, no two touching. Entries may be empty. */
  ghost predicate Ordered(list: seq<Range>) {
    && (forall k | 0 <= k < |list| :: Aligned(list[k]))
    && (forall k | 0 <= k && k + 1 < |list| :: list[k].End() < list[k + 1].base)
  }

  /** list' has exactly the addresses of list and those of the block. */
  ghost predicate Adds(list: seq<Range>, list': seq<Range>, frame: nat, bytes: nat) {
    forall a: nat :: Covers(list', a) <==> Covers(list, a) || frame <= a < frame + bytes
  }

  ghost predicate Removes(list: seq<Range>, list': seq<Range>, frame: nat, bytes: nat) {
    forall a: nat :: Covers(list', a) <==> Covers(list, a) && !(frame <= a < frame + bytes)
  }

  /** A non-empty entry other than the first starts at the key: the search
      stops before it. */
  ghost predicate StartsLater(list: seq<Range>, key: nat) {
    exists k :: 1 <= k < |list| && list[k].base == key && list[k].length > 0
  }

  /** No entry other than the first starts in the block. */
  ghost predicate NoBaseIn(list: seq<Range>, frame: nat, bytes: nat) {
    forall k | 1 <= k < |list| :: !(frame <= list[k].base < frame + bytes)
  }

  lemma {:induction false} OrderedApart(list: seq<Range>, i: nat, j: nat)
    requires Ordered(list) && i < j < |list|
    ensures list[i].End() < list[j].base
    decreases j
  {
    if i < j - 1 {
      OrderedApart(list, i, j - 1);
    }
  }

  lemma CoversConcat(xs: seq<Range>, ys: seq<Range>, a: nat)
    ensures Covers(xs + ys, a) <==> Covers(xs, a) || Covers(ys, a)
  {
    if Covers(xs, a) {
      var k :| 0 <= k < |xs| && xs[k].base <= a < xs[k].End();
      assert (xs + ys)[k] == xs[k];
    }
    if Covers(ys, a) {
      var k :| 0 <= k < |ys| && ys[k].base <= a < ys[k].End();
      assert (xs + ys)[|xs| + k] == ys[k];
    }
  }

  /** Replacing entries i..j by mid. */
  function Spliced(list: seq<Range>, i: nat, j: nat, mid: seq<Range>): seq<Range>
    requires i <= j <= |list|
  {
    list[..i] + mid + list[j..]
  }

  lemma SpliceAdds(list: seq<Range>, i: nat, j: nat, mid: seq<Range>, frame: nat, bytes: nat)
    requires i <= j <= |list| && Adds(list[i..j], mid, frame, bytes)
    ensures Adds(list, Spliced(list, i, j, mid), frame, bytes)
  {
    forall a: nat ensures Covers(Spliced(list, i, j, mid), a) <==> Covers(list, a) || frame <= a < frame + bytes {
      CoversConcat(list[..i] + mid, list[j..], a);
      CoversConcat(list[..i], mid, a);
      assert list == list[..i] + list[i..j] + list[j..];
      CoversConcat(list[..i] + list[i..j], list[j..], a);
      CoversConcat(list[..i], list[i..j], a);
    }
  }

  lemma SpliceAligned(list: seq<Range>, i: nat, j: nat, mid: seq<Range>)
    requires i <= j <= |list|
    requires (forall k | 0 <= k < |list| :: Aligned(list[k])) && (forall k | 0 <= k < |mid| :: Aligned(mid[k]))
    ensures forall k | 0 <= k < |Spliced(list, i, j, mid)| :: Aligned(Spliced(list, i, j, mid)[k])
  {
    hide Aligned;
    var r := Spliced(list, i, j, mid);
    forall k | 0 <= k < |r| ensures Aligned(r[k]) {
      if i <= k < i + |mid| { assert r[k] == mid[k - i]; }
      else if k >= i + |mid| { assert r[k] == list[k - i - |mid| + j]; }
    }
  }

  lemma SpliceOrdered(list: seq<Range>, i: nat, j: nat, mid: seq<Range>)
    requires Ordered(list) && i <= j <= |list| && Ordered(mid) && mid != []
    requires i > 0 ==> list[i - 1].End() < mid[0].base
    requires j < |list| ==> mid[|mid| - 1].End() < list[j].base
    ensures Ordered(Spliced(list, i, j, mid))
  {
    hide Aligned;
    SpliceAligned(list, i, j, mid);
    var r := Spliced(list, i, j, mid);
    forall k | 0 <= k && k + 1 < |r| ensures r[k].End() < r[k + 1].base {
      if k + 1 < i {
        assert r[k] == list[k] && r[k + 1] == list[k + 1];
      } else if k + 1 == i {
        assert r[k] == list[k] && r[k + 1] == mid[0];
      } else if k + 1 < i + |mid| {
        assert r[k] == mid[k - i] && r[k + 1] == mid[k + 1 - i];
      } else if k + 1 == i + |mid| {
        assert r[k] == mid[|mid| - 1] && r[k + 1] == list[j];
      } else {
        var l := k - i - |mid| + j;
        assert r[k] == list[l] && r[k + 1] == list[l + 1];
      }
    }
  }

  lemma CoversOne(r: Range, a: nat)
    ensures Covers([r], a) <==> r.base <= a < r.End()
  {
    if r.base <= a < r.End() {
      assert [r][0] == r;
    }
  }

  lemma CoversTwo(r: Range, s: Range, a: nat)
    ensures Covers([r, s], a) <==> r.base <= a < r.End() || s.base <= a < s.End()
  {
    assert [r, s] == [r] + [s];
    CoversConcat([r], [s], a);
    CoversOne(r, a);
    CoversOne(s, a);
  }

  // ---------------------------------------------------------------------------
  // The shared pieces
  // ---------------------------------------------------------------------------

  lemma GrownAdds(v: VMap, k: nat, bytes: nat)
    requires k < |v.list|
    ensures Adds(v.list, Grown(v, k, bytes).list, v.list[k].End(), bytes)
  {
    var r := v.list[k];
    var g := r.(length := r.length + bytes);
    assert Grown(v, k, bytes).list == Spliced(v.list, k, k + 1, [g]);
    assert v.list[k..k + 1] == [r];
    forall a: nat ensures Covers([g], a) <==> Covers([r], a) || r.End() <= a < r.End() + bytes {
      CoversOne(g, a);
      CoversOne(r, a);
    }
    SpliceAdds(v.list, k, k + 1, [g], r.End(), bytes);
  }

  lemma MergedAdds(v: VMap, k: nat)
    requires v.Shaped() && v.HasNext(k) && v.list[k].End() == v.list[k + 1].base
    ensures Adds(v.list, Merged(v, k).list, 0, 0)
  {
    var r, n := v.list[k], v.list[k + 1];
    var mid := [r.(length := r.length + n.length)];
    assert Merged(v, k).list == Spliced(v.list, k, k + 2, mid);
    assert v.list[k..k + 2] == [r, n];
    forall a: nat ensures Covers(mid, a) <==> Covers([r, n], a) {
      CoversOne(mid[0], a);
      CoversTwo(r, n, a);
    }
    SpliceAdds(v.list, k, k + 2, mid, 0, 0);
  }

  lemma ExtendAdds(v: VMap, k: nat, bytes: nat)
    requires v.Shaped() && k < |v.list|
    ensures Adds(v.list, Extended(v, k, bytes).list, v.list[k].End(), bytes)
    ensures Extended(v, k, bytes).list != [] && Extended(v, k, bytes).list[0].base == v.list[0].base
  {
    var g := Grown(v, k, bytes);
    GrownAdds(v, k, bytes);
    if g.HasNext(k) && g.list[k].End() == g.list[k + 1].base {
      MergedAdds(g, k);
    }
  }

  lemma GrownAligned(r: Range, bytes: nat)
    requires Aligned(r) && bytes % 0x1000 == 0 && r.End() + bytes < WORD
    ensures Aligned(r.(length := r.length + bytes))
  {
  }

  lemma JoinedAligned(r: Range, n: Range)
    requires Aligned(r) && Aligned(n) && r.End() == n.base
    ensures Aligned(r.(length := r.length + n.length)) && r.(length := r.length + n.length).End() == n.End()
  {
  }

  lemma OneOrdered(r: Range)
    requires Aligned(r)
    ensures Ordered([r])
  {
  }

  lemma ExtendOrdered(v: VMap, k: nat, bytes: nat)
    requires v.Shaped() && k < |v.list| && Ordered(v.list)
    requires bytes % 0x1000 == 0 && v.list[k].End() + bytes < WORD
    requires v.HasNext(k) ==> v.list[k].End() + bytes <= v.list[k + 1].base
    ensures Ordered(Extended(v, k, bytes).list)
  {
    hide Aligned, VMap.Shaped, Spliced;
    var r := v.list[k];
    var g := r.(length := r.length + bytes);
    GrownAligned(r, bytes);
    if v.HasNext(k) && g.End() == v.list[k + 1].base {
      var n := v.list[k + 1];
      JoinedAligned(g, n);
      var j := g.(length := g.length + n.length);
      OneOrdered(j);
      ExtendedIs(v, k, bytes);
      SpliceOrdered(v.list, k, k + 2, [j]);
    } else {
      OneOrdered(g);
      ExtendedIs(v, k, bytes);
      SpliceOrdered(v.list, k, k + 1, [g]);
    }
  }

  lemma ExtendedIs(v: VMap, k: nat, bytes: nat)
    requires v.Shaped() && k < |v.list|
    ensures var g := v.list[k].(length := v.list[k].length + bytes);
            Extended(v, k, bytes).list ==
              if v.HasNext(k) && g.End() == v.list[k + 1].base
              then Spliced(v.list, k, k + 2, [g.(length := g.length + v.list[k + 1].length)])
              else Spliced(v.list, k, k + 1, [g])
  {
  }

  lemma LowerAdds(v: VMap, k: nat, bytes: nat)
    requires k < |v.list| && bytes <= v.list[k].base
    ensures Adds(v.list, Lowered(v, k, bytes).list, v.list[k].base - bytes, bytes)
  {
    var r := v.list[k];
    var g := r.(base := r.base - bytes, length := r.length + bytes);
    assert Lowered(v, k, bytes).list == Spliced(v.list, k, k + 1, [g]);
    assert v.list[k..k + 1] == [r];
    forall a: nat ensures Covers([g], a) <==> Covers([r], a) || r.base - bytes <= a < r.base {
      CoversOne(g, a);
      CoversOne(r, a);
    }
    SpliceAdds(v.list, k, k + 1, [g], r.base - bytes, bytes);
  }

  lemma LowerOrdered(v: VMap, k: nat, bytes: nat)
    requires 0 < k < |v.list| && bytes <= v.list[k].base && Ordered(v.list)
    requires bytes % 0x1000 == 0 && v.list[k - 1].End() < v.list[k].base - bytes
    ensures Ordered(Lowered(v, k, bytes).list)
  {
    var r := v.list[k];
    var g := r.(base := r.base - bytes, length := r.length + bytes);
    assert Lowered(v, k, bytes).list == Spliced(v.list, k, k + 1, [g]);
    SpliceOrdered(v.list, k, k + 1, [g]);
  }

  lemma InsertAdds(v: VMap, k: nat, base: nat, length: nat)
    requires v.Shaped() && k < |v.list|
    ensures var o := Insert(v, k, base, length);
            && o.result == (if v.HasSlot() then 0 else -1)
            && (o.result == -1 ==> o.v == v)
            && (o.result == 0 ==> Adds(v.list, o.v.list, base, length) && o.v.list[0] == v.list[0])
  {
    var o := Insert(v, k, base, length);
    if v.HasSlot() {
      var r := o.v.list[k + 1];
      assert o.v.list == Spliced(v.list, k + 1, k + 1, [r]);
      forall a: nat ensures Covers([r], a) <==> Covers(v.list[k + 1..k + 1], a) || base <= a < base + length {
        CoversOne(r, a);
      }
      SpliceAdds(v.list, k + 1, k + 1, [r], base, length);
    }
  }

  lemma InsertOrdered(v: VMap, k: nat, base: nat, length: nat)
    requires v.Shaped() && k < |v.list| && Ordered(v.list)
    requires base % 0x1000 == 0 && length % 0x1000 == 0 && base + length < WORD
    requires v.list[k].End() < base && (v.HasNext(k) ==> base + length < v.list[k + 1].base)
    ensures Ordered(Insert(v, k, base, length).v.list)
  {
    var o := Insert(v, k, base, length);
    if v.HasSlot() {
      var r := o.v.list[k + 1];
      assert o.v.list == Spliced(v.list, k + 1, k + 1, [r]);
      SpliceOrdered(v.list, k + 1, k + 1, [r]);
    }
  }

  lemma PlaceAdds(v: VMap, k: nat, frame: nat, bytes: nat)
    requires v.Shaped() && k < |v.list|
    ensures var o := Place(v, k, frame, bytes);
            && o.frame == frame && (o.result == 0 || o.result == -1)
            && (o.result == 0 ==> Adds(v.list, o.v.list, frame, bytes))
            && (o.result == -1 ==> o.v == v && !v.HasSlot())
            && o.v.list != [] && o.v.list[0].base == v.list[0].base
  {
    if v.list[k].End() == frame {
      ExtendAdds(v, k, bytes);
    } else if v.HasNext(k) && v.list[k + 1].base == frame + bytes {
      LowerAdds(v, k + 1, bytes);
    } else {
      InsertAdds(v, k, frame, bytes);
    }
  }

  /** Where the block ends before the next entry the list stays ordered. */
  lemma PlaceOrdered(v: VMap, k: nat, frame: nat, bytes: nat)
    requires v.Shaped() && k < |v.list| && Ordered(v.list)
    requires frame % 0x1000 == 0 && bytes % 0x1000 == 0 && bytes > 0 && frame + bytes < WORD
    requires v.list[k].End() <= frame && (v.HasNext(k) ==> frame + bytes <= v.list[k + 1].base)
    ensures Ordered(Place(v, k, frame, bytes).v.list)
  {
    if v.list[k].End() == frame {
      ExtendOrdered(v, k, bytes);
    } else if v.HasNext(k) && v.list[k + 1].base == frame + bytes {
      LowerOrdered(v, k + 1, bytes);
    } else {
      InsertOrdered(v, k, frame, bytes);
    }
  }

  /** Whether the key is allocated can be read off the entry found and its
      successor. */
  lemma FindIs(list: seq<Range>, key: nat)
    requires Ordered(list) && list != []
    ensures var k := Find(list, key, 0);
            && (list[0].base <= key ==> list[k].base <= key)
            && (StartsLater(list, key) <==> k + 1 < |list| && list[k + 1].base == key && list[k + 1].length > 0)
            && (Covers(list, key) <==> list[k].base <= key < list[k].End() || StartsLater(list, key))
            && (StartsLater(list, key) ==> list[k].End() < key)
            && (key < list[0].base ==> k == 0)
  {
    hide Aligned;
    var k := Find(list, key, 0);
    if k > 0 {
      OrderedApart(list, 0, k);
    }
    FindStarts(list, key);
    FindCovers(list, key);
    hide Covers, StartsLater, Ordered;
  }

  lemma FindStarts(list: seq<Range>, key: nat)
    requires Ordered(list) && list != []
    ensures var k := Find(list, key, 0);
            StartsLater(list, key) <==> k + 1 < |list| && list[k + 1].base == key && list[k + 1].length > 0
  {
    NotElsewhere(list, key);
    hide Ordered;
    var k := Find(list, key, 0);
    if StartsLater(list, key) {
      var j :| 1 <= j < |list| && list[j].base == key && list[j].length > 0;
      assert j == k + 1;
    }
  }

  lemma FindCovers(list: seq<Range>, key: nat)
    requires Ordered(list) && list != []
    ensures var k := Find(list, key, 0);
            Covers(list, key) <==> list[k].base <= key < list[k].End() || (k + 1 < |list| && list[k + 1].base == key && list[k + 1].length > 0)
  {
    NotElsewhere(list, key);
    hide Ordered;
    var k := Find(list, key, 0);
    if Covers(list, key) {
      var j :| 0 <= j < |list| && list[j].base <= key < list[j].End();
      assert j == k || j == k + 1;
    }
  }

  lemma NotElsewhere(list: seq<Range>, key: nat)
    requires Ordered(list) && list != []
    ensures forall j | 0 <= j < |list| && j != Find(list, key, 0) && j != Find(list, key, 0) + 1 ::
              !(list[j].base <= key < list[j].End()) && (j > 0 ==> list[j].base != key)
  {
    hide Aligned;
    var k := Find(list, key, 0);
    forall j | 0 <= j < |list| && j != k && j != k + 1
      ensures !(list[j].base <= key < list[j].End()) && (j > 0 ==> list[j].base != key)
    {
      if j < k { OrderedApart(list, j, k); } else { OrderedApart(list, k + 1, j); }
    }
  }

  /** No entry starting in the block, the successor starts after it. */
  lemma NextBeyond(list: seq<Range>, k: nat, key: nat, bytes: nat)
    requires list != [] && k == Find(list, key, 0) && NoBaseIn(list, key, bytes)
    ensures k + 1 < |list| ==> key + bytes <= list[k + 1].base
  {
  }

  // ---------------------------------------------------------------------------
  // page_virtual_alloc_at
  // ---------------------------------------------------------------------------

  /** memory.h: 1 if already allocated, 0 and exactly this page added, -1 and
      nothing changed. */
  ghost predicate AllocAtContract(v: VMap, frame: nat, o: Outcome) {
    && (o.result == 1 <==> Covers(v.list, frame))
    && (o.result == 0 ==> Adds(v.list, o.v.list, frame, PAGE))
    && (o.result != 0 ==> o.v == v)
  }

  /** The contract is met exactly for addresses not below the first entry at
      which no later non-empty entry starts. */
  lemma AllocAtExact(v: VMap, frame: nat)
    requires v.Shaped() && v.list != [] && Ordered(v.list)
    ensures AllocAtContract(v, frame, AllocAt(v, frame)) <==> v.list[0].base <= frame && !StartsLater(v.list, frame)
  {
    var k := Find(v.list, frame, 0);
    FindIs(v.list, frame);
    if v.list[k].End() <= frame {
      PlaceAdds(v, k, frame, PAGE);
    }
  }

  /** No later entry starts at a page address exactly if the successor of the
      entry found does not. */
  lemma BaseFound(list: seq<Range>, key: nat)
    requires list != [] && Ordered(list) && key % 0x1000 == 0
    ensures var k := Find(list, key, 0);
            && (NoBaseIn(list, key, PAGE) <==> !(k + 1 < |list| && list[k + 1].base == key))
            && (!NoBaseIn(list, key, PAGE) ==> list[k].End() < key)
  {
    var k := Find(list, key, 0);
    if !NoBaseIn(list, key, PAGE) {
      var j :| 1 <= j < |list| && key <= list[j].base < key + PAGE;
      SamePageBase(list[j].base, key);
      NotElsewhere(list, key);
      assert Aligned(list[j]);
    }
  }

  lemma SamePageBase(base: nat, key: nat)
    requires key % 0x1000 == 0 && key <= base < key + PAGE
    ensures base % 0x1000 == 0 ==> base == key
  {
  }

  /** A block inserted in front of an entry that starts where it does overlaps it in order. */
  lemma InsertDisorders(v: VMap, k: nat, frame: nat, bytes: nat)
    requires v.Shaped() && v.HasNext(k) && v.list[k].End() < frame && v.list[k + 1].base == frame && bytes > 0 && v.HasSlot()
    ensures Place(v, k, frame, bytes) == Insert(v, k, frame, bytes) && Insert(v, k, frame, bytes).result == 0
    ensures !Ordered(Insert(v, k, frame, bytes).v.list)
  {
    var l := Insert(v, k, frame, bytes).v.list;
    assert l[k + 1].base == frame && l[k + 1].length == bytes && l[k + 2] == v.list[k + 1];
    assert !(l[k + 1].End() < l[k + 2].base);
  }

  /** The list stays in order exactly if no later entry, empty or not, starts at
      the page, or no slot is left to insert another one in front of it. */
  lemma AllocAtOrderedIff(v: VMap, frame: nat)
    requires v.Shaped() && v.list != [] && Ordered(v.list) && frame % 0x1000 == 0 && frame + PAGE < WORD
    ensures Ordered(AllocAt(v, frame).v.list) <==> NoBaseIn(v.list, frame, PAGE) || !v.HasSlot()
    ensures AllocAt(v, frame).v.list != [] && AllocAt(v, frame).v.list[0].base == v.list[0].base
  {
    hide Aligned, Covers, Adds;
    var k := Find(v.list, frame, 0);
    BaseFound(v.list, frame);
    PlaceAdds(v, k, frame, PAGE);
    if v.list[k].End() <= frame {
      if NoBaseIn(v.list, frame, PAGE) {
        NextBeyond(v.list, k, frame, PAGE);
        PlaceOrdered(v, k, frame, PAGE);
      } else if v.HasSlot() {
        InsertDisorders(v, k, frame, PAGE);
      }
    }
  }

  // ---------------------------------------------------------------------------
  // page_virtual_alloc_after
  // ---------------------------------------------------------------------------

  /** The next free address at or after the base. */
  ghost predicate NextFree(list: seq<Range>, base: nat, a: nat) {
    base <= a && !Covers(list, a) && forall x: nat | base <= x < a :: Covers(list, x)
  }

  /** memory.h: the next available page after the base. */
  ghost predicate AllocAfterContract(v: VMap, base: nat, o: Outcome) {
    && (o.result == 0 || o.result == -1)
    && (o.result == 0 ==> NextFree(v.list, base, o.frame) && Adds(v.list, o.v.list, o.frame, PAGE))
    && (o.result == -1 ==> o.v == v)
  }

  lemma AllocAfterExact(v: VMap, base: nat)
    requires v.Shaped() && v.list != [] && Ordered(v.list)
    ensures AllocAfterContract(v, base, AllocAfter(v, base))
            <==> v.list[0].base <= base && (StartsLater(v.list, base) ==> !v.HasSlot())
  {
    hide Ordered, Covers, StartsLater, NextFree, Adds, Extended, Place, VMap.HasSlot;
    var k := Find(v.list, base, 0);
    FindIs(v.list, base);
    if v.list[k].End() >= base {
      NextFreeIs(v.list, base, k);
      ExtendAdds(v, k, PAGE);
    } else {
      NextFreeInGap(v.list, base, k);
      PlaceAdds(v, k, base, PAGE);
      if StartsLater(v.list, base) {
        InsertsBefore(v, k, base);
      }
    }
  }

  lemma InsertsBefore(v: VMap, k: nat, base: nat)
    requires v.Shaped() && v.HasNext(k) && v.list[k].End() < base && v.list[k + 1].base == base
    ensures Place(v, k, base, PAGE).result == if v.HasSlot() then 0 else -1
  {
  }

  /** Between the entry found and its successor. */
  lemma NextFreeInGap(list: seq<Range>, base: nat, k: nat)
    requires Ordered(list) && list != [] && k == Find(list, base, 0) && list[k].End() < base
    ensures list[0].base <= base && (NextFree(list, base, base) <==> !Covers(list, base))
  {
    hide Aligned, Covers;
    if k > 0 { OrderedApart(list, 0, k); }
  }

  lemma NextFreeIs(list: seq<Range>, base: nat, k: nat)
    requires Ordered(list) && list != [] && k == Find(list, base, 0) && list[k].End() >= base
    ensures NextFree(list, base, list[k].End()) <==> list[0].base <= base
  {
    FindIs(list, base);
    FreeAtEnd(list, k);
    EntryCovers(list, k);
    if base < list[0].base {
      NothingBelow(list, base);
      assert base < list[k].End();
    }
  }

  lemma NothingBelow(list: seq<Range>, a: nat)
    requires Ordered(list) && list != [] && a < list[0].base
    ensures !Covers(list, a)
  {
    forall j | 0 <= j < |list| ensures list[j].base > a {
      if j > 0 { OrderedApart(list, 0, j); }
    }
  }

  lemma EntryCovers(list: seq<Range>, k: nat)
    requires k < |list|
    ensures forall a: nat | list[k].base <= a < list[k].End() :: Covers(list, a)
  {
  }

  /** The first address after an entry is free. */
  lemma FreeAtEnd(list: seq<Range>, k: nat)
    requires Ordered(list) && k < |list|
    ensures !Covers(list, list[k].End())
  {
    forall j | 0 <= j < |list| ensures !(list[j].base <= list[k].End() < list[j].End()) {
      if j < k { OrderedApart(list, j, k); }
      if j > k { OrderedApart(list, k, j); }
    }
  }

  /** The same for page_virtual_alloc_after. */
  lemma AllocAfterOrderedIff(v: VMap, base: nat)
    requires v.Shaped() && v.list != [] && Ordered(v.list)
    requires base % 0x1000 == 0 && AfterAddress(v.list, base) + PAGE < WORD
    ensures Ordered(AllocAfter(v, base).v.list) <==> NoBaseIn(v.list, base, PAGE) || !v.HasSlot()
    ensures AllocAfter(v, base).v.list != [] && AllocAfter(v, base).v.list[0].base == v.list[0].base
  {
    hide Aligned, Covers, Adds;
    var k := Find(v.list, base, 0);
    BaseFound(v.list, base);
    AlignedGap(v.list, k);
    if v.list[k].End() >= base {
      ExtendAdds(v, k, PAGE);
      ExtendOrdered(v, k, PAGE);
    } else {
      PlaceAdds(v, k, base, PAGE);
      if NoBaseIn(v.list, base, PAGE) {
        NextBeyond(v.list, k, base, PAGE);
        PlaceOrdered(v, k, base, PAGE);
      } else if v.HasSlot() {
        InsertDisorders(v, k, base, PAGE);
      }
    }
  }

  lemma AlignedGap(list: seq<Range>, k: nat)
    requires Ordered(list) && k < |list|
    ensures list[k].End() % 0x1000 == 0
    ensures k + 1 < |list| ==> list[k].End() + PAGE <= list[k + 1].base
  {
  }

  /** The search key separates entry e from the next one. */
  lemma {:induction false} FindAt(list: seq<Range>, key: nat, e: nat, k: nat)
    requires k <= e < |list| && (e + 1 < |list| ==> list[e + 1].base >= key)
    requires forall j | k < j <= e :: list[j].base < key
    ensures Find(list, key, k) == e
    decreases e - k
  {
    if k < e {
      FindAt(list, key, e, k + 1);
    }
  }
}
