/**
 `page_virtual_free` and `page_virtual_free_multiple`: every free that succeeds
 cuts an entry in two, and so needs a slot.
 */
module RangeFrees {
  import opened Words
  import opened VirtualRanges
  import opened RangeSets
  import FrameBitmap

  /** An aligned entry is all or nothing on a page. */
  lemma PageOfEntry(r: Range, frame: nat, a: nat)
    requires Aligned(r) && frame % 0x1000 == 0 && frame <= a < frame + PAGE
    ensures r.base <= a < r.End() <==> r.base <= frame < r.End()
    ensures frame < r.End() ==> frame + PAGE <= r.End()
  {
    AlignedSum(r.base, r.length);
    hide Aligned;
    WholePages(r.base);
    WholePages(r.End());
    WholePages(frame);
  }

  lemma WholePages(x: nat)
    requires x % 0x1000 == 0
    ensures x == 0x1000 * (x / 0x1000)
  {
  }

  lemma PageUniform(list: seq<Range>, frame: nat, a: nat)
    requires Ordered(list) && frame % 0x1000 == 0 && frame <= a < frame + PAGE
    ensures Covers(list, a) <==> Covers(list, frame)
  {
    forall k | 0 <= k < |list| ensures list[k].base <= a < list[k].End() <==> list[k].base <= frame < list[k].End() {
      PageOfEntry(list[k], frame, a);
    }
    hide Ordered, Aligned;
  }

  /** Addresses of one entry belong to no other. */
  lemma OnlyEntry(list: seq<Range>, k: nat, a: nat)
    requires Ordered(list) && k < |list| && list[k].base <= a < list[k].End()
    ensures !Covers(list[..k], a) && !Covers(list[k + 1..], a)
  {
    forall j | 0 <= j < k ensures !(list[..k][j].base <= a < list[..k][j].End()) {
      OrderedApart(list, j, k);
    }
    var rest := list[k + 1..];
    forall j | 0 <= j < |rest| ensures !(rest[j].base <= a < rest[j].End()) {
      OrderedApart(list, k, j + k + 1);
    }
  }

  /** Cutting a block out of one entry cuts it out of the list. */
  lemma SpliceRemoves(list: seq<Range>, k: nat, mid: seq<Range>, frame: nat, bytes: nat)
    requires Ordered(list) && k < |list| && list[k].base <= frame && frame + bytes <= list[k].End()
    requires Removes([list[k]], mid, frame, bytes)
    ensures Removes(list, Spliced(list, k, k + 1, mid), frame, bytes)
  {
    forall a: nat ensures Covers(Spliced(list, k, k + 1, mid), a) <==> Covers(list, a) && !(frame <= a < frame + bytes) {
      CoversConcat(list[..k] + mid, list[k + 1..], a);
      CoversConcat(list[..k], mid, a);
      assert list == list[..k] + [list[k]] + list[k + 1..];
      CoversConcat(list[..k] + [list[k]], list[k + 1..], a);
      CoversConcat(list[..k], [list[k]], a);
      if frame <= a < frame + bytes {
        OnlyEntry(list, k, a);
      }
    }
  }

  /** The entries that replace r when the block is cut out of it. */
  function Pieces(r: Range, slot: nat, frame: nat, bytes: nat): (Range, Range)
    requires r.base <= frame && frame + bytes <= r.End()
  {
    (r.(length := frame - r.base), Range(slot, frame + bytes, r.End() - frame - bytes))
  }

  lemma PiecesAligned(r: Range, slot: nat, frame: nat, bytes: nat)
    requires Aligned(r) && frame % 0x1000 == 0 && bytes % 0x1000 == 0 && bytes > 0
    requires r.base <= frame && frame + bytes <= r.End()
    ensures Ordered([Pieces(r, slot, frame, bytes).0, Pieces(r, slot, frame, bytes).1])
    ensures Ordered([Pieces(r, slot, frame, bytes).0])
  {
    hide Aligned;
    var (left, right) := Pieces(r, slot, frame, bytes);
    LeftAligned(r, frame);
    RightAligned(r, slot, frame + bytes, frame, bytes);
    assert [left, right][0] == left && [left, right][1] == right;
  }

  lemma LeftAligned(r: Range, frame: nat)
    requires Aligned(r) && frame % 0x1000 == 0 && r.base <= frame <= r.End()
    ensures Aligned(r.(length := frame - r.base))
  {
    AlignedDifference(frame, r.base);
  }

  lemma RightAligned(r: Range, slot: nat, start: nat, frame: nat, bytes: nat)
    requires Aligned(r) && frame % 0x1000 == 0 && bytes % 0x1000 == 0 && start == frame + bytes && start <= r.End()
    ensures Aligned(Range(slot, start, r.End() - start))
  {
    AlignedSum(frame, bytes);
    AlignedSum(r.base, r.length);
    AlignedDifference(r.End(), start);
  }

  lemma AlignedSum(a: nat, b: nat)
    requires a % 0x1000 == 0 && b % 0x1000 == 0
    ensures (a + b) % 0x1000 == 0
  {
  }

  lemma AlignedDifference(a: nat, b: nat)
    requires a % 0x1000 == 0 && b % 0x1000 == 0 && b <= a
    ensures (a - b) % 0x1000 == 0
  {
    var x, y := a / 0x1000, b / 0x1000;
    assert a - b == 0x1000 * (x - y);
  }

  lemma SplitShape(v: VMap, k: nat, frame: nat, bytes: nat)
    requires v.Shaped() && k < |v.list| && Aligned(v.list[k])
    requires v.list[k].base <= frame && frame + bytes <= v.list[k].End()
    ensures var o := Split(v, k, frame, bytes);
            if v.HasSlot() then
              o.result == 0 && exists slot :: var (l, r) := Pieces(v.list[k], slot, frame, bytes); o.v.list == Spliced(v.list, k, k + 1, [l, r])
            else
              o.result == -1 && o.v.list == Spliced(v.list, k, k + 1, [Pieces(v.list[k], 0, frame, bytes).0])
  {
    var o := Split(v, k, frame, bytes);
    CutArithmetic(v.list[k], frame, bytes);
    if v.HasSlot() {
      var slot := FrameBitmap.Picked(v.words[..v.limit]);
      var (l, r) := Pieces(v.list[k], slot, frame, bytes);
      assert o.v.list == Spliced(v.list, k, k + 1, [l, r]);
    } else {
      assert o.v.list == Spliced(v.list, k, k + 1, [Pieces(v.list[k], 0, frame, bytes).0]);
    }
  }

  /** What cutting a block out of entry k leaves: without a slot everything in
      the entry from the block on is lost. */
  lemma SplitIs(v: VMap, k: nat, frame: nat, bytes: nat)
    requires v.Shaped() && k < |v.list| && Ordered(v.list)
    requires frame % 0x1000 == 0 && bytes % 0x1000 == 0 && bytes > 0
    requires v.list[k].base <= frame && frame + bytes <= v.list[k].End()
    ensures var o := Split(v, k, frame, bytes);
            && o.result == (if v.HasSlot() then 0 else -1)
            && Removes(v.list, o.v.list, frame, if v.HasSlot() then bytes else v.list[k].End() - frame)
            && Ordered(o.v.list) && o.v.list != [] && o.v.list[0].base == v.list[0].base
  {
    var r := v.list[k];
    var o := Split(v, k, frame, bytes);
    SplitShape(v, k, frame, bytes);
    hide Split, VMap.HasSlot, Aligned;
    if v.HasSlot() {
      var slot :| var (l, r) := Pieces(r, slot, frame, bytes); o.v.list == Spliced(v.list, k, k + 1, [l, r]);
      var (left, right) := Pieces(r, slot, frame, bytes);
      PiecesAligned(r, slot, frame, bytes);
      forall a: nat ensures Covers([left, right], a) <==> Covers([r], a) && !(frame <= a < frame + bytes) {
        CoversOne(r, a);
        CoversTwo(left, right, a);
      }
      SpliceRemoves(v.list, k, [left, right], frame, bytes);
      SpliceOrdered(v.list, k, k + 1, [left, right]);
    } else {
      var left := Pieces(r, 0, frame, bytes).0;
      PiecesAligned(r, 0, frame, bytes);
      forall a: nat ensures Covers([left], a) <==> Covers([r], a) && !(frame <= a < r.End()) {
        CoversOne(r, a);
        CoversOne(left, a);
      }
      SpliceRemoves(v.list, k, [left], frame, r.End() - frame);
      SpliceOrdered(v.list, k, k + 1, [left]);
    }
  }

  /** Within one entry the 64-bit differences do not wrap. */
  lemma CutArithmetic(r: Range, frame: nat, bytes: nat)
    requires Aligned(r) && r.base <= frame && frame + bytes <= r.End()
    ensures Wrap(frame - r.base) == frame - r.base
    ensures Wrap(r.length - (frame - r.base) - bytes) == r.End() - frame - bytes
    ensures Wrap(frame + bytes) == frame + bytes
  {
  }

  // ---------------------------------------------------------------------------
  // page_virtual_free
  // ---------------------------------------------------------------------------

  /** memory.h: 0 for an allocated page, which is removed; -1 for any other. */
  ghost predicate FreeContract(v: VMap, frame: nat, o: Outcome) {
    && (o.result == 0 || o.result == -1) && (o.result == 0 <==> Covers(v.list, frame))
    && Removes(v.list, o.v.list, frame, PAGE)
  }

  /** The contract is met exactly for addresses not below the first entry, at
      which no later non-empty entry starts, and for which, if allocated, there
      is a slot. */
  lemma FreeExact(v: VMap, frame: nat)
    requires v.Shaped() && v.list != [] && Ordered(v.list) && frame % 0x1000 == 0
    ensures FreeContract(v, frame, Free(v, frame)) <==>
              v.list[0].base <= frame && !StartsLater(v.list, frame) && (Covers(v.list, frame) ==> v.HasSlot())
  {
    if frame < v.list[0].base {
      FreeBelow(v, frame);
    } else {
      FreeWithin(v, frame);
    }
  }

  /** At or above the first entry: what is removed, and when. */
  lemma FreeWithin(v: VMap, frame: nat)
    requires v.Shaped() && v.list != [] && Ordered(v.list) && frame % 0x1000 == 0 && v.list[0].base <= frame
    ensures var o := Free(v, frame);
            var found := Covers(v.list, frame) && !StartsLater(v.list, frame);
            && o.result == (if found && v.HasSlot() then 0 else -1)
            && (!found ==> o.v == v)
            && (found && v.HasSlot() ==> Removes(v.list, o.v.list, frame, PAGE))
            && Ordered(o.v.list) && o.v.list != [] && o.v.list[0].base == v.list[0].base
            && (FreeContract(v, frame, o) <==> !StartsLater(v.list, frame) && (Covers(v.list, frame) ==> v.HasSlot()))
  {
    hide Wrap, Free, Split, Aligned;
    var k := Find(v.list, frame, 0);
    FindIs(v.list, frame);
    if frame < v.list[k].End() {
      FreeSplits(v, frame);
      SplitIs(v, k, frame, PAGE);
    } else {
      FreeNotFound(v, frame);
      if !Covers(v.list, frame) {
        NothingToRemove(v.list, frame);
      }
    }
  }

  lemma FreeNotFound(v: VMap, frame: nat)
    requires v.Shaped() && v.list != [] && Ordered(v.list) && frame >= v.list[Find(v.list, frame, 0)].End()
    ensures Free(v, frame) == Outcome(v, -1, frame)
  {
    EndInWord(v.list, Find(v.list, frame, 0));
    hide Wrap, Split;
  }

  lemma SmallWrap(x: nat)
    ensures x < WORD ==> Wrap(x) == x
  {
  }

  lemma EndInWord(list: seq<Range>, k: nat)
    requires Ordered(list) && k < |list|
    ensures Wrap(list[k].End()) == list[k].End() < WORD
  {
    assert Aligned(list[k]);
    SmallWrap(list[k].End());
  }

  /** A block that is allocated throughout ends below 2^64. */
  lemma BlockBelowWord(list: seq<Range>, frame: nat, bytes: nat)
    requires Ordered(list) && bytes > 0 && CoversAll(list, frame, bytes)
    ensures frame + bytes < WORD
  {
    assert Covers(list, frame + bytes - 1);
    var k :| 0 <= k < |list| && list[k].base <= frame + bytes - 1 < list[k].End();
    assert Aligned(list[k]);
  }

  /** An aligned entry that holds the page holds all of it, and is split. */
  lemma FreeSplits(v: VMap, frame: nat)
    requires v.Shaped() && v.list != [] && Ordered(v.list) && frame % 0x1000 == 0
    requires var k := Find(v.list, frame, 0); v.list[k].base <= frame < v.list[k].End()
    ensures var k := Find(v.list, frame, 0);
            && frame + PAGE <= v.list[k].End() && !StartsLater(v.list, frame) && Covers(v.list, frame)
            && Free(v, frame) == Split(v, k, frame, PAGE).(frame := frame)
  {
    hide Wrap, Split, Unlinked;
    var k := Find(v.list, frame, 0);
    FindIs(v.list, frame);
    EndInWord(v.list, k);
    NotOneByte(v.list, k);
    PageOfEntry(v.list[k], frame, frame);
  }

  lemma NotOneByte(list: seq<Range>, k: nat)
    requires Ordered(list) && k < |list|
    ensures list[k].length != 1 && Aligned(list[k])
  {
  }

  lemma NothingToRemove(list: seq<Range>, frame: nat)
    requires Ordered(list) && frame % 0x1000 == 0 && !Covers(list, frame)
    ensures Removes(list, list, frame, PAGE)
  {
    forall a: nat | frame <= a < frame + PAGE ensures !Covers(list, a) {
      PageUniform(list, frame, a);
    }
  }

  /** Below the first entry the difference wraps, and the entry comes to reach
      up to where the address would be 2^64 later. */
  lemma FreeBelow(v: VMap, frame: nat)
    requires v.Shaped() && v.list != [] && Ordered(v.list) && frame < v.list[0].base
    ensures !FreeContract(v, frame, Free(v, frame)) && !Ordered(Free(v, frame).v.list)
  {
    hide Ordered, Covers, Removes;
    var r, o := v.list[0], Free(v, frame);
    BelowWraps(v, frame);
    NothingBelow(v.list, frame);
    FreeAtEnd(v.list, 0);
    TooLong(o.v.list, frame);
    if !v.HasSlot() {
      EntryCovers(o.v.list, 0);
      assert Covers(o.v.list, r.End());
      NotRemoved(v.list, o.v.list, frame, r.End());
    }
  }

  lemma BelowWraps(v: VMap, frame: nat)
    requires v.Shaped() && v.list != [] && Ordered(v.list) && frame < v.list[0].base
    ensures var o := Free(v, frame);
            && |o.v.list| > 0 && o.v.list[0].base == v.list[0].base && o.v.list[0].End() == frame + WORD
            && o.result == (if v.HasSlot() then 0 else -1)
            && v.list[0].base <= v.list[0].End() < WORD
  {
    FindIs(v.list, frame);
    assert Aligned(v.list[0]);
    assert Wrap(frame - v.list[0].base) == frame - v.list[0].base + WORD;
  }

  lemma TooLong(list: seq<Range>, frame: nat)
    requires list != [] && list[0].End() == frame + WORD
    ensures !Ordered(list)
  {
    assert !Aligned(list[0]);
  }

  lemma NotRemoved(list: seq<Range>, list': seq<Range>, frame: nat, a: nat)
    requires Covers(list', a) && !Covers(list, a)
    ensures !Removes(list, list', frame, PAGE)
  {
    hide Covers;
  }

  /** Freeing a page leaves all other allocated pages allocated, except when
      the page is followed by more of its entry and no slot is left. */
  lemma FreeKeepsOthers(v: VMap, frame: nat)
    requires v.Shaped() && v.list != [] && Ordered(v.list) && frame % 0x1000 == 0 && v.list[0].base <= frame
    requires v.HasSlot() || !Covers(v.list, frame) || StartsLater(v.list, frame) || !Covers(v.list, frame + PAGE)
    ensures forall a: nat :: Covers(v.list, a) && !(frame <= a < frame + PAGE) ==> Covers(Free(v, frame).v.list, a)
  {
    var k := Find(v.list, frame, 0);
    FindIs(v.list, frame);
    FreeWithin(v, frame);
    if frame < v.list[k].End() && !v.HasSlot() {
      FreeSplits(v, frame);
      EntryCovers(v.list, k);
      SplitIs(v, k, frame, PAGE);
    }
  }

  /** The pages a free without a slot drops from the list are still mapped. */
  lemma FreeWithoutSlotLosesTheRest(v: VMap, frame: nat)
    requires v.Shaped() && v.list != [] && Ordered(v.list) && frame % 0x1000 == 0 && v.list[0].base <= frame
    requires !v.HasSlot() && Covers(v.list, frame) && !StartsLater(v.list, frame) && Covers(v.list, frame + PAGE)
    ensures !Covers(Free(v, frame).v.list, frame + PAGE)
  {
    var k := Find(v.list, frame, 0);
    FindIs(v.list, frame);
    FreeSplits(v, frame);
    FreeAtEnd(v.list, k);
    SplitIs(v, k, frame, PAGE);
  }

  // ---------------------------------------------------------------------------
  // page_virtual_free_multiple
  // ---------------------------------------------------------------------------

  /** page_virtual_free_multiple either does nothing or cuts out of the entry found. */
  lemma FreeRunIs(v: VMap, key: nat, count: nat)
    requires v.Shaped() && v.list != [] && Ordered(v.list)
    ensures var e := Find(v.list, key, 0);
            FreeRun(v, key, count) == if Wrap(key + count * 0x1000) >= v.list[e].End() then v else Split(v, e, key, count * 0x1000).v
    ensures key + count * 0x1000 < WORD ==> Wrap(key + count * 0x1000) == key + count * 0x1000
  {
    var e := Find(v.list, key, 0);
    EndInWord(v.list, e);
    hide Wrap, Split, Unlinked;
    assert Aligned(v.list[e]);
    SmallWrap(key + count * 0x1000);
  }

  /** A block that is allocated throughout, and is found, lies in one entry. */
  lemma BlockInEntry(list: seq<Range>, frame: nat, bytes: nat)
    requires list != [] && Ordered(list) && bytes > 0 && !StartsLater(list, frame)
    requires CoversAll(list, frame, bytes)
    ensures var e := Find(list, frame, 0);
            list[e].base <= frame && frame + bytes <= list[e].End() && (Covers(list, frame + bytes) <==> frame + bytes < list[e].End())
  {
    var e := Find(list, frame, 0);
    FindIs(list, frame);
    FreeAtEnd(list, e);
    EntryCovers(list, e);
    assert Covers(list, frame);
  }

  /** At the start of a later entry nothing is freed. */
  lemma FreeAtStart(v: VMap, frame: nat, count: nat)
    requires v.Shaped() && v.list != [] && Ordered(v.list) && v.list[0].base <= frame && frame % 0x1000 == 0
    requires StartsLater(v.list, frame) && frame + count * 0x1000 < WORD
    ensures Free(v, frame).v == v && FreeMany(v, frame, count) == v
  {
    hide Wrap, Free, FreeRun, Split;
    FindIs(v.list, frame);
    FreeWithin(v, frame);
    FreeRunIs(v, frame, count);
  }

  /** Every address of the block is allocated. */
  ghost predicate CoversAll(list: seq<Range>, frame: nat, bytes: nat) {
    forall a: nat | frame <= a < frame + bytes :: Covers(list, a)
  }

  /** memory.h: the pages are freed, and no others; if some page of the block is
      not allocated, all stay. */
  ghost predicate FreeManyContract(v: VMap, frame: nat, bytes: nat, v': VMap) {
    if CoversAll(v.list, frame, bytes) then Removes(v.list, v'.list, frame, bytes) else v'.list == v.list
  }

  /** A block that does not fit below 2^64 can end, modulo 2^64, below the end of
      the entry found: then that entry is cut. */
  predicate CutsWrapped(v: VMap, frame: nat, bytes: nat)
    requires v.list != [] && v.limit <= |v.words|
  {
    var end := v.list[Find(v.list, frame, 0)].End();
    Wrap(frame + bytes) < end && (frame != end || v.HasSlot())
  }

  /** For two or more pages the contract is met exactly if some page of the block
      is not allocated, and it does not wrap around to cut an entry, or no later
      entry starts with the block, a slot is left, and the page after the block
      is allocated too: a block that ends with its entry is refused. */
  lemma FreeManyExact(v: VMap, frame: nat, count: nat)
    requires v.Shaped() && v.list != [] && Ordered(v.list) && frame % 0x1000 == 0 && v.list[0].base <= frame && count >= 2
    requires frame < WORD
    ensures FreeManyContract(v, frame, count * 0x1000, FreeMany(v, frame, count)) <==>
              if CoversAll(v.list, frame, count * 0x1000) then
                !StartsLater(v.list, frame) && v.HasSlot() && Covers(v.list, frame + count * 0x1000)
              else !CutsWrapped(v, frame, count * 0x1000)
  {
    if CoversAll(v.list, frame, count * 0x1000) {
      FreeManyOfBlock(v, frame, count);
    } else {
      FreeManyRefusedIff(v, frame, count);
    }
  }

  lemma FreeManyRefusedIff(v: VMap, frame: nat, count: nat)
    requires v.Shaped() && v.list != [] && Ordered(v.list) && v.list[0].base <= frame < WORD && count >= 2
    requires !CoversAll(v.list, frame, count * 0x1000)
    ensures FreeMany(v, frame, count).list == v.list <==> !CutsWrapped(v, frame, count * 0x1000)
  {
    hide FreeRun, Split, Ordered, Aligned, Wrap, CoversAll, VMap.HasSlot, VMap.Shaped;
    var e, bytes := Find(v.list, frame, 0), count * 0x1000;
    FreeRunIs(v, frame, count);
    if Wrap(frame + bytes) < v.list[e].End() {
      WrappedCutIff(v, frame, bytes);
    }
  }

  /** Cutting changes the length of the entry, or adds one behind it. */
  lemma WrappedCutIff(v: VMap, frame: nat, bytes: nat)
    requires v.Shaped() && v.list != [] && Ordered(v.list) && v.list[0].base <= frame < WORD
    ensures var e := Find(v.list, frame, 0);
            Split(v, e, frame, bytes).v.list == v.list <==> frame == v.list[e].End() && !v.HasSlot()
  {
    hide Ordered, Wrap, FrameBitmap.Taken, FrameBitmap.Picked, FrameBitmap.CanTake, Covers;
    var e := Find(v.list, frame, 0);
    FindIs(v.list, frame);
    SmallWrap(frame - v.list[e].base);
    var o := Split(v, e, frame, bytes).v.list;
    assert o[e].length == frame - v.list[e].base;
  }

  lemma FreeManyOfBlock(v: VMap, frame: nat, count: nat)
    requires v.Shaped() && v.list != [] && Ordered(v.list) && frame % 0x1000 == 0 && v.list[0].base <= frame && count >= 2
    requires CoversAll(v.list, frame, count * 0x1000)
    ensures Removes(v.list, FreeMany(v, frame, count).list, frame, count * 0x1000) <==>
              !StartsLater(v.list, frame) && v.HasSlot() && Covers(v.list, frame + count * 0x1000)
  {
    hide FreeRun, Split, Aligned, VMap.Shaped, VMap.HasSlot, Ordered, Covers, StartsLater, Find, Wrap, CoversAll;
    var e, bytes := Find(v.list, frame, 0), count * 0x1000;
    BlockBelowWord(v.list, frame, bytes);
    FirstCovered(v.list, frame, bytes);
    FreeRunIs(v, frame, count);
    StartIsRemoved(v.list, frame, bytes);
    if StartsLater(v.list, frame) {
      FreeAtStart(v, frame, count);
    } else {
      BlockInEntry(v.list, frame, bytes);
      if frame + bytes < v.list[e].End() {
        CountPaged(count);
        CutExact(v, e, frame, bytes);
      }
    }
  }

  lemma FirstCovered(list: seq<Range>, frame: nat, bytes: nat)
    requires CoversAll(list, frame, bytes) && bytes > 0
    ensures Covers(list, frame)
  {
  }

  lemma CountPaged(count: nat)
    ensures count * 0x1000 % 0x1000 == 0
  {
  }

  /** A list that covers the start of the block has not had the block removed. */
  lemma StartIsRemoved(list: seq<Range>, frame: nat, bytes: nat)
    requires Covers(list, frame) && bytes > 0
    ensures !Removes(list, list, frame, bytes)
  {
    hide Covers;
  }

  lemma CutExact(v: VMap, e: nat, frame: nat, bytes: nat)
    requires v.Shaped() && e < |v.list| && Ordered(v.list) && frame % 0x1000 == 0 && bytes % 0x1000 == 0 && bytes > 0
    requires v.list[e].base <= frame && frame + bytes < v.list[e].End()
    ensures Removes(v.list, Split(v, e, frame, bytes).v.list, frame, bytes) <==> v.HasSlot()
  {
    SplitIs(v, e, frame, bytes);
    EntryCovers(v.list, e);
    hide Covers, Split, VMap.HasSlot, Ordered;
    assert Covers(v.list, frame + bytes);
  }

  lemma FreedIsGone(v: VMap, frame: nat)
    requires v.Shaped() && v.list != [] && Ordered(v.list) && frame % 0x1000 == 0 && v.list[0].base <= frame
    requires Free(v, frame).v != v
    ensures !Covers(Free(v, frame).v.list, frame)
  {
    FindIs(v.list, frame);
    FreeWithin(v, frame);
    FreeSplits(v, frame);
    SplitIs(v, Find(v.list, frame, 0), frame, PAGE);
  }

  /** For one page the call falls through to the loop after page_virtual_free,
      which then finds nothing to do, unless the address after the page wraps
      around. */
  lemma FreeManyOfOneIff(v: VMap, frame: nat)
    requires v.Shaped() && v.list != [] && Ordered(v.list) && frame % 0x1000 == 0 && v.list[0].base <= frame < WORD
    ensures FreeMany(v, frame, 1).list == Free(v, frame).v.list <==> frame + PAGE < WORD || !CutsWrapped(v, frame, PAGE)
  {
    hide Wrap, Free, FreeRun, Split, Aligned, Ordered, VMap.HasSlot, VMap.Shaped;
    if frame + PAGE < WORD {
      FreeManyOfOne(v, frame);
    } else {
      LastPageNotFound(v, frame);
      FreeNotFound(v, frame);
      FreeRunIs(v, frame, 1);
      WrappedCutIff(v, frame, PAGE);
    }
  }

  lemma LastPageNotFound(v: VMap, frame: nat)
    requires v.list != [] && Ordered(v.list) && frame % 0x1000 == 0 && frame < WORD <= frame + PAGE
    ensures v.list[Find(v.list, frame, 0)].End() <= frame
  {
    var r := v.list[Find(v.list, frame, 0)];
    assert Aligned(r);
    AlignedSum(r.base, r.length);
    WholePages(r.End());
    WholePages(frame);
  }

  lemma FreeManyOfOne(v: VMap, frame: nat)
    requires v.Shaped() && v.list != [] && Ordered(v.list) && frame % 0x1000 == 0 && v.list[0].base <= frame
    requires frame + PAGE < WORD
    ensures FreeMany(v, frame, 1) == Free(v, frame).v
  {
    hide Wrap, Free, FreeRun, Split, Aligned, Ordered;
    var v1 := Free(v, frame).v;
    FindIs(v.list, frame);
    FreeWithin(v, frame);
    FindIs(v1.list, frame);
    FreeRunIs(v1, frame, 1);
    if v1 != v {
      FreedIsGone(v, frame);
    } else {
      NothingFound(v, frame);
    }
  }

  /** A free that changes nothing has found no entry that reaches beyond the page. */
  lemma NothingFound(v: VMap, frame: nat)
    requires v.Shaped() && v.list != [] && Ordered(v.list) && frame % 0x1000 == 0 && v.list[0].base <= frame
    requires Free(v, frame).v == v
    ensures v.list[Find(v.list, frame, 0)].End() <= frame
  {
    var e := Find(v.list, frame, 0);
    FindIs(v.list, frame);
    if frame < v.list[e].End() {
      FreeSplits(v, frame);
      SplitIs(v, e, frame, PAGE);
    }
  }

  /** page_virtual_free_multiple on pages of one entry: they are cut out with a
      slot, all of the entry from the first on is dropped without one, and two or
      more pages that end the entry are left. */
  lemma FreeManyIs(v: VMap, key: nat, n: nat)
    requires v.Shaped() && v.list != [] && Ordered(v.list) && key % 0x1000 == 0 && n > 0
    requires !StartsLater(v.list, key) && CoversAll(v.list, key, n * 0x1000)
    ensures var e, hi, v' := Find(v.list, key, 0), key + n * 0x1000, FreeMany(v, key, n);
            && v.list[0].base <= key && v.list[e].base <= key && hi <= v.list[e].End()
            && (if n > 1 && hi == v.list[e].End() then v' == v
                else Removes(v.list, v'.list, key, if v.HasSlot() then n * 0x1000 else v.list[e].End() - key))
  {
    hide FreeRun, Split, Free, Aligned, VMap.HasSlot, Ordered, Removes, Wrap, CoversAll;
    var e := Find(v.list, key, 0);
    BlockBelowWord(v.list, key, n * 0x1000);
    FirstCovered(v.list, key, n * 0x1000);
    BlockInEntry(v.list, key, n * 0x1000);
    NotBelow(v.list, key);
    FreeRunIs(v, key, n);
    CountPaged(n);
    if n == 1 {
      FreeManyOfOne(v, key);
      FreeSplits(v, key);
      SplitIs(v, e, key, PAGE);
    } else if key + n * 0x1000 < v.list[e].End() {
      SplitIs(v, e, key, n * 0x1000);
    }
  }

  lemma NotBelow(list: seq<Range>, a: nat)
    requires list != [] && Ordered(list) && Covers(list, a)
    ensures list[0].base <= a
  {
    if a < list[0].base {
      NothingBelow(list, a);
    }
  }

  /** Where nothing is allocated, nothing is freed. */
  lemma FreeManyOfNothing(v: VMap, key: nat, n: nat)
    requires v.Shaped() && v.list != [] && Ordered(v.list) && v.list[0].base <= key && key % 0x1000 == 0
    requires !Covers(v.list, key) && key + n * 0x1000 < WORD
    ensures FreeMany(v, key, n) == v
  {
    hide FreeRun, Split, Free, Aligned, Ordered, Wrap;
    FindIs(v.list, key);
    FreeRunIs(v, key, n);
    FreeWithin(v, key);
  }

  /** Freeing the last page of an entry leaves an empty entry behind it, and
      allocating there puts the list out of order. */
  lemma EmptyEntryDisorders(v: VMap, frame: nat)
    requires v.Shaped() && v.list != [] && Ordered(v.list) && frame % 0x1000 == 0 && frame + PAGE + PAGE < WORD
    requires Covers(v.list, frame) && !Covers(v.list, frame + PAGE) && !StartsLater(v.list, frame) && v.HasSlot()
    requires Free(v, frame).v.HasSlot()
    ensures var v1 := Free(v, frame).v;
            && Ordered(v1.list) && !Covers(v1.list, frame + PAGE) && AllocAt(v1, frame + PAGE).result == 0
            && !Ordered(AllocAt(v1, frame + PAGE).v.list)
  {
    hide Free, AllocAt, Split, Ordered, Aligned, Covers, StartsLater, Removes, VMap.HasSlot, VMap.Shaped;
    var v1, e := Free(v, frame).v, Find(v.list, frame, 0);
    NotBelow(v.list, frame);
    FindIs(v.list, frame);
    FreeWithin(v, frame);
    FreeSplits(v, frame);
    EndNotCovered(v.list, v1.list, frame);
    SplitNext(v, e, frame, PAGE);
    EmptyEntryLeft(v1, e, frame + PAGE);
  }

  lemma EndNotCovered(list: seq<Range>, list': seq<Range>, frame: nat)
    requires Removes(list, list', frame, PAGE) && !Covers(list, frame + PAGE) && frame % 0x1000 == 0
    ensures !Covers(list', frame + PAGE) && (frame + PAGE) % 0x1000 == 0
  {
    hide Covers;
  }

  /** What is left behind the cut starts where the cut ends. */
  lemma SplitNext(v: VMap, k: nat, frame: nat, bytes: nat)
    requires v.Shaped() && k < |v.list| && Ordered(v.list) && v.HasSlot()
    requires v.list[k].base <= frame && frame + bytes <= v.list[k].End()
    ensures var v1 := Split(v, k, frame, bytes).v;
            v1.HasNext(k) && v1.list[k + 1].base == frame + bytes && v1.list[k + 1].End() == v.list[k].End()
  {
    SplitShape(v, k, frame, bytes);
    hide Split, Ordered, Aligned, VMap.HasSlot;
    var slot :| var (l, r) := Pieces(v.list[k], slot, frame, bytes); Split(v, k, frame, bytes).v.list == Spliced(v.list, k, k + 1, [l, r]);
    var (l, r) := Pieces(v.list[k], slot, frame, bytes);
    assert Spliced(v.list, k, k + 1, [l, r])[k + 1] == r;
  }

  lemma EmptyEntryLeft(v1: VMap, e: nat, a: nat)
    requires v1.Shaped() && v1.HasNext(e) && v1.list[e + 1].base == a && Ordered(v1.list) && !Covers(v1.list, a)
    requires a % 0x1000 == 0 && a + PAGE < WORD && v1.HasSlot()
    ensures AllocAt(v1, a).result == 0 && !Ordered(AllocAt(v1, a).v.list)
  {
    hide Aligned;
    AllocAtOrderedIff(v1, a);
    BaseFound(v1.list, a);
    assert !NoBaseIn(v1.list, a, PAGE);
    InsertDisorders(v1, Find(v1.list, a, 0), a, PAGE);
  }
}
