/**
 What the rollback of `page_alloc_multiple_at` and `page_free_multiple` do to
 the list of ranges: page_free_multiple frees the first page of its block over
 and over, and the rollback then cuts out the pages that were not mapped.
 */
module UndoneLists {
  import opened Words
  import opened Paging
  import opened VirtualRanges
  import opened RangeSets
  import opened RangeFrees
  import opened Kernel
  import opened Rollback
  import FrameBitmap
  import RangeSlots

  // ---------------------------------------------------------------------------
  // The list after page_free_multiple
  // ---------------------------------------------------------------------------

  /** What was freed is always the first page. */
  function FirstFreed(v: VMap, frame: nat, n: nat, garbage: seq<int>): VMap
    requires v.Shaped() && |v.list| > 0
  {
    if n == 0 then v
    else
      var p := FirstFreed(v, frame, n - 1, garbage);
      if Left(garbage, n - 1) == -1 || !p.Shaped() || |p.list| == 0 then p else Free(p, frame).v
  }

  lemma {:induction false} FreePagesList(k: State, root: nat, offset: nat, frame: nat, n: nat, garbage: seq<int>)
    requires k.Shaped() && 0x0000_FF80_0000_0000 < offset
    ensures FreePages(k, root, offset, frame, n, garbage).v == FirstFreed(k.v, frame, n, garbage)
  {
    if n > 0 {
      FreePagesList(k, root, offset, frame, n - 1, garbage);
      assert !Refused(offset, frame + (n - 1) * 0x1000);
    }
  }

  /** Some call of page_unmap among the first n did not end in -1. */
  ghost predicate SomeReported(garbage: seq<int>, n: nat) {
    exists j: nat :: j < n && Left(garbage, j) != -1
  }

  /** Lists whose first entry starts at `base`, with nodes in slots of their own. */
  ghost predicate Sound(v: VMap, base: nat) {
    RangeSlots.SlotSafe(v) && Ordered(v.list) && v.list[0].base == base
  }

  lemma SoundShaped(v: VMap, base: nat)
    requires Sound(v, base)
    ensures v.Shaped() && v.list != [] && |v.list| > 0 && Ordered(v.list) && v.list[0].base == base
  {
  }

  lemma FreeSound(v: VMap, base: nat, frame: nat)
    requires Sound(v, base) && base <= frame && frame % 0x1000 == 0
    ensures v.Shaped() && |v.list| > 0 && Sound(Free(v, frame).v, base)
  {
    UndoneList(v, frame);
  }

  /** A second free of the same page does nothing. */
  lemma FreeTwice(v: VMap, base: nat, frame: nat)
    requires Sound(v, base) && base <= frame && frame % 0x1000 == 0
    ensures Free(v, frame).v.Shaped() && |Free(v, frame).v.list| > 0
    ensures Free(Free(v, frame).v, frame).v == Free(v, frame).v
  {
    var v1 := Free(v, frame).v;
    FreeSound(v, base, frame);
    FreeWithin(v, frame);
    FreeWithin(v1, frame);
    if v1 != v {
      FreedIsGone(v, frame);
    }
  }

  lemma {:induction false} FirstFreedIs(v: VMap, base: nat, frame: nat, n: nat, garbage: seq<int>)
    requires Sound(v, base) && base <= frame && frame % 0x1000 == 0
    ensures v.Shaped() && |v.list| > 0
    ensures FirstFreed(v, frame, n, garbage) == if SomeReported(garbage, n) then Free(v, frame).v else v
  {
    hide Sound, Free, VMap.Shaped, FirstFreed, SomeReported;
    SoundShaped(v, base);
    if n == 0 {
      NoneFreed(v, frame, garbage);
    } else {
      FirstFreedIs(v, base, frame, n - 1, garbage);
      FreeTwice(v, base, frame);
      ReportedNext(garbage, n);
      OneMoreFreed(v, frame, n, garbage);
    }
  }

  lemma NoneFreed(v: VMap, frame: nat, garbage: seq<int>)
    requires v.Shaped() && |v.list| > 0
    ensures FirstFreed(v, frame, 0, garbage) == v && !SomeReported(garbage, 0)
  {
  }

  lemma OneMoreFreed(v: VMap, frame: nat, n: nat, garbage: seq<int>)
    requires v.Shaped() && |v.list| > 0 && n > 0
    requires FirstFreed(v, frame, n - 1, garbage).Shaped() && |FirstFreed(v, frame, n - 1, garbage).list| > 0
    ensures var p := FirstFreed(v, frame, n - 1, garbage);
            FirstFreed(v, frame, n, garbage) == if Left(garbage, n - 1) == -1 then p else Free(p, frame).v
  {
    hide Free, VMap.Shaped;
  }

  lemma ReportedNext(garbage: seq<int>, n: nat)
    requires n > 0
    ensures SomeReported(garbage, n) <==> SomeReported(garbage, n - 1) || Left(garbage, n - 1) != -1
  {
    if SomeReported(garbage, n) {
      var j: nat :| j < n && Left(garbage, j) != -1;
    }
    if SomeReported(garbage, n - 1) {
      var j: nat :| j < n - 1 && Left(garbage, j) != -1;
    }
  }

  // ---------------------------------------------------------------------------
  // The list after the rollback
  // ---------------------------------------------------------------------------

  /** Page i of the block could not be mapped. */
  function UndoneBlock(v: VMap, frame: nat, count: nat, i: nat, garbage: seq<int>): VMap
    requires v.Shaped() && |v.list| > 0 && i < count
  {
    var p := FirstFreed(v, frame, i, garbage);
    if p.Shaped() && |p.list| > 0 then FreeMany(p, frame + i * 0x1000, count - i) else p
  }

  lemma ListAfterUndo(k: State, root: nat, offset: nat, frame: nat, count: nat, i: nat, garbage: seq<int>)
    requires k.Shaped() && i < count && 0x0000_FF80_0000_0000 < offset
    ensures Undo(k, root, offset, frame, count, i, garbage).v == UndoneBlock(k.v, frame, count, i, garbage)
  {
    FreePagesList(k, root, offset, frame, i, garbage);
  }

  /** The list after the loop. */
  lemma {:induction false} BlockList(k: State, root: nat, offset: nat, frame: nat, count: nat, i: nat,
        garbage: seq<int>)
    requires k.Shaped() && i <= count && 0x0000_FF80_0000_0000 < offset
    requires MapBlock(k, root, offset, frame, count, i, garbage).1 == -1
    ensures var j := FailedAt(k, root, frame, count, i);
            j < count && MapBlock(k, root, offset, frame, count, i, garbage).0.v == UndoneBlock(k.v, frame, count, j, garbage)
    decreases count - i
  {
    hide Round, FrameBitmap.CanTake, FrameBitmap.Picked, FrameBitmap.Released, Undo, UndoneBlock;
    ListAfterUndo(k, root, offset, frame, count, i, garbage);
    if FrameBitmap.CanTake(k.bits) {
      var (k1, r) := Round(k, root, frame, i);
      RoundKeepsList(k, root, frame, i);
      if r == -1 {
        ListAfterUndo(k1, root, offset, frame, count, i, garbage);
      } else {
        BlockList(k1, root, offset, frame, count, i + 1, garbage);
      }
    }
  }

  /** The list covers the block, and is of the shape all lists here have. */
  ghost predicate Holding(v: VMap, base: nat, frame: nat, count: nat) {
    Sound(v, base) && frame % 0x1000 == 0 && count > 0 && CoversAll(v.list, frame, count * 0x1000)
  }

  lemma HoldingShaped(v: VMap, base: nat, frame: nat, count: nat)
    requires Holding(v, base, frame, count)
    ensures v.Shaped() && v.list != [] && |v.list| > 0 && Ordered(v.list) && v.list[0].base == base <= frame
    ensures Sound(v, base) && frame % 0x1000 == 0 && count > 0 && CoversAll(v.list, frame, count * 0x1000)
    ensures frame + count * 0x1000 < WORD
  {
    BlockBelowWord(v.list, frame, count * 0x1000);
    assert Covers(v.list, frame);
    NotBelow(v.list, frame);
  }

  /** The entry that holds an allocated address, and its end. */
  ghost function Holder(list: seq<Range>, a: nat): (e: nat)
    requires list != []
    ensures e < |list|
  {
    var k := Find(list, a, 0);
    if k + 1 < |list| && list[k + 1].base == a && list[k + 1].length > 0 then k + 1 else k
  }

  ghost function EndOf(list: seq<Range>, a: nat): nat
    requires list != []
  {
    list[Holder(list, a)].End()
  }

  /** Inside an entry the search finds it. */
  lemma EntryFound(list: seq<Range>, e: nat, a: nat)
    requires Ordered(list) && e < |list| && list[e].base < a < list[e].End()
    ensures Find(list, a, 0) == e && !StartsLater(list, a) && Holder(list, a) == e
  {
    forall j | 0 < j <= e ensures list[j].base < a {
      if j < e { OrderedApart(list, j, e); }
    }
    if e + 1 < |list| { OrderedApart(list, e, e + 1); }
    FindAt(list, a, e, 0);
    FindIs(list, a);
  }

  lemma HolderIs(list: seq<Range>, frame: nat, bytes: nat)
    requires list != [] && Ordered(list) && bytes > 0 && CoversAll(list, frame, bytes)
    ensures var e := Holder(list, frame);
            && list[e].base <= frame && frame + bytes <= list[e].End()
            && (Covers(list, frame + bytes) <==> frame + bytes < list[e].End())
            && (if StartsLater(list, frame) then e == Find(list, frame, 0) + 1 else e == Find(list, frame, 0))
  {
    var e := Holder(list, frame);
    FindIs(list, frame);
    FreeAtEnd(list, e);
    EntryCovers(list, e);
    assert Covers(list, frame);
  }

  /** Cutting out pages of the block behind the first, when the first is still there. */
  lemma RestFreed(v: VMap, base: nat, frame: nat, count: nat, i: nat)
    requires Holding(v, base, frame, count) && i < count && (i > 0 || !StartsLater(v.list, frame))
    ensures v.Shaped() && v.list != [] && frame + count * 0x1000 <= EndOf(v.list, frame)
    ensures var key, hi := frame + i * 0x1000, frame + count * 0x1000;
            var v' := FreeMany(v, key, count - i);
            && Sound(v', base)
            && (if count - i > 1 && !Covers(v.list, hi) then v' == v
                else Removes(v.list, v'.list, key, if v.HasSlot() then hi - key else EndOf(v.list, frame) - key))
  {
    hide FreeMany, VMap.HasSlot, VMap.Shaped, Removes, Holding, Sound, Ordered, Covers, CoversAll, StartsLater, Holder;
    HoldingShaped(v, base, frame, count);
    RestInEntry(v, base, frame, count, i);
    FreeManyIs(v, frame + i * 0x1000, count - i);
    FreeManySound(v, base, frame + i * 0x1000, count - i);
  }

  lemma RestInEntry(v: VMap, base: nat, frame: nat, count: nat, i: nat)
    requires Holding(v, base, frame, count) && i < count && (i > 0 || !StartsLater(v.list, frame))
    ensures v.list != [] && var key := frame + i * 0x1000;
            && key % 0x1000 == 0 && base <= key && !StartsLater(v.list, key) && CoversAll(v.list, key, (count - i) * 0x1000)
            && v.list[Find(v.list, key, 0)].End() == EndOf(v.list, frame)
            && (Covers(v.list, frame + count * 0x1000) <==> frame + count * 0x1000 < EndOf(v.list, frame))
            && frame + count * 0x1000 <= EndOf(v.list, frame)
  {
    hide Holding, Sound, Ordered, Covers, StartsLater, VMap.Shaped, Holder, Find;
    HoldingShaped(v, base, frame, count);
    HolderIs(v.list, frame, count * 0x1000);
    NthAligned(frame, i);
    if i > 0 {
      EntryFound(v.list, Holder(v.list, frame), frame + i * 0x1000);
    }
  }

  /** page_virtual_free_multiple keeps the shape of the list. */
  lemma FreeManySound(v: VMap, base: nat, key: nat, n: nat)
    requires Sound(v, base) && base <= key && key % 0x1000 == 0 && n > 0
    requires !StartsLater(v.list, key) && CoversAll(v.list, key, n * 0x1000)
    ensures v.Shaped() && v.list != [] && Sound(FreeMany(v, key, n), base)
  {
    SoundShaped(v, base);
    BlockBelowWord(v.list, key, n * 0x1000);
    if n == 1 {
      FreeManyOfOne(v, key);
      FreeSound(v, base, key);
    } else {
      BlockInEntry(v.list, key, n * 0x1000);
      FreeRunIs(v, key, n);
      CutSound(v, base, Find(v.list, key, 0), key, n);
    }
  }

  lemma CutSound(v: VMap, base: nat, e: nat, key: nat, n: nat)
    requires Sound(v, base) && e < |v.list| && key % 0x1000 == 0 && n > 0
    requires v.list[e].base <= key && key + n * 0x1000 <= v.list[e].End()
    ensures v.Shaped() && Sound(Split(v, e, key, n * 0x1000).v, base)
  {
    CountPaged(n);
    SplitIs(v, e, key, n * 0x1000);
    RangeSlots.SplitSlots(v, e, key, n * 0x1000);
    hide Split, Removes, Ordered;
  }

  /** Whether the rollback takes pages behind the block off the list: one
      follows in the same entry, something is cut out of that entry, and there
      is no slot for the first cut, or for the second. The first cut is made by
      page_free_multiple, unless a later entry starts with the block or
      page_unmap ended in -1 each time; the second is not made where the first
      has put the start of an entry. */
  ghost predicate Loses(v: VMap, frame: nat, i: nat, count: nat, garbage: seq<int>)
    requires v.Shaped() && v.list != []
  {
    && Covers(v.list, frame + count * 0x1000)
    && !(i == 0 && StartsLater(v.list, frame))
    && (!v.HasSlot() || (i >= 2 && !StartsLater(v.list, frame) && SomeReported(garbage, i) && !Free(v, frame).v.HasSlot()))
  }

  /** Whether all pages of the block are taken off the list. */
  ghost predicate Clears(v: VMap, frame: nat, i: nat, count: nat, garbage: seq<int>)
    requires v.Shaped() && v.list != []
  {
    && !StartsLater(v.list, frame)
    && if i == 0 then count == 1 || Covers(v.list, frame + count * 0x1000)
       else SomeReported(garbage, i) && !v.HasSlot()
  }

  /** From v to v' nothing comes in; outside the block exactly the pages from its
      end to the end of its entry go, if `lost`; and the block goes as a whole, if `cleared`. */
  ghost predicate Undone(v: VMap, v': VMap, base: nat, frame: nat, count: nat, lost: bool, cleared: bool)
    requires v.list != []
  {
    var hi := frame + count * 0x1000;
    && Sound(v', base)
    && (forall a: nat :: Covers(v'.list, a) ==> Covers(v.list, a))
    && (forall a: nat | !(frame <= a < hi) ::
          Covers(v'.list, a) <==> Covers(v.list, a) && !(lost && hi <= a < EndOf(v.list, frame)))
    && (cleared <==> forall a: nat | frame <= a < hi :: !Covers(v'.list, a))
  }

  lemma UndoneByRemoval(v: VMap, v': VMap, base: nat, frame: nat, count: nat, lo: nat, end: nat)
    requires Holding(v, base, frame, count) && v.list != [] && Sound(v', base)
    requires frame <= lo < frame + count * 0x1000 && (end == frame + count * 0x1000 || end == EndOf(v.list, frame))
    requires lo <= end && Removes(v.list, v'.list, lo, end - lo)
    ensures Undone(v, v', base, frame, count, Covers(v.list, frame + count * 0x1000) && end == EndOf(v.list, frame), lo == frame)
  {
    hide Holding, Sound, Covers, Holder, Find, Ordered, StartsLater;
    HoldingShaped(v, base, frame, count);
    HolderIs(v.list, frame, count * 0x1000);
    if lo > frame {
      assert Covers(v'.list, frame);
    }
  }

  lemma NothingUndone(v: VMap, base: nat, frame: nat, count: nat)
    requires Holding(v, base, frame, count)
    ensures v.list != [] && Undone(v, v, base, frame, count, false, false)
  {
    HoldingShaped(v, base, frame, count);
    hide Sound, Covers;
    assert Covers(v.list, frame);
  }

  /** The list after the rollback, exactly. */
  lemma UndoneIs(v: VMap, base: nat, frame: nat, count: nat, i: nat, garbage: seq<int>)
    requires Holding(v, base, frame, count) && i < count
    ensures v.Shaped() && v.list != [] && |v.list| > 0
    ensures Undone(v, UndoneBlock(v, frame, count, i, garbage), base, frame, count,
                   Loses(v, frame, i, count, garbage), Clears(v, frame, i, count, garbage))
  {
    hide Holding, Sound, UndoneBlock, Undone, Free, FirstFreed, FreeMany, CoversAll, VMap.Shaped, Ordered,
      StartsLater, Loses, Clears,
      Find, Covers, SomeReported;
    HoldingShaped(v, base, frame, count);
    UndoneUnfold(v, base, frame, count, i, garbage);
    LossCases(v, frame, count, i, garbage);
    if SomeReported(garbage, i) && !StartsLater(v.list, frame) {
      UndoneReported(v, base, frame, count, i);
    } else if i == 0 && StartsLater(v.list, frame) {
      NothingUndone(v, base, frame, count);
    } else {
      UndoneByRest(v, base, frame, count, i);
    }
  }

  lemma LossCases(v: VMap, frame: nat, count: nat, i: nat, garbage: seq<int>)
    requires v.Shaped() && v.list != [] && |v.list| > 0 && i < count
    ensures var next := Covers(v.list, frame + count * 0x1000);
            if SomeReported(garbage, i) && !StartsLater(v.list, frame) then
              && i > 0 && (Clears(v, frame, i, count, garbage) <==> !v.HasSlot())
              && (Loses(v, frame, i, count, garbage) <==> next && (!v.HasSlot() || (i >= 2 && !Free(v, frame).v.HasSlot())))
            else if i == 0 && StartsLater(v.list, frame) then
              !Clears(v, frame, i, count, garbage) && !Loses(v, frame, i, count, garbage)
            else
              && (i > 0 || !StartsLater(v.list, frame))
              && (Clears(v, frame, i, count, garbage) <==> i == 0 && (count == 1 || next))
              && (Loses(v, frame, i, count, garbage) <==> next && !v.HasSlot())
  {
    hide Free, Covers, StartsLater, VMap.HasSlot, Left;
  }

  lemma UndoneUnfold(v: VMap, base: nat, frame: nat, count: nat, i: nat, garbage: seq<int>)
    requires Holding(v, base, frame, count) && i < count && v.Shaped() && v.list != [] && |v.list| > 0
    ensures var p := if SomeReported(garbage, i) && !StartsLater(v.list, frame) then Free(v, frame).v else v;
            && p.Shaped() && |p.list| > 0
            && UndoneBlock(v, frame, count, i, garbage) == FreeMany(p, frame + i * 0x1000, count - i)
            && (i == 0 && StartsLater(v.list, frame) ==> FreeMany(p, frame + i * 0x1000, count - i) == v)
  {
    hide Holding, Free, FreeMany, FirstFreed, StartsLater, CoversAll, Ordered, Sound, SomeReported;
    HoldingShaped(v, base, frame, count);
    FirstFreedIs(v, base, frame, i, garbage);
    if StartsLater(v.list, frame) {
      FreeAtStart(v, frame, count);
    }
    FreeSound(v, base, frame);
    SoundShaped(Free(v, frame).v, base);
  }

  /** With the first page still there. */
  lemma UndoneByRest(v: VMap, base: nat, frame: nat, count: nat, i: nat)
    requires Holding(v, base, frame, count) && i < count && (i > 0 || !StartsLater(v.list, frame))
    ensures v.Shaped() && v.list != [] && var hi := frame + count * 0x1000;
            Undone(v, FreeMany(v, frame + i * 0x1000, count - i), base, frame, count,
                   Covers(v.list, hi) && !v.HasSlot(), i == 0 && (count == 1 || Covers(v.list, hi)))
  {
    hide FreeMany, Sound, Undone, VMap.HasSlot, VMap.Shaped, Removes, StartsLater, CoversAll, Holding, Covers, Holder,
      Ordered, Find;
    HoldingShaped(v, base, frame, count);
    HolderIs(v.list, frame, count * 0x1000);
    var key, hi := frame + i * 0x1000, frame + count * 0x1000;
    RestFreed(v, base, frame, count, i);
    if count - i > 1 && !Covers(v.list, hi) {
      NothingUndone(v, base, frame, count);
    } else {
      UndoneByRemoval(v, FreeMany(v, key, count - i), base, frame, count, key, if v.HasSlot() then hi else EndOf(v.list, frame));
    }
  }

  /** With the first page freed. */
  lemma UndoneReported(v: VMap, base: nat, frame: nat, count: nat, i: nat)
    requires Holding(v, base, frame, count) && 0 < i < count && !StartsLater(v.list, frame)
    ensures v.Shaped() && |v.list| > 0 && Free(v, frame).v.Shaped() && |Free(v, frame).v.list| > 0
    ensures Undone(v, FreeMany(Free(v, frame).v, frame + i * 0x1000, count - i), base, frame, count,
                   Covers(v.list, frame + count * 0x1000) && (!v.HasSlot() || (i >= 2 && !Free(v, frame).v.HasSlot())), !v.HasSlot())
  {
    hide Free, FreeMany, Sound, Undone, VMap.HasSlot, StartsLater, CoversAll, Ordered, Find, Holder, Removes, Covers,
      Holding;
    HoldingShaped(v, base, frame, count);
    FirstCut(v, base, frame, count);
    if v.HasSlot() {
      UndoneWithSlot(v, Free(v, frame).v, base, frame, count, i);
    } else {
      UndoneWithoutSlot(v, Free(v, frame).v, base, frame, count, i);
    }
  }

  lemma UndoneWithoutSlot(v: VMap, p: VMap, base: nat, frame: nat, count: nat, i: nat)
    requires Holding(v, base, frame, count) && 0 < i < count && v.list != [] && frame < EndOf(v.list, frame)
    requires Sound(p, base) && p.Shaped() && p.list != [] && Ordered(p.list) && p.list[0].base == base
    requires Removes(v.list, p.list, frame, EndOf(v.list, frame) - frame)
    ensures Undone(v, FreeMany(p, frame + i * 0x1000, count - i), base, frame, count, Covers(v.list, frame + count * 0x1000), true)
  {
    hide FreeMany, Sound, Undone, CoversAll, Ordered, Find, Holder, Removes, Covers, VMap.Shaped;
    HoldingShaped(v, base, frame, count);
    HolderIs(v.list, frame, count * 0x1000);
    var key := frame + i * 0x1000;
    AllGone(v.list, p.list, frame, EndOf(v.list, frame), key);
    FreeManyOfNothing(p, key, count - i);
    UndoneByRemoval(v, p, base, frame, count, frame, EndOf(v.list, frame));
  }

  lemma UndoneWithSlot(v: VMap, p: VMap, base: nat, frame: nat, count: nat, i: nat)
    requires Holding(v, base, frame, count) && 0 < i < count && v.list != [] && Removes(v.list, p.list, frame, PAGE)
    requires Sound(p, base) && p.Shaped() && p.list != [] && Ordered(p.list) && p.list[0].base == base
    requires Holding(p, base, frame + PAGE, count - 1) && StartsLater(p.list, frame + PAGE)
    requires EndOf(p.list, frame + PAGE) == EndOf(v.list, frame)
    ensures Undone(v, FreeMany(p, frame + i * 0x1000, count - i), base, frame, count,
                   Covers(v.list, frame + count * 0x1000) && i >= 2 && !p.HasSlot(), false)
  {
    hide FreeMany, Sound, Undone, CoversAll, Ordered, Find, Holder, Removes, Covers, StartsLater, VMap.HasSlot;
    HoldingShaped(v, base, frame, count);
    HoldingShaped(p, base, frame + PAGE, count - 1);
    var key, hi := frame + i * 0x1000, frame + count * 0x1000;
    if i == 1 {
      FreeAtStart(p, key, count - 1);
      NothingUndone(p, base, frame + PAGE, count - 1);
    } else {
      UndoneByRest(p, base, frame + PAGE, count - 1, i - 1);
    }
    UndoneAfterFirst(v, p, FreeMany(p, key, count - i), base, frame, count, i >= 2 && Covers(p.list, hi) && !p.HasSlot());
  }

  lemma AllGone(list: seq<Range>, list': seq<Range>, lo: nat, end: nat, a: nat)
    requires lo <= a < end && Removes(list, list', lo, end - lo)
    ensures !Covers(list', a)
  {
    hide Covers;
  }

  /** Freeing the first page: without a slot the whole entry goes from there on,
      with one the rest of it becomes an entry of its own. */
  lemma FirstCut(v: VMap, base: nat, frame: nat, count: nat)
    requires Holding(v, base, frame, count) && !StartsLater(v.list, frame)
    ensures v.Shaped() && |v.list| > 0 && Sound(Free(v, frame).v, base) && frame < EndOf(v.list, frame)
    ensures var p := Free(v, frame).v;
            && p.Shaped() && |p.list| > 0 && Ordered(p.list) && p.list[0].base == base
            && (if v.HasSlot() then
                  && Removes(v.list, p.list, frame, PAGE)
                  && (count > 1 ==> Holding(p, base, frame + PAGE, count - 1) && StartsLater(p.list, frame + PAGE)
                                    && EndOf(p.list, frame + PAGE) == EndOf(v.list, frame))
                else Removes(v.list, p.list, frame, EndOf(v.list, frame) - frame))
  {
    hide Split, Free, Removes, RangeSlots.SlotSafe, VMap.HasSlot, VMap.Shaped, Aligned;
    HoldingShaped(v, base, frame, count);
    HolderIs(v.list, frame, count * 0x1000);
    var e, p := Find(v.list, frame, 0), Free(v, frame).v;
    FreeSplits(v, frame);
    SplitIs(v, e, frame, PAGE);
    FreeSound(v, base, frame);
    SoundShaped(p, base);
    if v.HasSlot() && count > 1 {
      SplitNext(v, e, frame, PAGE);
      RestHeld(v, p, base, frame, count, e);
    }
  }

  lemma RestHeld(v: VMap, p: VMap, base: nat, frame: nat, count: nat, e: nat)
    requires Holding(v, base, frame, count) && count > 1 && Sound(p, base) && p.list != [] && Removes(v.list, p.list, frame, PAGE)
    requires e + 1 < |p.list| && p.list[e + 1].base == frame + PAGE && frame + count * 0x1000 <= p.list[e + 1].End()
    ensures Holding(p, base, frame + PAGE, count - 1) && StartsLater(p.list, frame + PAGE)
    ensures EndOf(p.list, frame + PAGE) == p.list[e + 1].End()
  {
    hide Covers, RangeSlots.SlotsSafe;
    var a := frame + PAGE;
    assert p.list[e + 1].length > 0;
    FindIs(p.list, a);
    var k := Find(p.list, a, 0);
    if k < e { OrderedApart(p.list, k + 1, e + 1); }
  }

  lemma UndoneAfterFirst(v: VMap, p: VMap, v': VMap, base: nat, frame: nat, count: nat, lost: bool)
    requires v.list != [] && p.list != [] && count > 1 && Removes(v.list, p.list, frame, PAGE)
    requires EndOf(p.list, frame + PAGE) == EndOf(v.list, frame)
    requires Undone(p, v', base, frame + PAGE, count - 1, lost, false)
    ensures Undone(v, v', base, frame, count, lost, false)
    ensures Covers(p.list, frame + count * 0x1000) <==> Covers(v.list, frame + count * 0x1000)
  {
    hide Covers, Sound, EndOf;
  }

  // ---------------------------------------------------------------------------
  // One slot is not enough
  // ---------------------------------------------------------------------------

  /** A word with at most its top bit set. */
  function TopBitOnly(top: bool): Word64 {
    seq(64, j => top && j == 63)
  }

  function ClearWords(n: nat): (ws: seq<Word64>)
    ensures |ws| == n && forall i | 0 <= i < n :: ws[i] == TopBitOnly(false)
  {
    if n == 0 then [] else ClearWords(n - 1) + [TopBitOnly(false)]
  }

  /** One page at 0x1000, five at 0x5000, and one slot left. */
  function TwoEntries(): VMap {
    VMap([Range(0, 0x1000, 0x1000), Range(127, 0x5000, 0x5000)], [TopBitOnly(true), TopBitOnly(true)] + ClearWords(10), 3, 0)
  }

  /** With the gap closed they are one entry. */
  lemma GapClosed(v: VMap)
    requires v == TwoEntries()
    ensures v.Shaped()
    ensures var o := AllocMultipleAt(v, 0x2000, 3);
            && o.result == 0 && o.v.list == [Range(0, 0x1000, 0x9000)] && o.v.limit == 3 && |o.v.words| == 12
            && o.v.words[0] == o.v.words[1] == TopBitOnly(true) && o.v.words[2] == TopBitOnly(false)
  {
    assert Find(v.list, 0x2000, 0) == 0;
  }

  /** The one slot is spent on the first cut. */
  lemma SlotSpent(v1: VMap)
    requires v1.list == [Range(0, 0x1000, 0x9000)] && v1.limit == 3 && |v1.words| == 12
    requires v1.words[0] == v1.words[1] == TopBitOnly(true) && v1.words[2] == TopBitOnly(false)
    ensures v1.Shaped() && v1.HasSlot() && Free(v1, 0x2000).v.Shaped() && !Free(v1, 0x2000).v.HasSlot()
  {
    var ws := v1.words[..3];
    RangeSlots.PickedWord(ws, 2);
    var ws' := Free(v1, 0x2000).v.words[..3];
    assert Free(v1, 0x2000).v.words == FrameBitmap.Taken(ws) + v1.words[3..];
    assert ws' == FrameBitmap.Taken(ws);
    RangeSlots.TakenTop(ws);
    RoomIff(ws'[0]);
    RoomIff(ws'[1]);
    RoomIff(ws'[2]);
  }

  lemma WholeEntry(v1: VMap)
    requires v1.list == [Range(0, 0x1000, 0x9000)] && v1.Shaped() && |v1.words| > 0 && v1.words[0][63]
    ensures Holding(v1, 0x1000, 0x2000, 3) && Covers(v1.list, 0x5000) && !StartsLater(v1.list, 0x2000) && EndOf(v1.list, 0x2000) == 0xA000
  {
    EntryCovers(v1.list, 0);
  }

  /** A block of three pages goes between two entries, its third page cannot be
      mapped, and there is a slot: the rollback drops the page at 0x5000, which
      was allocated before the call. */
  lemma OneSlotIsNotEnough()
    ensures var v := TwoEntries();
            && v.Shaped() && RangeSlots.SlotSafe(v) && Ordered(v.list) && Covers(v.list, 0x5000)
            && var v1 := AllocMultipleAt(v, 0x2000, 3).v;
               v1.HasSlot() && !Covers(UndoneBlock(v1, 0x2000, 3, 2, []).list, 0x5000)
  {
    hide AllocMultipleAt, UndoneBlock, Free, Covers, VMap.HasSlot, Holding, EndOf;
    var v := TwoEntries();
    GapClosed(v);
    EntryCovers(v.list, 1);
    var v1 := AllocMultipleAt(v, 0x2000, 3).v;
    SlotSpent(v1);
    WholeEntry(v1);
    assert Left([], 0) != -1;
    UndoneIs(v1, 0x1000, 0x2000, 3, 2, []);
  }
}
