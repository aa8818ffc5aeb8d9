/**
 What `page_alloc_multiple_at` and `page_free_multiple` do to a consistent
 state: translations, frames and the list, and when the state stays consistent.
 */
module BlockRequests {
  import opened Options
  import opened Words
  import opened Addresses
  import opened PageTables
  import opened Mapping
  import opened VirtualRanges
  import opened RangeSets
  import opened RangeFrees
  import opened Kernel
  import opened TableCounts
  import opened Rollback
  import opened UndoneLists
  import FrameBitmap
  import PageRequests
  import Paging
  import RangeFits
  import RangeSlots

  // ---------------------------------------------------------------------------
  // The block on the list
  // ---------------------------------------------------------------------------

  /** What the arguments have to be: a block of page addresses under managed slots. */
  ghost predicate ProperBlock(slots: set<nat>, offset: nat, frame: nat, count: nat) {
    GoodBlock(slots, frame, count) && 0x0000_FF80_0000_0000 < offset
  }

  lemma InvSound(k: State, root: nat, slots: set<nat>)
    requires Inv(k, root, slots)
    ensures k.Shaped() && k.v.list != [] && Ordered(k.v.list) && !k.panicked && Sound(k.v, k.v.list[0].base)
    ensures Good(k.mem, root, slots, true, Bitmap(k.bits))
  {
  }

  lemma AllocMultipleAtKeeps(v: VMap, base: nat, frame: nat, count: nat)
    requires Sound(v, base) && v.list != [] && count > 0
    requires frame % 0x1000 == 0 && frame + count * 0x1000 < WORD
    ensures v.Shaped()
    ensures var o := AllocMultipleAt(v, frame, count);
            && -1 <= o.result <= 1 && (o.result != 0 ==> o.v == v) && (Overlaps(v.list, frame, count * 0x1000) ==> o.result == 1)
            && (o.result == 0 ==> !Overlaps(v.list, frame, count * 0x1000) && Adds(v.list, o.v.list, frame, count * 0x1000)
                                  && Holding(o.v, base, frame, count))
  {
    RangeFits.AllocMultipleAtKeepsOrder(v, frame, count);
    RangeFits.AllocMultipleAtExact(v, frame, count);
    RangeSlots.AtSlots(v, frame, count);
    PlaceAdds(v, Find(v.list, frame, 0), frame, count * 0x1000);
    hide Ordered, Covers, Place;
  }

  /** With the block on the list the loop can start. */
  lemma BlockPlaced(k: State, root: nat, slots: set<nat>, offset: nat, frame: nat, count: nat)
    requires Inv(k, root, slots) && k.Shaped() && ProperBlock(slots, offset, frame, count) && count > 0
    requires AllocMultipleAt(k.v, frame, count).result == 0
    ensures var o := AllocMultipleAt(k.v, frame, count);
            && Midway(k.(v := o.v), root, slots, frame, count, 0) && Holding(o.v, k.v.list[0].base, frame, count)
            && Registered(k.mem, o.v.list, root, slots)
            && (forall p: nat | p < PAGES && BlockHas(p, frame, count) :: Translate(k.mem, root, p) == None)
  {
    var o := AllocMultipleAt(k.v, frame, count);
    AllocMultipleAtKeeps(k.v, k.v.list[0].base, frame, count);
    hide Good, AllocMultipleAt, Holding, Walk, Translate, Ordered, RangeSlots.SlotSafe, VMap.Shaped;
    forall p: nat | p < PAGES && Managed(slots, 4, p) && Walk(k.mem, root, 4, p).Table? ensures Covers(o.v.list, AddressOf(p)) {
      assert Covers(k.v.list, AddressOf(p));
    }
    forall p: nat | p < PAGES && BlockHas(p, frame, count)
      ensures !Walk(k.mem, root, 4, p).Table? && Translate(k.mem, root, p) == None
    {
      ManagedInBlock(slots, frame, count, p);
      MappedTranslates(k.mem, root, slots, Bitmap(k.bits), p);
      assert !Covers(k.v.list, AddressOf(p));
    }
  }

  // ---------------------------------------------------------------------------
  // page_alloc_multiple_at
  // ---------------------------------------------------------------------------

  /** The result: refused without a look at the frames; 0 exactly if there are
      frames for all pages and for all the tables they need. */
  ghost function BlockResult(k: State, root: nat, frame: nat, count: nat): int
    requires k.Shaped()
  {
    if AllocMultipleAt(k.v, frame, count).result != 0 then AllocMultipleAt(k.v, frame, count).result
    else if FramesFor(k, root, frame, count) then 0 else -1
  }

  /** page_alloc_multiple_at, for every pattern of failures and every value that
      page_unmap leaves behind: the kernel does not panic, and the tables stay
      consistent. Result 0: all pages of the block, free before, are registered
      and mapped to frames that were free, and nothing else changes. Any other
      result: every translation is as before. */
  lemma MultipleAtIsAllOrNothing(k: State, root: nat, slots: set<nat>, offset: nat, frame: nat, count: nat,
        garbage: seq<int>)
    requires Inv(k, root, slots) && k.Shaped() && ProperBlock(slots, offset, frame, count)
    ensures var (k', r) := PageAllocMultipleAt(k, root, offset, frame, count, garbage);
            && r == BlockResult(k, root, frame, count) && !k'.panicked && StaysTaken(k.bits, k'.bits)
            && Good(k'.mem, root, slots, true, Bitmap(k'.bits))
            && (r == 0 ==> k'.v == AllocMultipleAt(k.v, frame, count).v && Adds(k.v.list, k'.v.list, frame, count * 0x1000)
                           && !Overlaps(k.v.list, frame, count * 0x1000))
            && (r == 1 ==> k' == k) && (count > 0 && Overlaps(k.v.list, frame, count * 0x1000) ==> r == 1)
            && (forall p: nat | p < PAGES :: if r == 0 && BlockHas(p, frame, count)
                  then Translate(k.mem, root, p) == None && MappedFresh(k.bits, k'.mem, root, p)
                  else Translate(k'.mem, root, p) == Translate(k.mem, root, p))
  {
    hide Inv, Good, AllocMultipleAt, PageAllocMultipleAt, Overlaps, Adds, Covers, FramesFor, GoodBlock, Holding,
      MappedFresh, BlockHas,
      StaysTaken, Translate, Ordered, AllOrNothing, BlockResult;
    InvSound(k, root, slots);
    if count > 0 {
      BlockAligned(slots, frame, count);
      AllocMultipleAtKeeps(k.v, k.v.list[0].base, frame, count);
    }
    if count > 0 && AllocMultipleAt(k.v, frame, count).result == 0 {
      BlockPlaced(k, root, slots, offset, frame, count);
      BlockLoop(k, root, slots, offset, frame, count, garbage);
      LoopResult(k, root, slots, offset, frame, count, garbage);
    } else {
      BlockRefused(k, root, offset, frame, count, garbage);
    }
  }

  lemma BlockRefused(k: State, root: nat, offset: nat, frame: nat, count: nat, garbage: seq<int>)
    requires k.Shaped() && !k.panicked
    requires count > 0 ==> var o := AllocMultipleAt(k.v, frame, count); o.result != 0 && o.v == k.v
    ensures PageAllocMultipleAt(k, root, offset, frame, count, garbage) == (k, BlockResult(k, root, frame, count))
    ensures StaysTaken(k.bits, k.bits) && BlockResult(k, root, frame, count) == AllocMultipleAt(k.v, frame, count).result != 0
  {
  }

  lemma LoopResult(k: State, root: nat, slots: set<nat>, offset: nat, frame: nat, count: nat, garbage: seq<int>)
    requires k.Shaped() && count > 0 && AllocMultipleAt(k.v, frame, count).result == 0
    requires var v1 := AllocMultipleAt(k.v, frame, count).v;
             var (k', r) := PageAllocMultipleAt(k, root, offset, frame, count, garbage);
             AllOrNothing(k.(v := v1), k', r, root, slots, frame, count, 0) && (r == 0 <==> FramesFor(k, root, frame, count))
    requires forall p: nat | p < PAGES && BlockHas(p, frame, count) :: Translate(k.mem, root, p) == None
    ensures var (k', r) := PageAllocMultipleAt(k, root, offset, frame, count, garbage);
            && r == BlockResult(k, root, frame, count) && !k'.panicked && StaysTaken(k.bits, k'.bits) && (r == 0 || r == -1)
            && Good(k'.mem, root, slots, true, Bitmap(k'.bits))
            && (r == 0 ==> k'.v == AllocMultipleAt(k.v, frame, count).v)
            && (forall p: nat | p < PAGES :: if r == 0 && BlockHas(p, frame, count)
                  then Translate(k.mem, root, p) == None && MappedFresh(k.bits, k'.mem, root, p)
                  else Translate(k'.mem, root, p) == Translate(k.mem, root, p))
  {
    hide Good, PageAllocMultipleAt, AllocMultipleAt, FramesFor, MappedFresh, StaysTaken, Translate;
  }

  lemma BlockAligned(slots: set<nat>, frame: nat, count: nat)
    requires GoodBlock(slots, frame, count)
    ensures frame % 0x1000 == 0 && frame + count * 0x1000 < WORD
  {
  }

  /** The page at which the loop fails, or count. */
  function FailingPage(k: State, root: nat, frame: nat, count: nat): (i: nat)
    ensures i <= count
  {
    FailedAt(k, root, frame, count, 0)
  }

  /** It is the first for which the frames do not suffice. */
  lemma FailingPageIs(k: State, root: nat, slots: set<nat>, frame: nat, count: nat)
    requires Midway(k, root, slots, frame, count, 0) && GoodBlock(slots, frame, count)
    ensures var i := FailingPage(k, root, frame, count);
            && (forall n: nat | n <= count :: FramesFor(k, root, frame, n) <==> n <= i)
  {
    hide Midway, GoodBlock, FramesFor;
    var i := FailingPage(k, root, frame, count);
    CameFromStart(k, root, frame);
    FailedAtIs(k, k, root, slots, frame, count, 0);
    forall n: nat | n <= count ensures FramesFor(k, root, frame, n) <==> n <= i {
      if n <= i {
        EnoughForFewer(k, root, frame, n, i);
      } else if FramesFor(k, root, frame, n) {
        EnoughForFewer(k, root, frame, i + 1, n);
      }
    }
  }

  lemma BlockLoop(k: State, root: nat, slots: set<nat>, offset: nat, frame: nat, count: nat, garbage: seq<int>)
    requires Inv(k, root, slots) && k.Shaped() && ProperBlock(slots, offset, frame, count) && count > 0
    requires AllocMultipleAt(k.v, frame, count).result == 0
    ensures var v1 := AllocMultipleAt(k.v, frame, count).v;
            var (k', r) := PageAllocMultipleAt(k, root, offset, frame, count, garbage);
            var i := FailingPage(k, root, frame, count);
            && v1.Shaped() && v1.list != [] && AllOrNothing(k.(v := v1), k', r, root, slots, frame, count, 0)
            && (r == 0 || r == -1) && (r == 0 <==> FramesFor(k, root, frame, count)) && (r == 0 <==> i == count)
            && (r == -1 ==> k'.v == UndoneBlock(v1, frame, count, i, garbage))
            && (forall n: nat | n <= count :: FramesFor(k, root, frame, n) <==> n <= i)
  {
    hide AllocMultipleAt, Inv, Midway, GoodBlock, MapBlock, AllOrNothing, FramesFor, UndoneBlock, Holding, Covers;
    var v1 := AllocMultipleAt(k.v, frame, count).v;
    var k0 := k.(v := v1);
    BlockPlaced(k, root, slots, offset, frame, count);
    HoldingShaped(v1, k.v.list[0].base, frame, count);
    MapBlockIs(k0, root, slots, offset, frame, count, 0, garbage);
    SucceedsAtEnd(k0, root, offset, frame, count, 0, garbage);
    FailingPageIs(k0, root, slots, frame, count);
    OtherList(k, v1, root, frame, count, 0);
    ResultOf(k0, MapBlock(k0, root, offset, frame, count, 0, garbage), root, slots, frame, count);
    forall n: nat | n <= count ensures FramesFor(k0, root, frame, n) == FramesFor(k, root, frame, n) {
      SameFrames(k, v1, root, frame, n);
    }
    if MapBlock(k0, root, offset, frame, count, 0, garbage).1 == -1 {
      BlockList(k0, root, offset, frame, count, 0, garbage);
    }
  }

  lemma ResultOf(k: State, r: (State, int), root: nat, slots: set<nat>, frame: nat, count: nat)
    requires AllOrNothing(k, r.0, r.1, root, slots, frame, count, 0)
    ensures r.1 == 0 || r.1 == -1
  {
    hide Good;
  }

  lemma SameFrames(k: State, v: VMap, root: nat, frame: nat, n: nat)
    ensures FramesFor(k.(v := v), root, frame, n) == FramesFor(k, root, frame, n)
  {
    hide Needed;
  }

  /** Which page fails does not depend on the list. */
  lemma {:induction false} OtherList(k: State, v: VMap, root: nat, frame: nat, count: nat, i: nat)
    requires i <= count
    ensures FailedAt(k.(v := v), root, frame, count, i) == FailedAt(k, root, frame, count, i)
    decreases count - i
  {
    if i < count && FrameBitmap.CanTake(k.bits) {
      var k1 := Round(k, root, frame, i).0;
      assert Round(k.(v := v), root, frame, i) == (k1.(v := v), Round(k, root, frame, i).1);
      hide Round, FrameBitmap.CanTake;
      OtherList(k1, v, root, frame, count, i + 1);
    }
  }

  // ---------------------------------------------------------------------------
  // Frames drawn
  // ---------------------------------------------------------------------------

  /** The frames drawn for n pages of the block and for all the tables they need. */
  ghost function FramesOf(k: State, root: nat, frame: nat, n: nat): nat {
    n + Needed(k.mem, root, Page(frame), n)
  }

  /** Whatever the call answers: refused, it draws no frame; otherwise one for
      each page and for each table missing, or all there are. No frame comes
      back, whatever the rollback frees. */
  lemma MultipleAtDraws(k: State, root: nat, slots: set<nat>, offset: nat, frame: nat, count: nat, garbage: seq<int>)
    requires Inv(k, root, slots) && k.Shaped() && ProperBlock(slots, offset, frame, count)
    ensures Bitmap(PageAllocMultipleAt(k, root, offset, frame, count, garbage).0.bits) ==
              DrawnTimes(Bitmap(k.bits), if AllocMultipleAt(k.v, frame, count).result != 0 then 0 else FramesOf(k, root, frame, count))
  {
    hide Inv, Good, AllocMultipleAt, GoodBlock, Holding, BlockHas, Translate, Ordered, MapBlock, Came, FramesOf, Midway, Covers;
    InvSound(k, root, slots);
    if count > 0 {
      BlockAligned(slots, frame, count);
      AllocMultipleAtKeeps(k.v, k.v.list[0].base, frame, count);
    }
    if count > 0 && AllocMultipleAt(k.v, frame, count).result == 0 {
      var k0 := k.(v := AllocMultipleAt(k.v, frame, count).v);
      BlockPlaced(k, root, slots, offset, frame, count);
      HoldingShaped(k0.v, k.v.list[0].base, frame, count);
      CameFromStart(k0, root, frame);
      NothingNeeded(k0, root, frame);
      assert FramesOf(k0, root, frame, count) == FramesOf(k, root, frame, count) by {
        SameFramesOf(k, k0.v, root, frame, count);
      }
      LoopDraws(k0, k0, root, slots, offset, frame, count, 0, garbage);
    } else {
      BlockRefused(k, root, offset, frame, count, garbage);
    }
  }

  lemma SameFramesOf(k: State, v: VMap, root: nat, frame: nat, n: nat)
    ensures FramesOf(k.(v := v), root, frame, n) == FramesOf(k, root, frame, n)
  {
    hide Needed;
  }

  lemma NothingNeeded(k: State, root: nat, frame: nat)
    ensures FramesOf(k, root, frame, 0) == 0
  {
    CameFromStart(k, root, frame);
  }

  lemma {:induction false} LoopDraws(k0: State, k: State, root: nat, slots: set<nat>, offset: nat, frame: nat, count: nat, i: nat,
        garbage: seq<int>)
    requires k.Shaped() && Midway(k, root, slots, frame, count, i) && i <= count && GoodBlock(slots, frame, count)
    requires Came(k0, k, root, frame, i) && Bitmap(k.bits) == DrawnTimes(Bitmap(k0.bits), FramesOf(k0, root, frame, i))
    ensures Bitmap(MapBlock(k, root, offset, frame, count, i, garbage).0.bits) ==
              DrawnTimes(Bitmap(k0.bits), FramesOf(k0, root, frame, count))
    decreases count - i
  {
    hide Round, RoundDone, Midway, Undo, GoodBlock, Came, FrameBitmap.CanTake, FrameBitmap.Picked, FrameBitmap.Released, FramesOf,
      VMap.Shaped, DrawnTimes;
    if i == count {
    } else if !FrameBitmap.CanTake(k.bits) {
      UndoKeepsBits(k, root, offset, frame, count, i, garbage);
      AllDrawn(k0, k.bits, root, frame, i, count);
    } else {
      var (k1, r) := Round(k, root, frame, i);
      RoundIs(k, root, slots, frame, count, i);
      RoundCases(k, k1, r, root, slots, frame, count, i);
      CameNext(k0, k, k1, r, root, slots, frame, count, i);
      RoundDraws(k0, k, root, slots, frame, count, i);
      if r == -1 {
        UndoKeepsBits(k1, root, offset, frame, count, i, garbage);
        AllDrawn(k0, k1.bits, root, frame, i + 1, count);
      } else {
        LoopDraws(k0, k1, root, slots, offset, frame, count, i + 1, garbage);
      }
    }
  }

  /** Once none is left, no more pages draw any. */
  lemma AllDrawn(k0: State, bits: seq<Word64>, root: nat, frame: nat, i: nat, n: nat)
    requires i <= n && Bitmap(bits) == DrawnTimes(Bitmap(k0.bits), FramesOf(k0, root, frame, i)) && !FrameBitmap.CanTake(bits)
    ensures Bitmap(bits) == DrawnTimes(Bitmap(k0.bits), FramesOf(k0, root, frame, n))
  {
    hide DrawnTimes, Needed;
    NeededGrows(k0.mem, root, Page(frame), i, n);
    var more := FramesOf(k0, root, frame, n) - FramesOf(k0, root, frame, i);
    DrawnMore(Bitmap(k0.bits), FramesOf(k0, root, frame, i), more);
    PageRequests.NoneDrawn(bits, more);
  }

  /** One round draws the frames of one more page; if it fails, none is left. */
  lemma RoundDraws(k0: State, k: State, root: nat, slots: set<nat>, frame: nat, count: nat, i: nat)
    requires Midway(k, root, slots, frame, count, i) && i < count && GoodBlock(slots, frame, count) && FrameBitmap.CanTake(k.bits)
    requires Came(k0, k, root, frame, i) && Bitmap(k.bits) == DrawnTimes(Bitmap(k0.bits), FramesOf(k0, root, frame, i))
    ensures var (k1, r) := Round(k, root, frame, i);
            && Bitmap(k1.bits) == DrawnTimes(Bitmap(k0.bits), FramesOf(k0, root, frame, i + 1))
            && (r == -1 ==> !FrameBitmap.CanTake(k1.bits))
  {
    hide Midway, GoodBlock, FrameBitmap.CanTake, FrameBitmap.Rooms, Round, Needed, DrawnTimes, Missing, TablesThere;
    PagesOfBlock(slots, frame, count, i);
    MissingNext(k0.mem, k.mem, root, Page(frame), i);
    RoundBits(k, root, slots, frame, count, i);
    var more := Missing(k.mem, root, Page(frame + i * 0x1000), 0);
    DrawnMore(Bitmap(k0.bits), FramesOf(k0, root, frame, i), 1 + more);
    if Round(k, root, frame, i).1 == -1 {
      NoneLeft(k.bits, Round(k, root, frame, i).0.bits, 1 + more);
    }
  }

  lemma RoundBits(k: State, root: nat, slots: set<nat>, frame: nat, count: nat, i: nat)
    requires Midway(k, root, slots, frame, count, i) && i < count && GoodBlock(slots, frame, count) && FrameBitmap.CanTake(k.bits)
    ensures var (k1, r) := Round(k, root, frame, i);
            var more := Missing(k.mem, root, Page(frame + i * 0x1000), 0);
            Bitmap(k1.bits) == DrawnTimes(Bitmap(k.bits), 1 + more) && (r == -1 ==> FrameBitmap.Rooms(k.bits) <= more)
  {
    hide Midway, Good, GoodBlock, FrameBitmap.CanTake, FrameBitmap.Picked, FrameBitmap.Taken, FrameBitmap.Released, DrawnTimes,
      Paging.MapPage, Missing, Page, Pml4Index, FrameBitmap.Rooms, Retranslated, StaysTaken, GrowsAlong, Paging.HasTables;
    var a := frame + i * 0x1000;
    NthOfBlock(slots, frame, count, i);
    MidwayTables(k, root, slots, frame, count, i);
    PageRequests.MappingDraws(k.mem, k.bits, root, slots, a);
    PageRequests.OneDrawn(k.bits, Missing(k.mem, root, Page(a), 0));
    RoundIs(k, root, slots, frame, count, i);
  }

  lemma MidwayTables(k: State, root: nat, slots: set<nat>, frame: nat, count: nat, i: nat)
    requires Midway(k, root, slots, frame, count, i)
    ensures Good(k.mem, root, slots, true, Bitmap(k.bits))
  {
  }

  lemma NoneLeft(bits: seq<Word64>, bits': seq<Word64>, n: nat)
    requires Bitmap(bits') == DrawnTimes(Bitmap(bits), n) && FrameBitmap.Rooms(bits) <= n
    ensures !FrameBitmap.CanTake(bits')
  {
    hide DrawnTimes;
    DrawnRooms(Bitmap(bits), n);
    FrameBitmap.RoomsPositive(bits');
  }

  // ---------------------------------------------------------------------------
  // When the state stays consistent
  // ---------------------------------------------------------------------------

  /** The call fails for want of frames, and its rollback takes mapped pages
      behind the block off the list. */
  ghost predicate BlockTrouble(k: State, root: nat, slots: set<nat>, frame: nat, count: nat, garbage: seq<int>)
    requires k.Shaped()
  {
    var o := AllocMultipleAt(k.v, frame, count);
    && o.result == 0 && !FramesFor(k, root, frame, count)
    && Loses(o.v, frame, FailingPage(k, root, frame, count), count, garbage)
    && MappedIn(k.mem, root, slots, frame + count * 0x1000, EndOf(o.v.list, frame))
  }

  /** page_alloc_multiple_at keeps the state consistent exactly if there is no such trouble. */
  lemma MultipleAtConsistentIff(k: State, root: nat, slots: set<nat>, offset: nat, frame: nat, count: nat,
        garbage: seq<int>)
    requires Inv(k, root, slots) && k.Shaped() && ProperBlock(slots, offset, frame, count)
    ensures Inv(PageAllocMultipleAt(k, root, offset, frame, count, garbage).0, root, slots) <==>
              !BlockTrouble(k, root, slots, frame, count, garbage)
  {
    hide Inv, Good, AllocMultipleAt, PageAllocMultipleAt, Overlaps, Adds, Covers, FramesFor, GoodBlock, Holding,
      MappedFresh, BlockHas,
      StaysTaken, Translate, Ordered, AllOrNothing, BlockResult, Loses, EndOf, MappedIn, FailingPage;
    InvSound(k, root, slots);
    if count > 0 {
      BlockAligned(slots, frame, count);
      AllocMultipleAtKeeps(k.v, k.v.list[0].base, frame, count);
    }
    if count > 0 && AllocMultipleAt(k.v, frame, count).result == 0 {
      MultipleAtIsAllOrNothing(k, root, slots, offset, frame, count, garbage);
      BlockLoop(k, root, slots, offset, frame, count, garbage);
      BlockPlaced(k, root, slots, offset, frame, count);
      if FramesFor(k, root, frame, count) {
        ConsistentAfterSuccess(k, root, slots, offset, frame, count, garbage);
      } else {
        ConsistentAfterFailure(k, root, slots, offset, frame, count, garbage);
      }
    } else {
      BlockRefused(k, root, offset, frame, count, garbage);
    }
  }

  /** Under managed slots, what is mapped is what translates. */
  lemma MappedPages(m: Memory, root: nat, slots: set<nat>, bits: seq<Word64>)
    requires Good(m, root, slots, true, Bitmap(bits))
    ensures forall p: nat | p < PAGES && Managed(slots, 4, p) :: Walk(m, root, 4, p).Table? <==> Translate(m, root, p).Some?
  {
    hide Good, Walk, Translate;
    forall p: nat | p < PAGES && Managed(slots, 4, p) ensures Walk(m, root, 4, p).Table? <==> Translate(m, root, p).Some? {
      MappedTranslates(m, root, slots, Bitmap(bits), p);
    }
  }

  lemma ConsistentAfterSuccess(k: State, root: nat, slots: set<nat>, offset: nat, frame: nat, count: nat,
        garbage: seq<int>)
    requires Inv(k, root, slots) && k.Shaped() && count > 0
    requires Holding(AllocMultipleAt(k.v, frame, count).v, k.v.list[0].base, frame, count)
    requires Registered(k.mem, AllocMultipleAt(k.v, frame, count).v.list, root, slots)
    requires var (k', r) := PageAllocMultipleAt(k, root, offset, frame, count, garbage);
             && !k'.panicked && Good(k'.mem, root, slots, true, Bitmap(k'.bits)) && k'.v == AllocMultipleAt(k.v, frame, count).v
             && (forall p: nat | p < PAGES && !BlockHas(p, frame, count) :: Translate(k'.mem, root, p) == Translate(k.mem, root, p))
    ensures Inv(PageAllocMultipleAt(k, root, offset, frame, count, garbage).0, root, slots)
  {
    hide AllocMultipleAt, PageAllocMultipleAt, Good, Ordered, RangeSlots.SlotSafe, Walk, Translate, Managed, Covers;
    var k' := PageAllocMultipleAt(k, root, offset, frame, count, garbage).0;
    MappedPages(k.mem, root, slots, k.bits);
    MappedPages(k'.mem, root, slots, k'.bits);
  }

  lemma ConsistentAfterFailure(k: State, root: nat, slots: set<nat>, offset: nat, frame: nat, count: nat,
        garbage: seq<int>)
    requires Inv(k, root, slots) && k.Shaped() && count > 0
    requires Holding(AllocMultipleAt(k.v, frame, count).v, k.v.list[0].base, frame, count)
    requires Registered(k.mem, AllocMultipleAt(k.v, frame, count).v.list, root, slots)
    requires forall p: nat | p < PAGES && BlockHas(p, frame, count) :: Translate(k.mem, root, p) == None
    requires var (k', r) := PageAllocMultipleAt(k, root, offset, frame, count, garbage);
             var i := FailingPage(k, root, frame, count);
             && !k'.panicked && Good(k'.mem, root, slots, true, Bitmap(k'.bits)) && i < count
             && AllocMultipleAt(k.v, frame, count).v.Shaped() && AllocMultipleAt(k.v, frame, count).v.list != []
             && k'.v == UndoneBlock(AllocMultipleAt(k.v, frame, count).v, frame, count, i, garbage)
             && (forall p: nat | p < PAGES :: Translate(k'.mem, root, p) == Translate(k.mem, root, p))
    ensures var v1, i := AllocMultipleAt(k.v, frame, count).v, FailingPage(k, root, frame, count);
            Inv(PageAllocMultipleAt(k, root, offset, frame, count, garbage).0, root, slots) <==>
              !(Loses(v1, frame, i, count, garbage) && MappedIn(k.mem, root, slots, frame + count * 0x1000, EndOf(v1.list, frame)))
  {
    hide AllocMultipleAt, PageAllocMultipleAt, Good, Ordered, RangeSlots.SlotSafe, Walk, Translate, Managed, Covers,
      UndoneBlock, EndOf, Loses,
      Registered, MappedIn, Holding;
    var k' := PageAllocMultipleAt(k, root, offset, frame, count, garbage).0;
    var v1, i := AllocMultipleAt(k.v, frame, count).v, FailingPage(k, root, frame, count);
    MappedPages(k.mem, root, slots, k.bits);
    MappedPages(k'.mem, root, slots, k'.bits);
    UndoneIs(v1, k.v.list[0].base, frame, count, i, garbage);
    RegisteredUndoneIff(k.mem, k'.mem, v1, k'.v, root, slots, k.v.list[0].base, frame, count, Loses(v1, frame, i, count, garbage),
                        Clears(v1, frame, i, count, garbage));
  }

  /** After the rollback everything mapped is on the list, unless something was lost. */
  lemma RegisteredUndoneIff(m: Memory, m': Memory, v: VMap, v': VMap, root: nat, slots: set<nat>, base: nat, frame: nat,
        count: nat, lost: bool, cleared: bool)
    requires Registered(m, v.list, root, slots) && v.list != [] && Undone(v, v', base, frame, count, lost, cleared)
    requires Holding(v, base, frame, count)
    requires forall p: nat | p < PAGES && Managed(slots, 4, p) :: Walk(m', root, 4, p).Table? <==> Walk(m, root, 4, p).Table?
    requires forall p: nat | p < PAGES && Managed(slots, 4, p) && BlockHas(p, frame, count) :: !Walk(m, root, 4, p).Table?
    ensures Registered(m', v'.list, root, slots) <==>
              !(lost && MappedIn(m, root, slots, frame + count * 0x1000, EndOf(v.list, frame)))
  {
    hide Walk, Managed, Covers, EndOf, Sound, Holding, AddressOf;
    var hi := frame + count * 0x1000;
    if lost && MappedIn(m, root, slots, hi, EndOf(v.list, frame)) {
      var p: nat :| p < PAGES && Managed(slots, 4, p) && Walk(m, root, 4, p).Table? && hi <= AddressOf(p) < EndOf(v.list, frame);
      assert !Covers(v'.list, AddressOf(p));
    }
  }

  // ---------------------------------------------------------------------------
  // What the rollback restores
  // ---------------------------------------------------------------------------

  ghost predicate SamePages(list: seq<Range>, list': seq<Range>) {
    forall a: nat :: Covers(list', a) <==> Covers(list, a)
  }

  /** The block goes on top of the entry found, and not to an entry that starts with it. */
  ghost predicate OnTop(v: VMap, frame: nat)
    requires |v.list| > 0
  {
    v.list[Find(v.list, frame, 0)].End() == frame
  }

  lemma OnTopIff(v: VMap, frame: nat, count: nat)
    requires v.Shaped() && v.list != [] && Ordered(v.list) && count > 0
    requires AllocMultipleAt(v, frame, count).result == 0 && Ordered(AllocMultipleAt(v, frame, count).v.list)
    ensures StartsLater(AllocMultipleAt(v, frame, count).v.list, frame) <==> !OnTop(v, frame)
  {
    hide AllocMultipleAt, StartsLater, Ordered, Find;
    if OnTop(v, frame) {
      PlacedOnTop(v, frame, count);
      NotAtStart(AllocMultipleAt(v, frame, count).v.list, Find(v.list, frame, 0), frame);
    } else {
      PlacedApart(v, frame, count);
    }
  }

  lemma PlacedOnTop(v: VMap, frame: nat, count: nat)
    requires v.Shaped() && v.list != [] && count > 0
    requires AllocMultipleAt(v, frame, count).result == 0 && OnTop(v, frame)
    ensures var e, l1 := Find(v.list, frame, 0), AllocMultipleAt(v, frame, count).v.list;
            e < |l1| && l1[e].base <= frame < l1[e].End() && (e > 0 ==> l1[e].base < frame)
  {
  }

  lemma PlacedApart(v: VMap, frame: nat, count: nat)
    requires v.Shaped() && v.list != [] && count > 0
    requires AllocMultipleAt(v, frame, count).result == 0 && !OnTop(v, frame)
    ensures StartsLater(AllocMultipleAt(v, frame, count).v.list, frame)
  {
    var e, l1 := Find(v.list, frame, 0), AllocMultipleAt(v, frame, count).v.list;
    assert l1[e + 1].base == frame && l1[e + 1].length > 0;
  }

  lemma NotAtStart(list: seq<Range>, e: nat, a: nat)
    requires Ordered(list) && e < |list| && list[e].base <= a < list[e].End() && (e > 0 ==> list[e].base < a)
    ensures !StartsLater(list, a)
  {
    forall j | 1 <= j < |list| ensures list[j].base != a {
      if j < e { OrderedApart(list, j, e); }
      if j > e { OrderedApart(list, e, j); }
    }
  }

  /** A failed call restores the set of allocated pages exactly if the block was
      put on top of an entry, and the free that hits it takes all of it and no
      more: for a failure at the first page, a block followed by an allocated
      page needs a slot and any other has to be a single page; for a later
      failure no slot may be left, page_unmap must once not have ended in -1,
      and no allocated page may follow. */
  lemma FailureRestoresPagesIff(k: State, root: nat, slots: set<nat>, offset: nat, frame: nat, count: nat,
        garbage: seq<int>)
    requires Inv(k, root, slots) && k.Shaped() && ProperBlock(slots, offset, frame, count) && count > 0
    requires AllocMultipleAt(k.v, frame, count).result == 0 && !FramesFor(k, root, frame, count)
    ensures var v1 := AllocMultipleAt(k.v, frame, count).v;
            var i, followed := FailingPage(k, root, frame, count), Covers(k.v.list, frame + count * 0x1000);
            SamePages(k.v.list, PageAllocMultipleAt(k, root, offset, frame, count, garbage).0.v.list) <==>
              && OnTop(k.v, frame)
              && if i == 0 then if followed then v1.HasSlot() else count == 1
                 else !followed && !v1.HasSlot() && SomeReported(garbage, i)
  {
    hide Inv, Good, AllocMultipleAt, PageAllocMultipleAt, Overlaps, FramesFor, GoodBlock, Holding, MappedFresh,
      Ordered, AllOrNothing, EndOf, FailingPage, UndoneBlock, Covers, StartsLater, OnTop, Clears, Loses, Undone;
    var base, v1 := k.v.list[0].base, AllocMultipleAt(k.v, frame, count).v;
    var i := FailingPage(k, root, frame, count);
    InvSound(k, root, slots);
    BlockAligned(slots, frame, count);
    AllocMultipleAtKeeps(k.v, base, frame, count);
    MultipleAtIsAllOrNothing(k, root, slots, offset, frame, count, garbage);
    BlockLoop(k, root, slots, offset, frame, count, garbage);
    UndoneIs(v1, base, frame, count, i, garbage);
    HoldingShaped(v1, base, frame, count);
    OnTopIff(k.v, frame, count);
    RestoringCases(k.v, v1, frame, count, i, garbage);
    RestoredIff(k.v, v1, UndoneBlock(v1, frame, count, i, garbage), base, frame, count, Loses(v1, frame, i, count, garbage),
                Clears(v1, frame, i, count, garbage));
  }

  lemma RestoredIff(v: VMap, v1: VMap, v': VMap, base: nat, frame: nat, count: nat, lost: bool, cleared: bool)
    requires Adds(v.list, v1.list, frame, count * 0x1000) && !Overlaps(v.list, frame, count * 0x1000)
    requires v1.list != [] && Undone(v1, v', base, frame, count, lost, cleared) && Holding(v1, base, frame, count)
    requires lost ==> Covers(v1.list, frame + count * 0x1000)
    ensures SamePages(v.list, v'.list) <==> cleared && !lost
  {
    HoldingShaped(v1, base, frame, count);
    HolderIs(v1.list, frame, count * 0x1000);
    hide Covers, Sound, Holder, Holding;
    var hi := frame + count * 0x1000;
    if lost {
      assert Covers(v.list, hi) && !Covers(v'.list, hi);
    }
    if !cleared {
      var a: nat :| frame <= a < hi && Covers(v'.list, a);
      assert !Covers(v.list, a);
    }
  }

  lemma RestoringCases(v: VMap, v1: VMap, frame: nat, count: nat, i: nat, garbage: seq<int>)
    requires v1.Shaped() && v1.list != [] && Adds(v.list, v1.list, frame, count * 0x1000)
    ensures Loses(v1, frame, i, count, garbage) ==> Covers(v1.list, frame + count * 0x1000)
    ensures Clears(v1, frame, i, count, garbage) && !Loses(v1, frame, i, count, garbage) <==>
              && !StartsLater(v1.list, frame)
              && var followed := Covers(v.list, frame + count * 0x1000);
                 if i == 0 then if followed then v1.HasSlot() else count == 1
                 else !followed && !v1.HasSlot() && SomeReported(garbage, i)
  {
    hide Covers, StartsLater, Free, VMap.HasSlot, SomeReported;
  }

  // ---------------------------------------------------------------------------
  // page_free_multiple
  // ---------------------------------------------------------------------------

  /** Pages under managed slots, mapped or not, each with a last-level table, or
      for which the word that page_unmap clears instead is not present. */
  ghost predicate ProperFreeBlock(k: State, root: nat, slots: set<nat>, offset: nat, frame: nat, count: nat) {
    GoodBlock(slots, frame, count) && 0x0000_FF80_0000_0000 < offset && ErasableBlock(k.mem, root, frame, count)
  }

  /** Some call of page_unmap did not end in -1, and the block lies below the
      first entry, or mapped pages behind it are dropped for want of a slot. */
  ghost predicate FreeBlockTrouble(k: State, root: nat, slots: set<nat>, frame: nat, count: nat, garbage: seq<int>)
    requires k.Shaped()
  {
    && SomeReported(garbage, count)
    && (frame < k.v.list[0].base || LosesMapped(k.mem, root, slots, k.v, frame, frame + count * 0x1000))
  }

  /** page_free_multiple unmaps every page of the block, gives no frame back, and
      takes no page of the block but the first off the list if a slot is left;
      the state stays consistent exactly if there is no trouble. */
  lemma PageFreeMultipleIs(k: State, root: nat, slots: set<nat>, offset: nat, frame: nat, count: nat, garbage: seq<int>)
    requires Inv(k, root, slots) && k.Shaped() && ProperFreeBlock(k, root, slots, offset, frame, count)
    ensures var k' := FreePages(k, root, offset, frame, count, garbage);
            && k'.bits == k.bits && !k'.panicked && BlockGone(k.mem, k'.mem, root, frame, count)
            && (Inv(k', root, slots) <==> !FreeBlockTrouble(k, root, slots, frame, count, garbage))
            && (k.v.list[0].base <= frame ==> k'.v == if SomeReported(garbage, count) then Free(k.v, frame).v else k.v)
            && (k.v.list[0].base <= frame && k.v.HasSlot() ==>
                  forall a: nat | Covers(k.v.list, a) && !(frame <= a < frame + PAGE) :: Covers(k'.v.list, a))
  {
    hide Inv, Good, FreePages, FirstFreed, BlockGone, Erased, ErasableBlock, Covers, Free, SomeReported,
      FreeBlockTrouble, Ordered, Sound,
      VMap.HasSlot;
    InvSound(k, root, slots);
    BlockAligned(slots, frame, count);
    FreePagesIs(k, root, slots, offset, frame, count, count, garbage);
    var k' := FreePages(k, root, offset, frame, count, garbage);
    GoneAfterErase(k.mem, k'.mem, root, frame, count);
    FreePagesList(k, root, offset, frame, count, garbage);
    if frame < k.v.list[0].base {
      FreedBelow(k, k', root, slots, frame, count, garbage);
    } else {
      FirstFreedIs(k.v, k.v.list[0].base, frame, count, garbage);
      FreedConsistentIff(k, k', root, slots, frame, count, garbage);
      FreeKeepsAfter(k.v, frame);
    }
  }

  lemma FreeKeepsAfter(v: VMap, frame: nat)
    requires v.Shaped() && v.list != [] && Ordered(v.list) && v.list[0].base <= frame && frame % 0x1000 == 0
    ensures v.HasSlot() ==> forall a: nat | Covers(v.list, a) && !(frame <= a < frame + PAGE) :: Covers(Free(v, frame).v.list, a)
  {
    if v.HasSlot() {
      FreeKeepsOthers(v, frame);
    }
  }

  lemma FreedConsistentIff(k: State, k': State, root: nat, slots: set<nat>, frame: nat, count: nat, garbage: seq<int>)
    requires Inv(k, root, slots) && k.Shaped() && k.v.list[0].base <= frame && frame % 0x1000 == 0
    requires !k'.panicked && Good(k'.mem, root, slots, true, Bitmap(k'.bits))
    requires forall p: nat | p < PAGES :: Walk(k'.mem, root, 4, p).Table? <==> Walk(k.mem, root, 4, p).Table? && !BlockHas(p, frame, count)
    requires k'.v == if SomeReported(garbage, count) then Free(k.v, frame).v else k.v
    ensures Inv(k', root, slots) <==> !FreeBlockTrouble(k, root, slots, frame, count, garbage)
  {
    hide Good, Walk, Covers, Managed, RangeSlots.SlotSafe, Ordered, Free, AddressOf, VMap.HasSlot, VMap.Shaped;
    if SomeReported(garbage, count) {
      var hi, end := frame + count * 0x1000, k.v.list[Find(k.v.list, frame, 0)].End();
      UndoneList(k.v, frame);
      FreeRegisteredIff(k'.mem, k.v, root, slots, frame, hi);
      assert MappedIn(k'.mem, root, slots, hi, end) <==> MappedIn(k.mem, root, slots, hi, end) by {
        if MappedIn(k.mem, root, slots, hi, end) {
          var p: nat :| p < PAGES && Managed(slots, 4, p) && Walk(k.mem, root, 4, p).Table? && hi <= AddressOf(p) < end;
          assert Walk(k'.mem, root, 4, p).Table?;
        }
      }
    }
  }

  // Below the first entry each free makes that entry reach too far.

  ghost predicate Overlong(v: VMap, base: nat, frame: nat) {
    && v.Shaped() && |v.list| > 0 && v.list[0].base == base && v.list[0].End() == frame + WORD
    && (v.HasNext(0) ==> v.list[1].base >= frame)
  }

  lemma FreeOverlong(v: VMap, base: nat, frame: nat)
    requires v.Shaped() && |v.list| > 0 && v.list[0].base == base && frame < base && base + PAGE <= WORD
    requires frame < Wrap(v.list[0].End()) && v.list[0].length != 1 && (v.HasNext(0) ==> v.list[1].base >= frame)
    ensures Overlong(Free(v, frame).v, base, frame)
  {
    WrapsOnce(frame, base);
    assert Find(v.list, frame, 0) == 0;
    hide Wrap;
  }

  /** From then on the 64-bit end of the entry is the address itself, and nothing more is freed. */
  lemma FreedNoMore(v: VMap, base: nat, frame: nat)
    requires Overlong(v, base, frame) && frame < WORD
    ensures Free(v, frame).v == v
  {
    RangeSlots.WrapIs(1, frame);
    assert Find(v.list, frame, 0) == 0;
    hide Wrap, Split;
    assert 0x1_0000_0000_0000_0000 + frame == v.list[0].End();
  }

  lemma WrapsOnce(frame: nat, base: nat)
    requires frame < base && base + PAGE <= WORD
    ensures Wrap(frame - base) == frame - base + WORD && Wrap(frame + PAGE) >= frame
  {
  }

  lemma {:induction false} FirstFreedBelow(v: VMap, frame: nat, n: nat, garbage: seq<int>)
    requires v.Shaped() && v.list != [] && Ordered(v.list) && frame < v.list[0].base
    ensures if SomeReported(garbage, n) then Overlong(FirstFreed(v, frame, n, garbage), v.list[0].base, frame)
            else FirstFreed(v, frame, n, garbage) == v
  {
    if n > 0 {
      FirstFreedBelow(v, frame, n - 1, garbage);
      ReportedNext(garbage, n);
      FirstEntryFits(v, frame);
      hide Free, Ordered, SomeReported, Overlong, Wrap;
      if SomeReported(garbage, n - 1) {
        FreedNoMore(FirstFreed(v, frame, n - 1, garbage), v.list[0].base, frame);
      } else {
        FreeOverlong(v, v.list[0].base, frame);
      }
    }
  }

  lemma FirstEntryFits(v: VMap, frame: nat)
    requires v.Shaped() && v.list != [] && Ordered(v.list) && frame < v.list[0].base
    ensures v.list[0].base + PAGE <= WORD && v.list[0].length != 1 && (v.HasNext(0) ==> v.list[1].base >= frame)
    ensures frame < Wrap(v.list[0].End())
  {
    EndInWord(v.list, 0);
    hide Wrap;
    assert Aligned(v.list[0]);
  }

  lemma FreedBelow(k: State, k': State, root: nat, slots: set<nat>, frame: nat, count: nat, garbage: seq<int>)
    requires Inv(k, root, slots) && k.Shaped() && frame < k.v.list[0].base
    requires !k'.panicked && Good(k'.mem, root, slots, true, Bitmap(k'.bits))
    requires forall p: nat | p < PAGES :: Walk(k'.mem, root, 4, p).Table? <==> Walk(k.mem, root, 4, p).Table? && !BlockHas(p, frame, count)
    requires k'.v == FirstFreed(k.v, frame, count, garbage)
    ensures Inv(k', root, slots) <==> !FreeBlockTrouble(k, root, slots, frame, count, garbage)
  {
    hide Good, Walk, Covers, Managed, RangeSlots.SlotSafe, Ordered, Free, AddressOf, VMap.HasSlot, VMap.Shaped,
      FirstFreed, SomeReported;
    FirstFreedBelow(k.v, frame, count, garbage);
    if SomeReported(garbage, count) {
      TooLong(k'.v.list, frame);
    }
  }
}
