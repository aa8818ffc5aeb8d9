/**
 `page_alloc*` and `page_free*` as code over the mapper, the frame bitmap and
 the linked list. Each is proved to take the state to the one its function in
 Kernel.dfy or Rollback.dfy gives.
 */
module PageAllocator {
  import opened Words
  import opened Addresses
  import opened PageTables
  import opened Mapping
  import opened Paging
  import opened VirtualRanges
  import opened Kernel
  import opened Rollback
  import FrameBitmap
  import RangeSlots
  import Links = VirtualMap

  class PageAllocator {
    const mapper: PageMapper
    const ranges: Links.VirtualMap
    var panicked: bool

    constructor (mapper: PageMapper, ranges: Links.VirtualMap)
      ensures this.mapper == mapper && this.ranges == ranges && !panicked
    {
      this.mapper, this.ranges, panicked := mapper, ranges, false;
    }

    /** Both bitmaps can be scanned by a 16-bit index and are different pages;
        the list is linked through slots of its own, and holds whole pages. */
    ghost predicate Ready()
      reads ranges, ranges.table, ranges.bits, mapper
    {
      && mapper.frames.words.Length < 0x1_0000 && ranges.limit < 0x1_0000 && mapper.frames.words != ranges.bits
      && ranges.Valid() && ranges.order != [] && RangeSlots.SlotSafe(ranges.view) && RangeSlots.Paged(ranges.view.list)
    }

    ghost function Current(): State
      reads this, mapper, mapper.frames.words, ranges
    {
      State(mapper.mem, mapper.frames.words[..], ranges.view, panicked)
    }

    /** The tail of the single-page allocations, after a range has been found. */
    method FinishPage(frame: nat, physicalPage: nat) returns (result: int)
      requires Ready() && frame % 0x1000 == 0 && physicalPage % 0x1000 == 0
      modifies `panicked, mapper`mem, mapper.frames.words, ranges, ranges.table, ranges.bits
      ensures old(Current()).Shaped() && Ready()
      ensures (Current(), result) == Finish(old(Current()), mapper.root, physicalPage / 0x1000, Outcome(old(ranges.view), 0, frame))
    {
      hide Links.VirtualMap.Valid, RangeSlots.SlotsSafe, RangeSlots.Paged, VMap.Shaped, MapPage, Free, FreeRun,
        Links.FreshSlot, FrameBitmap.Released;
      SafeView(ranges.view);
      assert 0x1000 * (physicalPage / 0x1000) == physicalPage;
      result := mapper.PageMap(frame, physicalPage);
      assert ranges.Valid() && ranges.view == old(ranges.view);
      ResultCodes(old(mapper.mem), Bitmap(old(mapper.frames.words[..])), mapper.root, frame, physicalPage);
      if result == 1 {
        panicked := true;
      } else if result == -1 {
        mapper.frames.Free(physicalPage);
        RangeSlots.FreeSlots(ranges.view, frame, 1);
        RangeSlots.FreePaged(ranges.view, frame, 1);
        RangeSlots.FreeKeepsFirst(ranges.view, frame, 1);
        var _ := ranges.PageVirtualFree(frame);
        ranges.SameLength();
        SafeView(ranges.view);
      }
    }

    method PageAllocAt(frame: nat) returns (result: int)
      requires Ready() && frame % 0x1000 == 0 && frame + PAGE < WORD
      modifies `panicked, mapper`mem, mapper.frames.words, ranges, ranges.table, ranges.bits
      ensures old(Current()).Shaped() && Ready()
      ensures (Current(), result) == PageAlloc(old(Current()), mapper.root, At(frame))
    {
      hide Links.VirtualMap.Valid, RangeSlots.SlotSafe, RangeSlots.Paged, VMap.Shaped, MapPage, AllocAt,
        Links.FreshSlot, FrameBitmap.Released, FrameBitmap.CanTake, FrameBitmap.Picked, FrameBitmap.Taken;
      SafeView(ranges.view);
      var status, physicalPage := mapper.frames.Alloc();
      if status == -1 {
        return -1;
      }
      AfterCall(ranges.view, RangeSlots.At(frame));
      result := ranges.PageVirtualAllocAt(frame);
      ranges.SameLength();
      if result != 0 {
        mapper.frames.Free(physicalPage);
        return;
      }
      result := FinishPage(frame, physicalPage);
    }

    method PageAllocAfter(base: nat) returns (result: int, frame: nat)
      requires Ready() && base % 0x1000 == 0
      requires ranges.view.list != [] && AfterAddress(ranges.view.list, base) + PAGE < WORD
      modifies `panicked, mapper`mem, mapper.frames.words, ranges, ranges.table, ranges.bits
      ensures old(Current()).Shaped() && Ready()
      ensures (Current(), result) == PageAlloc(old(Current()), mapper.root, After(base))
      ensures result == 0 ==> frame == AllocAfter(old(ranges.view), base).frame
    {
      hide Links.VirtualMap.Valid, RangeSlots.SlotSafe, RangeSlots.Paged, VMap.Shaped, MapPage, AllocAfter,
        Links.FreshSlot, FrameBitmap.Released, FrameBitmap.CanTake, FrameBitmap.Picked, FrameBitmap.Taken;
      SafeView(ranges.view);
      var status, physicalPage := mapper.frames.Alloc();
      if status == -1 {
        return -1, 0;
      }
      AfterCall(ranges.view, RangeSlots.After(base));
      Answers(ranges.view, base, 0);
      result, frame := ranges.PageVirtualAllocAfter(base);
      ranges.SameLength();
      if result == -1 {
        mapper.frames.Free(physicalPage);
        return;
      }
      result := FinishPage(frame, physicalPage);
    }

    method PageAllocBeyondEx(base: nat, jump: nat) returns (result: int, frame: nat)
      requires Ready() && base % 0x1000 == 0
      requires ranges.view.list != [] && BeyondExAddress(ranges.view.list, base, jump, 1) + PAGE < WORD
      modifies `panicked, mapper`mem, mapper.frames.words, ranges, ranges.table, ranges.bits
      ensures old(Current()).Shaped() && Ready()
      ensures (Current(), result) == PageAlloc(old(Current()), mapper.root, BeyondEx(base, jump))
      ensures result == 0 ==> frame == AllocBeyondEx(old(ranges.view), base, jump).frame
    {
      hide Links.VirtualMap.Valid, RangeSlots.SlotSafe, RangeSlots.Paged, VMap.Shaped, MapPage, AllocBeyondEx,
        Links.FreshSlot, FrameBitmap.Released, FrameBitmap.CanTake, FrameBitmap.Picked, FrameBitmap.Taken;
      SafeView(ranges.view);
      var status, physicalPage := mapper.frames.Alloc();
      if status == -1 {
        return -1, 0;
      }
      AfterCall(ranges.view, RangeSlots.BeyondEx(base, jump));
      Answers(ranges.view, base, jump);
      result, frame := ranges.PageVirtualAllocBeyondEx(base, jump);
      ranges.SameLength();
      if result == -1 {
        mapper.frames.Free(physicalPage);
        return;
      }
      result := FinishPage(frame, physicalPage);
    }

    /** `garbage` is what page_unmap leaves behind where it returns nothing. */
    method PageFree(frame: nat, garbage: int)
      requires Ready() && frame % 0x1000 == 0
      modifies mapper`mem, ranges, ranges.table, ranges.bits
      ensures old(Current()).Shaped() && Ready()
      ensures Current() == Kernel.PageFree(old(Current()), mapper.root, mapper.offset, frame, garbage)
    {
      hide Links.VirtualMap.Valid, RangeSlots.SlotSafe, RangeSlots.Paged, VMap.Shaped, Free, Links.FreshSlot;
      SafeView(ranges.view);
      var refused := mapper.PageUnmap(frame);
      if refused || garbage == -1 {
        return;
      }
      AfterCall(ranges.view, RangeSlots.FreeOne(frame));
      var _ := ranges.PageVirtualFree(frame);
      ranges.SameLength();
      SafeView(ranges.view);
    }

    /** The i-th call of page_unmap leaves Left(garbage, i) behind. */
    method PageFreeMultiple(frame: nat, count: nat, garbage: seq<int>)
      requires Ready() && frame % 0x1000 == 0
      modifies mapper`mem, ranges, ranges.table, ranges.bits
      ensures old(Current()).Shaped() && Ready()
      ensures Current() == FreePages(old(Current()), mapper.root, mapper.offset, frame, count, garbage)
    {
      hide Links.VirtualMap.Valid, RangeSlots.SlotSafe, RangeSlots.Paged, VMap.Shaped, Free, Links.FreshSlot, Unmapped;
      SafeView(ranges.view);
      var i := 0;
      while i < count
        invariant i <= count && Ready() && old(Current()).Shaped() && Current().Shaped()
        invariant mapper.root == old(mapper.root) && mapper.offset == old(mapper.offset)
        invariant Current() == FreePages(old(Current()), mapper.root, mapper.offset, frame, i, garbage)
      {
        SafeView(ranges.view);
        var refused := mapper.PageUnmap(frame + i * 0x1000);
        if !refused && Left(garbage, i) != -1 {
          AfterCall(ranges.view, RangeSlots.FreeOne(frame));
          var _ := ranges.PageVirtualFree(frame);
          ranges.SameLength();
          SafeView(ranges.view);
        }
        i := i + 1;
      }
    }

    /** page_virtual_free_multiple. */
    method PageVirtualFreeMultiple(frame: nat, count: nat)
      requires Ready() && frame % 0x1000 == 0
      modifies ranges, ranges.table, ranges.bits
      ensures old(Current()).Shaped() && Ready()
      ensures Current() == old(Current()).(v := FreeMany(old(ranges.view), frame, count))
    {
      hide Links.VirtualMap.Valid, RangeSlots.SlotSafe, RangeSlots.Paged, VMap.Shaped, Free, FreeRun, Links.FreshSlot;
      SafeView(ranges.view);
      if count == 1 {
        AfterCall(ranges.view, RangeSlots.FreeOne(frame));
        var _ := ranges.PageVirtualFree(frame);
        ranges.SameLength();
        SafeView(ranges.view);
      } else if count == 0 {
        return;
      }
      AfterRun(ranges.view, frame, count);
      ranges.FreeRunFrom(frame, count);
      ranges.SameLength();
      SafeView(ranges.view);
    }

    /** The two calls that are to undo the pages mapped so far. */
    method UndoPages(frame: nat, count: nat, i: nat, garbage: seq<int>)
      requires Ready() && frame % 0x1000 == 0 && i < count
      modifies mapper`mem, ranges, ranges.table, ranges.bits
      ensures old(Current()).Shaped() && Ready()
      ensures Current() == Undo(old(Current()), mapper.root, mapper.offset, frame, count, i, garbage)
    {
      hide Links.VirtualMap.Valid, RangeSlots.SlotSafe, RangeSlots.Paged, VMap.Shaped, FreeMany, Links.FreshSlot;
      SafeView(ranges.view);
      if i > 0 {
        PageFreeMultiple(frame, i, garbage);
      }
      SafeView(ranges.view);
      PagesAfter(frame, i);
      PageVirtualFreeMultiple(frame + i * 0x1000, count - i);
    }

    method PageAllocMultipleAt(frame: nat, count: nat, garbage: seq<int>) returns (result: int)
      requires Ready() && frame % 0x1000 == 0 && frame + count * 0x1000 < WORD
      requires ranges.view.list != []
      modifies `panicked, mapper`mem, mapper.frames.words, ranges, ranges.table, ranges.bits
      ensures old(Current()).Shaped() && Ready()
      ensures (Current(), result) ==
              Rollback.PageAllocMultipleAt(old(Current()), mapper.root, mapper.offset, frame, count, garbage)
    {
      hide Links.VirtualMap.Valid, RangeSlots.SlotSafe, RangeSlots.Paged, VMap.Shaped, AllocMultipleAt, Undo,
        Links.FreshSlot,
        MapPage, FrameBitmap.Released, FrameBitmap.CanTake, FrameBitmap.Picked, FrameBitmap.Taken;
      SafeView(ranges.view);
      AfterCall(ranges.view, RangeSlots.MultipleAt(frame, count));
      result := ranges.PageVirtualAllocMultipleAt(frame, count);
      ranges.SameLength();
      SafeView(ranges.view);
      if result != 0 {
        return;
      }
      ghost var start := Current();
      var i := 0;
      while i < count
        invariant i <= count && Ready() && start.Shaped() && Current().Shaped()
        invariant mapper.root == old(mapper.root) && mapper.offset == old(mapper.offset)
        invariant MapBlock(start, mapper.root, mapper.offset, frame, count, 0, garbage)
               == MapBlock(Current(), mapper.root, mapper.offset, frame, count, i, garbage)
      {
        SafeView(ranges.view);
        var status, physicalPage := mapper.frames.Alloc();
        if status == -1 {
          UndoPages(frame, count, i, garbage);
          return -1;
        }
        assert 0x1000 * (physicalPage / 0x1000) == physicalPage;
        status := mapper.PageMap(frame + i * 0x1000, physicalPage);
        if status == -1 {
          // The code gives the frame back between the two calls of UndoPages,
          // which do not look at the bitmap.
          UndoPages(frame, count, i, garbage);
          mapper.frames.Free(physicalPage);
          return -1;
        } else if status == 1 {
          panicked := true;
          return 1;
        }
        i := i + 1;
      }
      return 0;
    }
  }

  lemma PagesAfter(frame: nat, i: nat)
    requires frame % 0x1000 == 0
    ensures (frame + i * 0x1000) % 0x1000 == 0
  {
  }

  /** A call on a page address leaves the list as the next call needs it. */
  lemma AfterCall(v: VMap, c: RangeSlots.Call)
    requires RangeSlots.SlotSafe(v) && RangeSlots.Paged(v.list) && RangeSlots.PagedCall(c)
    ensures v.Shaped() && |v.list| > 0
    ensures RangeSlots.SlotSafe(RangeSlots.Do(v, c)) && RangeSlots.Paged(RangeSlots.Do(v, c).list)
  {
    hide RangeSlots.Paged, RangeSlots.Do, RangeSlots.PagedCall, RangeSlots.SlotsSafe;
    RangeSlots.SafeShape(v);
    RangeSlots.DoSlots(v, c);
    RangeSlots.DoPaged(v, c);
    RangeSlots.DoKeepsFirst(v, c);
  }

  lemma AfterRun(v: VMap, frame: nat, count: nat)
    requires RangeSlots.SlotSafe(v) && RangeSlots.Paged(v.list) && frame % 0x1000 == 0
    ensures v.Shaped() && |v.list| > 0
    ensures RangeSlots.SlotSafe(FreeRun(v, frame, count)) && RangeSlots.Paged(FreeRun(v, frame, count).list)
  {
    hide RangeSlots.Paged, RangeSlots.SlotsSafe, FreeRun;
    RangeSlots.SafeShape(v);
    RangeSlots.FreeSlots(v, frame, count);
    RangeSlots.FreePaged(v, frame, count);
    RangeSlots.FreeKeepsFirst(v, frame, count);
  }

  /** The functions that choose the address choose that of a page, and end in 0 or -1. */
  lemma Answers(v: VMap, base: nat, jump: nat)
    requires v.Shaped() && |v.list| > 0 && RangeSlots.Paged(v.list) && base % 0x1000 == 0
    ensures AllocAfter(v, base).frame % 0x1000 == 0 && AllocBeyondEx(v, base, jump).frame % 0x1000 == 0
    ensures -1 <= AllocAfter(v, base).result <= 0 && -1 <= AllocBeyondEx(v, base, jump).result <= 0
  {
    hide VMap.Shaped;
    var k := Find(v.list, base, 0);
    RangeSlots.JumpPaged(v.list[k], 0);
    RangeSlots.JumpPaged(v.list[k], jump);
    RangeSlots.HopPaged(v.list, k, FirstCandidate(v.list, base, jump), jump, 1);
  }

  lemma ResultCodes(m: Memory, s: Supply, root: nat, va: nat, phys: nat)
    ensures -1 <= MapPage(m, s, root, va, phys).result <= 1
  {
    MapResult(m, s, root, 0, Page(va), FrameOf(phys));
  }

  lemma SafeView(v: VMap)
    requires RangeSlots.SlotSafe(v)
    ensures v.Shaped() && |v.list| > 0 && Links.FreshSlot(v)
  {
    Links.SafeIsFresh(v);
  }
}
