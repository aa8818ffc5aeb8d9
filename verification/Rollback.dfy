/**
 `page_alloc_multiple_at` and `page_free_multiple`, with the rollback of the
 first: what their loops do to the page tables and to the frame bitmap. What
 they do to the list of ranges is in UndoneLists.dfy.
 */
module Rollback {
  import opened Options
  import opened Words
  import opened Addresses
  import opened PageTables
  import opened Mapping
  import opened Paging
  import opened TableCounts
  import opened VirtualRanges
  import opened Kernel
  import FrameBitmap

  // ---------------------------------------------------------------------------
  // The functions
  // ---------------------------------------------------------------------------

  /** The value that the i-th call of page_unmap leaves behind. */
  function Left(garbage: seq<int>, i: nat): int {
    if i < |garbage| then garbage[i] else 0
  }

  /** page_free_multiple: each round unmaps the next page, but takes the first
      one off the list. */
  function FreePages(k: State, root: nat, offset: nat, frame: nat, count: nat, garbage: seq<int>): State
    requires k.Shaped()
  {
    if count == 0 then k
    else
      var p := FreePages(k, root, offset, frame, count - 1, garbage);
      var a := frame + (count - 1) * 0x1000;
      if Refused(offset, a) then p
      else
        var m := Unmapped(p.mem, root, Page(a));
        if Left(garbage, count - 1) == -1 || !p.Shaped() then p.(mem := m)
        else p.(mem := m, v := Free(p.v, frame).v)
  }

  /** After pages 0..i of the block have been mapped and page i could not be. */
  function Undo(k: State, root: nat, offset: nat, frame: nat, count: nat, i: nat, garbage: seq<int>): State
    requires k.Shaped() && i < count
  {
    var k1 := FreePages(k, root, offset, frame, i, garbage);
    if !k1.Shaped() then k1 else k1.(v := FreeMany(k1.v, frame + i * 0x1000, count - i))
  }

  /** The state after one round of the loop, and whether the page was mapped. */
  function Round(k: State, root: nat, frame: nat, i: nat): (State, int)
    requires FrameBitmap.CanTake(k.bits)
  {
    var bits, phys, a := FrameBitmap.Taken(k.bits), FrameBitmap.Picked(k.bits), frame + i * 0x1000;
    var r := MapPage(k.mem, Bitmap(bits), root, a, 0x1000 * phys);
    MapKeepsSupply(k.mem, Bitmap(bits), root, 0, Page(a), FrameOf(0x1000 * phys));
    (k.(mem := r.mem, bits := r.supply.words), r.result)
  }

  /** The loop over the pages of the block. */
  function MapBlock(k: State, root: nat, offset: nat, frame: nat, count: nat, i: nat, garbage: seq<int>): (State, int)
    requires k.Shaped() && i <= count
    decreases count - i
  {
    if i == count then (k, 0)
    else if !FrameBitmap.CanTake(k.bits) then (Undo(k, root, offset, frame, count, i, garbage), -1)
    else
      var (k1, r) := Round(k, root, frame, i);
      if r == -1 then
        var undone := Undo(k1, root, offset, frame, count, i, garbage);
        (undone.(bits := FrameBitmap.Released(undone.bits, FrameBitmap.Picked(k.bits))), -1)
      else if r == 1 then (k1.(panicked := true), 1)
      else MapBlock(k1, root, offset, frame, count, i + 1, garbage)
  }

  /** page_alloc_multiple_at. */
  function PageAllocMultipleAt(k: State, root: nat, offset: nat, frame: nat, count: nat, garbage: seq<int>): (State,
        int)
    requires k.Shaped()
  {
    var o := AllocMultipleAt(k.v, frame, count);
    if o.result != 0 then (k.(v := o.v), o.result)
    else MapBlock(k.(v := o.v), root, offset, frame, count, 0, garbage)
  }

  // ---------------------------------------------------------------------------
  // Blocks of pages
  // ---------------------------------------------------------------------------

  /** Page p is among the first n of the block. */
  predicate BlockHas(p: nat, frame: nat, n: nat) {
    frame <= AddressOf(p) < frame + n * 0x1000
  }

  /** All pages of the block are canonical and under managed slots. */
  ghost predicate GoodBlock(slots: set<nat>, frame: nat, count: nat) {
    && frame % 0x1000 == 0 && frame + count * 0x1000 < WORD
    && forall a: nat | frame <= a < frame + count * 0x1000 && a % 0x1000 == 0 :: Canonical(a) && Pml4Index(a) in slots
  }

  lemma NthOfBlock(slots: set<nat>, frame: nat, count: nat, i: nat)
    requires GoodBlock(slots, frame, count) && i < count
    ensures var a := frame + i * 0x1000;
            && a % 0x1000 == 0 && Canonical(a) && Pml4Index(a) in slots && a + PAGE < WORD
            && Managed(slots, 4, Page(a)) && Page(a) < PAGES && AddressOf(Page(a)) == a
  {
    hide Canonical, Pml4Index, Page, AddressOf;
    var a := frame + i * 0x1000;
    NthAligned(frame, i);
    ManagedPage(slots, a);
    AddressOfPage(a);
  }

  lemma NthAligned(frame: nat, i: nat)
    requires frame % 0x1000 == 0
    ensures (frame + i * 0x1000) % 0x1000 == 0
  {
  }

  /** One more page. */
  lemma BlockStep(slots: set<nat>, frame: nat, count: nat, i: nat, p: nat)
    requires GoodBlock(slots, frame, count) && i < count && p < PAGES
    ensures BlockHas(p, frame, i + 1) <==> BlockHas(p, frame, i) || p == Page(frame + i * 0x1000)
    ensures !BlockHas(Page(frame + i * 0x1000), frame, i)
  {
    NthOfBlock(slots, frame, count, i);
    PageOfAddress(p);
    var a := AddressOf(p);
    assert a == 0x1000 * (a / 0x1000) && frame == 0x1000 * (frame / 0x1000);
  }

  /** The block does not cross the gap between the two canonical halves. */
  lemma {:induction false} PagesOfBlock(slots: set<nat>, frame: nat, count: nat, i: nat)
    requires GoodBlock(slots, frame, count) && i < count
    ensures Page(frame + i * 0x1000) == Page(frame) + i < PAGES
  {
    NthOfBlock(slots, frame, count, i);
    if i > 0 {
      PagesOfBlock(slots, frame, count, i - 1);
      NthOfBlock(slots, frame, count, i - 1);
      NextPage(frame + (i - 1) * 0x1000);
    }
  }

  // ---------------------------------------------------------------------------
  // Unmapping a block
  // ---------------------------------------------------------------------------

  /** Memory m' has the first n pages of the block unmapped, and nothing else changed. */
  ghost predicate Erased(m: Memory, m': Memory, root: nat, frame: nat, n: nat) {
    forall e: nat, r: nat | IsPath(e, r) ::
      Walk(m', root, e, r) == if e == 4 && BlockHas(r, frame, n) then Absent else Walk(m, root, e, r)
  }

  /** page_unmap touches no page but the one it is given. */
  ghost predicate ErasableBlock(m: Memory, root: nat, frame: nat, n: nat) {
    forall p: nat | p < PAGES && BlockHas(p, frame, n) :: Erasable(m, root, p)
  }

  /** The first n pages of the block are mapped. */
  ghost predicate MappedBlock(m: Memory, root: nat, frame: nat, n: nat) {
    forall p: nat | p < PAGES && BlockHas(p, frame, n) :: Walk(m, root, 4, p).Table?
  }

  lemma MappedErasable(m: Memory, root: nat, frame: nat, n: nat)
    requires MappedBlock(m, root, frame, n)
    ensures ErasableBlock(m, root, frame, n)
  {
    forall p: nat | p < PAGES && BlockHas(p, frame, n) ensures Erasable(m, root, p) {
      LastLevelExists(m, root, p);
    }
  }

  lemma LastLevelExists(m: Memory, root: nat, page: nat)
    requires Walk(m, root, 4, page).Table?
    ensures Walk(m, root, 3, page / 512).Table?
  {
  }

  lemma PathIsPage(r: nat)
    requires IsPath(4, r)
    ensures r < PAGES
  {
    PrefixIs(0);
  }

  /** page_free_multiple on the page tables: of a block of n pages the first j are unmapped. */
  lemma {:induction false} FreePagesIs(k: State, root: nat, slots: set<nat>, offset: nat, frame: nat, n: nat, j: nat,
        garbage: seq<int>)
    requires k.Shaped() && Good(k.mem, root, slots, true, Bitmap(k.bits)) && ErasableBlock(k.mem, root, frame, n)
    requires GoodBlock(slots, frame, n) && j <= n && 0x0000_FF80_0000_0000 < offset
    ensures var k' := FreePages(k, root, offset, frame, j, garbage);
            && k'.bits == k.bits && k'.panicked == k.panicked && Good(k'.mem, root, slots, true, Bitmap(k.bits))
            && Erased(k.mem, k'.mem, root, frame, j) && ErasableBlock(k'.mem, root, frame, n)
  {
    hide Good, ErasableBlock, GoodBlock, Walk, BlockHas, Unmapped, FreePages, VMap.Shaped;
    if j == 0 {
      NothingFreed(k, root, offset, frame, garbage);
    } else {
      FreePagesIs(k, root, slots, offset, frame, n, j - 1, garbage);
      hide Erased;
      EraseNext(k.mem, FreePages(k, root, offset, frame, j - 1, garbage).mem, k.bits, root, slots, frame, n, j - 1);
      OneMoreFreed(k, root, offset, frame, j, garbage);
    }
  }

  lemma NothingFreed(k: State, root: nat, offset: nat, frame: nat, garbage: seq<int>)
    requires k.Shaped()
    ensures FreePages(k, root, offset, frame, 0, garbage) == k && Erased(k.mem, k.mem, root, frame, 0)
  {
    hide Walk;
  }

  lemma OneMoreFreed(k: State, root: nat, offset: nat, frame: nat, j: nat, garbage: seq<int>)
    requires k.Shaped() && j > 0 && 0x0000_FF80_0000_0000 < offset
    ensures var p, k' := FreePages(k, root, offset, frame, j - 1, garbage), FreePages(k, root, offset, frame, j, garbage);
            k'.mem == Unmapped(p.mem, root, Page(frame + (j - 1) * 0x1000)) && k'.bits == p.bits && k'.panicked == p.panicked
  {
    hide Unmapped, Free, Page;
    assert !Refused(offset, frame + (j - 1) * 0x1000);
  }

  lemma EraseNext(m: Memory, m1: Memory, bits: seq<Word64>, root: nat, slots: set<nat>, frame: nat, n: nat, i: nat)
    requires Good(m1, root, slots, true, Bitmap(bits)) && Erased(m, m1, root, frame, i) && ErasableBlock(m1, root, frame, n)
    requires GoodBlock(slots, frame, n) && i < n
    ensures var m2 := Unmapped(m1, root, Page(frame + i * 0x1000));
            && Good(m2, root, slots, true, Bitmap(bits)) && Erased(m, m2, root, frame, i + 1) && ErasableBlock(m2, root, frame, n)
  {
    var page := Page(frame + i * 0x1000);
    NthOfBlock(slots, frame, n, i);
    PageInBlock(slots, frame, n, i);
    UnmapIs(m1, root, slots, true, Bitmap(bits), page);
    var m2 := Unmapped(m1, root, page);
    hide Good, Unmapped, BlockHas, Walk, Erasable;
    ErasedNext(m, m1, m2, root, slots, frame, n, i);
    forall p: nat | p < PAGES && BlockHas(p, frame, n) ensures Erasable(m2, root, p) {
      ParentOfPage(p);
      ErasableStays(m1, root, page, p);
    }
  }

  lemma ParentOfPage(p: nat)
    requires p < PAGES
    ensures IsPath(3, p / 512)
  {
    PrefixIsPath(p, 4);
    ParentIsPath(4, p);
  }

  lemma ErasedNext(m: Memory, m1: Memory, m2: Memory, root: nat, slots: set<nat>, frame: nat, n: nat, i: nat)
    requires GoodBlock(slots, frame, n) && i < n && Erased(m, m1, root, frame, i)
    requires forall e: nat, r: nat | IsPath(e, r) ::
               Walk(m2, root, e, r) == if e == 4 && r == Page(frame + i * 0x1000) then Absent else Walk(m1, root, e, r)
    ensures Erased(m, m2, root, frame, i + 1)
  {
    hide BlockHas, Walk, GoodBlock;
    forall e: nat, r: nat | IsPath(e, r)
      ensures Walk(m2, root, e, r) == if e == 4 && BlockHas(r, frame, i + 1) then Absent else Walk(m, root, e, r)
    {
      if e == 4 {
        PathIsPage(r);
        BlockStep(slots, frame, n, i, r);
      }
    }
  }

  lemma PageInBlock(slots: set<nat>, frame: nat, count: nat, i: nat)
    requires GoodBlock(slots, frame, count) && i < count
    ensures BlockHas(Page(frame + i * 0x1000), frame, count) && Page(frame + i * 0x1000) < PAGES
  {
    NthOfBlock(slots, frame, count, i);
  }

  /** Every page of the block is unmapped in m', every other page translates as in m. */
  ghost predicate BlockGone(m: Memory, m': Memory, root: nat, frame: nat, count: nat) {
    forall p: nat | p < PAGES ::
      Translate(m', root, p) == if BlockHas(p, frame, count) then None else Translate(m, root, p)
  }

  lemma GoneAfterErase(m: Memory, m': Memory, root: nat, frame: nat, n: nat)
    requires Erased(m, m', root, frame, n)
    ensures BlockGone(m, m', root, frame, n)
    ensures forall p: nat | p < PAGES ::
              Walk(m', root, 4, p).Table? <==> Walk(m, root, 4, p).Table? && !BlockHas(p, frame, n)
  {
    hide Walk, BlockHas;
    forall p: nat | p < PAGES ensures Walk(m', root, 4, p) == if BlockHas(p, frame, n) then Absent else Walk(m, root, 4, p) {
      PrefixIsPath(p, 4);
    }
  }

  /** Under a managed slot a page translates exactly if the walk ends in a frame. */
  lemma MappedTranslates(m: Memory, root: nat, slots: set<nat>, s: Supply, p: nat)
    requires Good(m, root, slots, true, s) && p < PAGES && Managed(slots, 4, p)
    ensures Walk(m, root, 4, p).Table? <==> Translate(m, root, p).Some?
    ensures Walk(m, root, 4, p).Table? ==> Translate(m, root, p) == Some(Walk(m, root, 4, p).frame)
  {
    PrefixIsPath(p, 4);
    assert !Walk(m, root, 4, p).Huge?;
  }

  lemma ManagedInBlock(slots: set<nat>, frame: nat, count: nat, p: nat)
    requires GoodBlock(slots, frame, count) && p < PAGES && BlockHas(p, frame, count)
    ensures Managed(slots, 4, p)
  {
    PageOfAddress(p);
    ManagedPage(slots, AddressOf(p));
  }

  // ---------------------------------------------------------------------------
  // One round of the loop
  // ---------------------------------------------------------------------------

  /** The pages of the block from the n-th on are not mapped. */
  ghost predicate RestUnmapped(m: Memory, root: nat, frame: nat, count: nat, n: nat) {
    forall p: nat | p < PAGES && BlockHas(p, frame, count) && !BlockHas(p, frame, n) :: !Walk(m, root, 4, p).Table?
  }

  /** What the loop of page_alloc_multiple_at relies on after n pages. */
  ghost predicate Midway(k: State, root: nat, slots: set<nat>, frame: nat, count: nat, n: nat) {
    && !k.panicked && Good(k.mem, root, slots, true, Bitmap(k.bits))
    && MappedBlock(k.mem, root, frame, n) && RestUnmapped(k.mem, root, frame, count, n)
  }

  /** What one round does: with frames for the page and its tables the page
      comes to be mapped to a frame that was free, otherwise nothing is mapped. */
  ghost predicate RoundDone(k: State, k1: State, r: int, root: nat, slots: set<nat>, frame: nat, count: nat, i: nat)
    requires FrameBitmap.CanTake(k.bits)
  {
    var page, phys := Page(frame + i * 0x1000), FrameBitmap.Picked(k.bits);
    && r == (if Missing(k.mem, root, page, 0) < FrameBitmap.Rooms(k.bits) then 0 else -1) && k1.v == k.v
    && Midway(k1, root, slots, frame, count, if r == 0 then i + 1 else i)
    && Retranslated(k.mem, k1.mem, root, page, if r == 0 then Some(phys) else None) && FrameBitmap.IsFree(k.bits, phys)
    && StaysTaken(k.bits, k1.bits) && FrameBitmap.Released(k1.bits, phys) == k1.bits
    && (r == 0 ==> FrameBitmap.Rooms(k1.bits) == FrameBitmap.Rooms(k.bits) - 1 - Missing(k.mem, root, page, 0)
                   && GrowsAlong(k.mem, k1.mem, root, page) && HasTables(k1.mem, root, page))
  }

  lemma RoundIs(k: State, root: nat, slots: set<nat>, frame: nat, count: nat, i: nat)
    requires Midway(k, root, slots, frame, count, i) && i < count && GoodBlock(slots, frame, count)
    requires FrameBitmap.CanTake(k.bits)
    ensures RoundDone(k, Round(k, root, frame, i).0, Round(k, root, frame, i).1, root, slots, frame, count, i)
  {
    hide Midway, Good, NewFrame, Walk, GoodBlock, MapPage, FrameBitmap.Picked, FrameBitmap.Taken, FrameBitmap.CanTake,
      FrameBitmap.IsFree, FrameBitmap.Rooms, Retranslated, StaysTaken, GrowsAlong, HasTables, Missing, Page, Pml4Index,
      FrameBitmap.Released;
    var bits, phys, a := FrameBitmap.Taken(k.bits), FrameBitmap.Picked(k.bits), frame + i * 0x1000;
    ReadyForPage(k, root, slots, frame, count, i);
    MapNewFrame(k.mem, bits, root, slots, a, phys);
    var r := MapPage(k.mem, Bitmap(bits), root, a, 0x1000 * phys);
    TakenStaysTaken(k.bits, r.supply, phys);
    OneMoreMidway(k, r.mem, r.supply.words, root, slots, frame, count, i, r.result);
  }

  lemma ReadyForPage(k: State, root: nat, slots: set<nat>, frame: nat, count: nat, i: nat)
    requires Midway(k, root, slots, frame, count, i) && i < count && GoodBlock(slots, frame, count)
    requires FrameBitmap.CanTake(k.bits)
    ensures var bits, a := FrameBitmap.Taken(k.bits), frame + i * 0x1000;
            && Good(k.mem, root, slots, true, Bitmap(bits)) && NewFrame(k.mem, root, slots, bits, FrameBitmap.Picked(k.bits))
            && Pml4Index(a) in slots && !Walk(k.mem, root, 4, Page(a)).Table? && |bits| == |k.bits|
            && FrameBitmap.IsFree(k.bits, FrameBitmap.Picked(k.bits)) && FrameBitmap.Rooms(bits) == FrameBitmap.Rooms(k.bits) - 1
  {
    NthOfBlock(slots, frame, count, i);
    BlockStep(slots, frame, count, i, Page(frame + i * 0x1000));
    PageInBlock(slots, frame, count, i);
    FrameBitmap.TakeIs(k.bits);
    FrameBitmap.TakeUsesOneRoom(k.bits);
    TakenIsNew(k.mem, root, slots, k.bits);
  }

  lemma TakenStaysTaken(bits: seq<Word64>, s: Supply, phys: nat)
    requires FrameBitmap.CanTake(bits) && phys == FrameBitmap.Picked(bits) && s.Bitmap? && |s.words| == |FrameBitmap.Taken(bits)|
    requires forall f: nat :: Holds(s, f) ==> FrameBitmap.IsFree(FrameBitmap.Taken(bits), f)
    ensures StaysTaken(bits, s.words) && FrameBitmap.Released(s.words, phys) == s.words
  {
    FrameBitmap.TakeIs(bits);
    ReleaseIsNoOp(FrameBitmap.Taken(bits), s, phys);
    forall f: nat | FrameBitmap.IsFree(s.words, f) ensures FrameBitmap.IsFree(bits, f) {
      assert Holds(s, f);
    }
  }

  lemma OneMoreMidway(k: State, m: Memory, bits: seq<Word64>, root: nat, slots: set<nat>, frame: nat, count: nat,
        i: nat,
        result: int)
    requires Midway(k, root, slots, frame, count, i) && i < count && GoodBlock(slots, frame, count)
    requires Good(m, root, slots, true, Bitmap(bits)) && (result == 0 || result == -1)
    requires forall p: nat | p < PAGES :: Walk(m, root, 4, p).Table? <==>
               Walk(k.mem, root, 4, p).Table? || (result == 0 && p == Page(frame + i * 0x1000))
    ensures Midway(k.(mem := m, bits := bits), root, slots, frame, count, if result == 0 then i + 1 else i)
  {
    hide Good, BlockHas, Walk;
    forall p: nat | p < PAGES
      ensures BlockHas(p, frame, i + 1) <==> BlockHas(p, frame, i) || p == Page(frame + i * 0x1000)
    {
      BlockStep(slots, frame, count, i, p);
    }
    NthOfBlock(slots, frame, count, i);
    BlockStep(slots, frame, count, i, Page(frame + i * 0x1000));
  }

  // ---------------------------------------------------------------------------
  // The loop
  // ---------------------------------------------------------------------------

  /** From the i-th page on. Result 0: every further page of the block is mapped
      to a frame that was free, and all other pages translate as before. Result
      -1: no page of the block is mapped, and all others translate as before. */
  ghost predicate AllOrNothing(k: State, k': State, r: int, root: nat, slots: set<nat>, frame: nat, count: nat,
        i: nat) {
    && !k'.panicked && Good(k'.mem, root, slots, true, Bitmap(k'.bits)) && (r == 0 || r == -1) && StaysTaken(k.bits, k'.bits)
    && (forall p: nat | p < PAGES && !BlockHas(p, frame, count) :: Translate(k'.mem, root, p) == Translate(k.mem, root, p))
    && (forall p: nat | p < PAGES && BlockHas(p, frame, count) ::
          if r == -1 then Translate(k'.mem, root, p) == None
          else if BlockHas(p, frame, i) then Translate(k'.mem, root, p) == Translate(k.mem, root, p)
          else MappedFresh(k.bits, k'.mem, root, p))
    && (r == 0 ==> k'.v == k.v)
  }

  /** The page is mapped to a frame that was free. */
  ghost predicate MappedFresh(bits: seq<Word64>, m: Memory, root: nat, p: nat) {
    Translate(m, root, p).Some? && FrameBitmap.IsFree(bits, Translate(m, root, p).value)
  }

  /** The rollback keeps the tables consistent and unmaps all of the block. */
  lemma UndoIs(k: State, root: nat, slots: set<nat>, offset: nat, frame: nat, count: nat, i: nat, garbage: seq<int>)
    requires Midway(k, root, slots, frame, count, i) && i < count && k.Shaped()
    requires GoodBlock(slots, frame, count) && 0x0000_FF80_0000_0000 < offset
    ensures var k' := Undo(k, root, offset, frame, count, i, garbage);
            && k'.bits == k.bits && AllOrNothing(k, k', -1, root, slots, frame, count, i)
  {
    ShorterBlock(slots, frame, count, i);
    MappedErasable(k.mem, root, frame, i);
    FreePagesIs(k, root, slots, offset, frame, i, i, garbage);
    var k1 := FreePages(k, root, offset, frame, i, garbage);
    hide Good, GoodBlock, Erased, FreePages, FreeMany, MappedBlock, VMap.Shaped;
    GoneIs(k.mem, k1.mem, root, slots, k.bits, frame, count, i);
    hide BlockHas;
  }

  lemma ShorterBlock(slots: set<nat>, frame: nat, count: nat, i: nat)
    requires GoodBlock(slots, frame, count) && i <= count
    ensures GoodBlock(slots, frame, i)
  {
  }

  lemma GoneIs(m: Memory, m1: Memory, root: nat, slots: set<nat>, bits: seq<Word64>, frame: nat, count: nat, i: nat)
    requires Good(m, root, slots, true, Bitmap(bits)) && GoodBlock(slots, frame, count) && i <= count
    requires RestUnmapped(m, root, frame, count, i) && Erased(m, m1, root, frame, i)
    ensures BlockGone(m, m1, root, frame, count)
  {
    hide Good, Erased, GoodBlock, Walk, Translate;
    GoneAfterErase(m, m1, root, frame, i);
    forall p: nat | p < PAGES
      ensures Translate(m1, root, p) == if BlockHas(p, frame, count) then None else Translate(m, root, p)
    {
      if BlockHas(p, frame, count) {
        ManagedInBlock(slots, frame, count, p);
        MappedTranslates(m, root, slots, Bitmap(bits), p);
      }
    }
  }

  lemma AllMapped(k: State, root: nat, slots: set<nat>, frame: nat, count: nat)
    requires Midway(k, root, slots, frame, count, count)
    ensures AllOrNothing(k, k, 0, root, slots, frame, count, count)
  {
    hide Good, Translate;
  }

  /** One round before. */
  lemma AllOrNothingFrom(k: State, k1: State, k': State, r: int, root: nat, slots: set<nat>, frame: nat, count: nat,
        i: nat,
        f: nat)
    requires GoodBlock(slots, frame, count) && i < count && k1.v == k.v && StaysTaken(k.bits, k1.bits)
    requires AllOrNothing(k1, k', r, root, slots, frame, count, i + 1)
    requires Retranslated(k.mem, k1.mem, root, Page(frame + i * 0x1000), Some(f)) && FrameBitmap.IsFree(k.bits, f)
    ensures AllOrNothing(k, k', r, root, slots, frame, count, i)
  {
    hide Translate, BlockHas, Good, FrameBitmap.IsFree;
    PageInBlock(slots, frame, count, i);
    forall p: nat | p < PAGES
      ensures BlockHas(p, frame, i + 1) <==> BlockHas(p, frame, i) || p == Page(frame + i * 0x1000)
    {
      BlockStep(slots, frame, count, i, p);
    }
    BlockStep(slots, frame, count, i, Page(frame + i * 0x1000));
  }

  lemma NothingFrom(k: State, k1: State, k': State, root: nat, slots: set<nat>, frame: nat, count: nat, i: nat)
    requires AllOrNothing(k1, k', -1, root, slots, frame, count, i) && StaysTaken(k.bits, k1.bits)
    requires Retranslated(k.mem, k1.mem, root, Page(frame + i * 0x1000), None)
    ensures AllOrNothing(k, k', -1, root, slots, frame, count, i)
  {
    hide Translate, BlockHas, Good, FrameBitmap.IsFree;
  }

  lemma {:induction false} MapBlockIs(k: State, root: nat, slots: set<nat>, offset: nat, frame: nat, count: nat, i: nat,
        garbage: seq<int>)
    requires k.Shaped() && Midway(k, root, slots, frame, count, i) && i <= count
    requires GoodBlock(slots, frame, count) && 0x0000_FF80_0000_0000 < offset
    ensures var (k', r) := MapBlock(k, root, offset, frame, count, i, garbage);
            AllOrNothing(k, k', r, root, slots, frame, count, i)
    decreases count - i
  {
    hide Round, RoundDone, Midway, AllOrNothing, Undo, GoodBlock, Missing, Retranslated, StaysTaken,
      FrameBitmap.CanTake,
      FrameBitmap.Picked, FrameBitmap.Released, FrameBitmap.Rooms, VMap.Shaped;
    if i == count {
      AllMapped(k, root, slots, frame, count);
    } else if !FrameBitmap.CanTake(k.bits) {
      UndoIs(k, root, slots, offset, frame, count, i, garbage);
    } else {
      var (k1, r) := Round(k, root, frame, i);
      RoundIs(k, root, slots, frame, count, i);
      RoundCases(k, k1, r, root, slots, frame, count, i);
      if r == -1 {
        UndoIs(k1, root, slots, offset, frame, count, i, garbage);
        NothingFrom(k, k1, Undo(k1, root, offset, frame, count, i, garbage), root, slots, frame, count, i);
      } else {
        MapBlockIs(k1, root, slots, offset, frame, count, i + 1, garbage);
        var (k', r') := MapBlock(k1, root, offset, frame, count, i + 1, garbage);
        AllOrNothingFrom(k, k1, k', r', root, slots, frame, count, i, FrameBitmap.Picked(k.bits));
      }
    }
  }

  lemma RoundCases(k: State, k1: State, r: int, root: nat, slots: set<nat>, frame: nat, count: nat, i: nat)
    requires FrameBitmap.CanTake(k.bits) && RoundDone(k, k1, r, root, slots, frame, count, i)
    ensures var page, phys := Page(frame + i * 0x1000), FrameBitmap.Picked(k.bits);
            && (r == 0 || r == -1) && k1.v == k.v && Midway(k1, root, slots, frame, count, if r == 0 then i + 1 else i)
            && Retranslated(k.mem, k1.mem, root, page, if r == 0 then Some(phys) else None)
            && StaysTaken(k.bits, k1.bits) && FrameBitmap.Released(k1.bits, phys) == k1.bits && FrameBitmap.IsFree(k.bits, phys)
  {
  }

  // ---------------------------------------------------------------------------
  // When the loop succeeds
  // ---------------------------------------------------------------------------

  /** The page that the loop could not map, or count. */
  function FailedAt(k: State, root: nat, frame: nat, count: nat, i: nat): (r: nat)
    requires i <= count
    ensures i <= r <= count
    decreases count - i
  {
    if i == count || !FrameBitmap.CanTake(k.bits) then i
    else
      var (k1, r) := Round(k, root, frame, i);
      if r == 0 then FailedAt(k1, root, frame, count, i + 1) else i
  }

  lemma {:induction false} SucceedsAtEnd(k: State, root: nat, offset: nat, frame: nat, count: nat, i: nat,
        garbage: seq<int>)
    requires k.Shaped() && i <= count
    ensures MapBlock(k, root, offset, frame, count, i, garbage).1 == 0 <==> FailedAt(k, root, frame, count, i) == count
    decreases count - i
  {
    hide Round, FrameBitmap.CanTake, FrameBitmap.Picked, FrameBitmap.Released, Undo;
    if i < count && FrameBitmap.CanTake(k.bits) {
      var (k1, r) := Round(k, root, frame, i);
      RoundKeepsList(k, root, frame, i);
      if r == 0 {
        SucceedsAtEnd(k1, root, offset, frame, count, i + 1, garbage);
      }
    }
  }

  /** Frames for n pages of the block and for all the tables they need. */
  ghost predicate FramesFor(k: State, root: nat, frame: nat, n: nat) {
    n + Needed(k.mem, root, Page(frame), n) <= FrameBitmap.Rooms(k.bits)
  }

  /** State k has come from k0 by mapping the first i pages. */
  ghost predicate Came(k0: State, k: State, root: nat, frame: nat, i: nat) {
    && TablesThere(k0.mem, k.mem, root, Page(frame), i)
    && FrameBitmap.Rooms(k.bits) + i + Needed(k0.mem, root, Page(frame), i) == FrameBitmap.Rooms(k0.bits)
  }

  /** The loop fails at the first page for which, with the pages before it, the
      frames do not suffice. */
  lemma {:induction false} FailedAtIs(k0: State, k: State, root: nat, slots: set<nat>, frame: nat, count: nat, i: nat)
    requires Midway(k, root, slots, frame, count, i) && i <= count && GoodBlock(slots, frame, count)
    requires Came(k0, k, root, frame, i)
    ensures var j := FailedAt(k, root, frame, count, i);
            FramesFor(k0, root, frame, j) && (j < count ==> !FramesFor(k0, root, frame, j + 1))
    decreases count - i
  {
    hide Round, RoundDone, Midway, GoodBlock, Came, Missing, FrameBitmap.CanTake, FrameBitmap.Rooms, Needed;
    if i == count {
      CameEnough(k0, k, root, frame, i);
    } else if !FrameBitmap.CanTake(k.bits) {
      CameEnough(k0, k, root, frame, i);
      NoMore(k0, k, root, frame, i);
    } else {
      var (k1, r) := Round(k, root, frame, i);
      RoundIs(k, root, slots, frame, count, i);
      RoundCases(k, k1, r, root, slots, frame, count, i);
      CameNext(k0, k, k1, r, root, slots, frame, count, i);
      if r == 0 {
        FailedAtIs(k0, k1, root, slots, frame, count, i + 1);
      } else {
        CameEnough(k0, k, root, frame, i);
      }
    }
  }

  lemma CameEnough(k0: State, k: State, root: nat, frame: nat, i: nat)
    requires Came(k0, k, root, frame, i)
    ensures FramesFor(k0, root, frame, i)
  {
  }

  lemma NoMore(k0: State, k: State, root: nat, frame: nat, i: nat)
    requires Came(k0, k, root, frame, i) && !FrameBitmap.CanTake(k.bits)
    ensures !FramesFor(k0, root, frame, i + 1)
  {
    FrameBitmap.RoomsPositive(k.bits);
    NeededGrows(k0.mem, root, Page(frame), i, i + 1);
    hide Needed;
  }

  lemma CameNext(k0: State, k: State, k1: State, r: int, root: nat, slots: set<nat>, frame: nat, count: nat, i: nat)
    requires GoodBlock(slots, frame, count) && i < count && Came(k0, k, root, frame, i)
    requires FrameBitmap.CanTake(k.bits) && RoundDone(k, k1, r, root, slots, frame, count, i)
    ensures if r == 0 then Came(k0, k1, root, frame, i + 1) else !FramesFor(k0, root, frame, i + 1)
  {
    hide Midway, Needed, Missing, Retranslated, StaysTaken, GoodBlock, TablesThere, GrowsAlong, HasTables, Page,
      FrameBitmap.Rooms,
      FrameBitmap.CanTake, FrameBitmap.Picked, FrameBitmap.Released, FrameBitmap.IsFree;
    PagesOfBlock(slots, frame, count, i);
    MissingNext(k0.mem, k.mem, root, Page(frame), i);
    if r == 0 {
      TablesNext(k0.mem, k.mem, k1.mem, root, Page(frame), i);
    }
  }

  /** At the start. */
  lemma CameFromStart(k: State, root: nat, frame: nat)
    ensures Came(k, k, root, frame, 0)
  {
    hide Walk, Prefix;
  }

  lemma {:induction false} EnoughForFewer(k: State, root: nat, frame: nat, j: nat, n: nat)
    requires j <= n && FramesFor(k, root, frame, n)
    ensures FramesFor(k, root, frame, j)
  {
    NeededGrows(k.mem, root, Page(frame), j, n);
    hide Needed;
  }

  lemma RoundKeepsList(k: State, root: nat, frame: nat, i: nat)
    requires FrameBitmap.CanTake(k.bits)
    ensures Round(k, root, frame, i).0.v == k.v && -1 <= Round(k, root, frame, i).1 <= 1
  {
    var bits, phys, a := FrameBitmap.Taken(k.bits), FrameBitmap.Picked(k.bits), frame + i * 0x1000;
    MapResult(k.mem, Bitmap(bits), root, 0, Page(a), FrameOf(0x1000 * phys));
  }

  lemma {:induction false} MapResult(m: Memory, s: Supply, t: nat, d: nat, page: nat, frame: nat)
    requires d <= 3
    ensures -1 <= MapFrom(m, s, t, d, page, frame).result <= 1
    decreases 3 - d
  {
    var i := Prefix(page, d + 1) % 512;
    if d < 3 {
      if Present(Load(m, t, i)) {
        MapResult(m, s, FrameOf(Load(m, t, i)), d + 1, page, frame);
      } else if Draw(s).Some? {
        var (z, s') := Draw(s).value;
        MapResult(Installed(m, s, t, i, d + 1, z), s', z, d + 1, page, frame);
      }
    }
  }

  // ---------------------------------------------------------------------------
  // The frame bitmap
  // ---------------------------------------------------------------------------

  lemma FreedKeepsBits(k: State, root: nat, offset: nat, frame: nat, n: nat, garbage: seq<int>)
    requires k.Shaped()
    ensures FreePages(k, root, offset, frame, n, garbage).bits == k.bits
  {
    if n > 0 {
      FreedKeepsBits(k, root, offset, frame, n - 1, garbage);
    }
  }

  /** A loop in which the bit of f is set leaves it set. */
  lemma {:induction false} MarkedStaysMarked(k: State, root: nat, offset: nat, frame: nat, count: nat, i: nat,
        garbage: seq<int>, f: nat)
    requires k.Shaped() && i <= count && FrameBitmap.IsMarked(k.bits, f)
    ensures FrameBitmap.IsMarked(MapBlock(k, root, offset, frame, count, i, garbage).0.bits, f)
    decreases count - i
  {
    if i < count {
      if FrameBitmap.CanTake(k.bits) {
        var (k1, r) := Round(k, root, frame, i);
        RoundKeepsMarks(k, root, frame, i, f);
        hide Round, FrameBitmap.Picked, FrameBitmap.IsMarked, FrameBitmap.Released, FrameBitmap.CanTake, Undo;
        if r == -1 {
          UndoKeepsBits(k1, root, offset, frame, count, i, garbage);
          ReleasedKeepsMark(k1.bits, FrameBitmap.Picked(k.bits), f);
        } else if r != 1 {
          MarkedStaysMarked(k1, root, offset, frame, count, i + 1, garbage, f);
        }
      } else {
        UndoKeepsBits(k, root, offset, frame, count, i, garbage);
      }
    }
  }

  lemma UndoKeepsBits(k: State, root: nat, offset: nat, frame: nat, count: nat, i: nat, garbage: seq<int>)
    requires k.Shaped() && i < count
    ensures Undo(k, root, offset, frame, count, i, garbage).bits == k.bits
  {
    FreedKeepsBits(k, root, offset, frame, i, garbage);
  }

  lemma ReleasedKeepsMark(bits: seq<Word64>, p: nat, f: nat)
    requires FrameBitmap.IsMarked(bits, f)
    ensures FrameBitmap.IsMarked(FrameBitmap.Released(bits, p), f)
  {
    if p / 64 < |bits| {
      FrameBitmap.FreeNeverFrees(bits, p);
    }
  }

  lemma RoundKeepsMarks(k: State, root: nat, frame: nat, i: nat, f: nat)
    requires k.Shaped() && FrameBitmap.CanTake(k.bits)
    requires FrameBitmap.IsMarked(k.bits, f) || f == FrameBitmap.Picked(k.bits)
    ensures FrameBitmap.IsMarked(Round(k, root, frame, i).0.bits, f) && Round(k, root, frame, i).0.v == k.v
  {
    FrameBitmap.TakeIs(k.bits);
    var bits, phys, a := FrameBitmap.Taken(k.bits), FrameBitmap.Picked(k.bits), frame + i * 0x1000;
    MapKeepsMarks(k.mem, Bitmap(bits), root, 0, Page(a), FrameOf(0x1000 * phys), f);
    hide FrameBitmap.IsMarked, FrameBitmap.Taken, FrameBitmap.Picked;
  }

  lemma {:induction false} MapKeepsMarks(m: Memory, s: Supply, t: nat, d: nat, page: nat, frame: nat, f: nat)
    requires d <= 3 && s.Bitmap? && FrameBitmap.IsMarked(s.words, f)
    ensures var s' := MapFrom(m, s, t, d, page, frame).supply;
            s'.Bitmap? && FrameBitmap.IsMarked(s'.words, f)
    decreases 3 - d
  {
    var i := Prefix(page, d + 1) % 512;
    if d < 3 {
      if Present(Load(m, t, i)) {
        MapKeepsMarks(m, s, FrameOf(Load(m, t, i)), d + 1, page, frame, f);
      } else if Draw(s).Some? {
        var (z, s') := Draw(s).value;
        FrameBitmap.TakeIs(s.words);
        MapKeepsMarks(Installed(m, s, t, i, d + 1, z), s', z, d + 1, page, frame, f);
      }
    }
  }

  /** A failed call gives no frame back, neither those of the pages it unmaps
      again nor the one page_map refused: the frame bitmap is as before exactly
      when there was no frame to take, or no range was found. */
  lemma FailureRestoresFramesIff(k: State, root: nat, offset: nat, frame: nat, count: nat, garbage: seq<int>)
    requires k.Shaped() && count > 0
    requires PageAllocMultipleAt(k, root, offset, frame, count, garbage).1 != 0
    ensures PageAllocMultipleAt(k, root, offset, frame, count, garbage).0.bits == k.bits <==>
              !FrameBitmap.CanTake(k.bits) || AllocMultipleAt(k.v, frame, count).result != 0
  {
    var o := AllocMultipleAt(k.v, frame, count);
    if o.result == 0 {
      var k0 := k.(v := o.v);
      if FrameBitmap.CanTake(k.bits) {
        FrameBitmap.TakeIs(k.bits);
        FirstFrameGone(k0, root, offset, frame, count, garbage);
      } else {
        UndoKeepsBits(k0, root, offset, frame, count, 0, garbage);
      }
    }
  }

  lemma FirstFrameGone(k: State, root: nat, offset: nat, frame: nat, count: nat, garbage: seq<int>)
    requires k.Shaped() && count > 0 && FrameBitmap.CanTake(k.bits)
    ensures FrameBitmap.IsMarked(MapBlock(k, root, offset, frame, count, 0, garbage).0.bits, FrameBitmap.Picked(k.bits))
  {
    var f := FrameBitmap.Picked(k.bits);
    var (k1, r) := Round(k, root, frame, 0);
    RoundKeepsMarks(k, root, frame, 0, f);
    hide Round, FrameBitmap.Picked, FrameBitmap.IsMarked, FrameBitmap.Released, FrameBitmap.CanTake, Undo;
    if r == -1 {
      UndoKeepsBits(k1, root, offset, frame, count, 0, garbage);
      ReleasedKeepsMark(k1.bits, f, f);
    } else if r != 1 {
      MarkedStaysMarked(k1, root, offset, frame, count, 1, garbage, f);
    }
  }
}
