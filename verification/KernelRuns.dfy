/**
 Runs of `page_alloc_at`, `page_alloc_after`, `page_alloc_beyond_ex`,
 `page_alloc_multiple_at`, `page_free` and `page_free_multiple`: when the state
 stays consistent, what that means, and when the kernel panics.
 */
module KernelRuns {
  import opened Options
  import opened Words
  import opened Addresses
  import opened PageTables
  import opened Mapping
  import opened Paging
  import opened VirtualRanges
  import opened RangeSets
  import opened Kernel
  import opened PageRequests
  import opened Rollback
  import opened BlockRequests
  import FrameBitmap

  /** The values that page_unmap leaves behind are part of a request. */
  datatype Request =
    | Allocate(policy: Policy)
    | AllocateBlock(frame: nat, count: nat, garbage: seq<int>)
    | Release(frame: nat, value: int)
    | ReleaseBlock(frame: nat, count: nat, garbage: seq<int>)

  /** The arguments of a request are what the functions take: see there. */
  ghost predicate ProperRequest(k: State, root: nat, offset: nat, slots: set<nat>, q: Request)
    requires k.Shaped()
  {
    match q
    case Allocate(p) => Proper(k.v, slots, p)
    case AllocateBlock(f, n, _) => ProperBlock(slots, offset, f, n)
    case Release(f, _) => ProperFree(k, root, slots, f)
    case ReleaseBlock(f, n, _) => ProperFreeBlock(k, root, slots, offset, f, n)
  }

  /** The request leaves the state inconsistent: for each kind the exact condition. */
  ghost predicate RequestTrouble(k: State, root: nat, offset: nat, slots: set<nat>, q: Request)
    requires k.Shaped() && ProperRequest(k, root, offset, slots, q)
  {
    match q
    case Allocate(p) => Trouble(k, root, slots, p)
    case AllocateBlock(f, n, g) => BlockTrouble(k, root, slots, f, n, g)
    case Release(f, g) => FreeTrouble(k, root, slots, offset, f, g)
    case ReleaseBlock(f, n, g) => FreeBlockTrouble(k, root, slots, f, n, g)
  }

  /** The state after a request. */
  function Serve(k: State, root: nat, offset: nat, q: Request): State
    requires k.Shaped()
  {
    match q
    case Allocate(p) => PageAlloc(k, root, p).0
    case AllocateBlock(f, n, g) => PageAllocMultipleAt(k, root, offset, f, n, g).0
    case Release(f, g) => PageFree(k, root, offset, f, g)
    case ReleaseBlock(f, n, g) => FreePages(k, root, offset, f, n, g)
  }

  function ServeAll(k: State, root: nat, offset: nat, qs: seq<Request>): State
    decreases |qs|
  {
    if qs == [] || !k.Shaped() then k else ServeAll(Serve(k, root, offset, qs[0]), root, offset, qs[1..])
  }

  /** Each request is proper in the state it meets, up to the first that makes trouble. */
  ghost predicate ProperRun(k: State, root: nat, offset: nat, slots: set<nat>, qs: seq<Request>)
    decreases |qs|
  {
    qs == [] || (k.Shaped() && ProperRequest(k, root, offset, slots, qs[0])
                 && (RequestTrouble(k, root, offset, slots, qs[0])
                     || ProperRun(Serve(k, root, offset, qs[0]), root, offset, slots, qs[1..])))
  }

  /** No request makes trouble in the state it meets. */
  ghost predicate NoTrouble(k: State, root: nat, offset: nat, slots: set<nat>, qs: seq<Request>)
    requires ProperRun(k, root, offset, slots, qs)
    decreases |qs|
  {
    qs == [] || (!RequestTrouble(k, root, offset, slots, qs[0])
                 && NoTrouble(Serve(k, root, offset, qs[0]), root, offset, slots, qs[1..]))
  }

  /** The state is consistent before and after every request of the run. */
  ghost predicate AlwaysInv(k: State, root: nat, offset: nat, slots: set<nat>, qs: seq<Request>)
    decreases |qs|
  {
    Inv(k, root, slots) && (qs == [] || (k.Shaped() && AlwaysInv(Serve(k, root, offset, qs[0]), root, offset, slots, qs[1..])))
  }

  /** One request. */
  lemma ServeConsistentIff(k: State, root: nat, offset: nat, slots: set<nat>, q: Request)
    requires Inv(k, root, slots) && k.Shaped() && ProperRequest(k, root, offset, slots, q)
    ensures Inv(Serve(k, root, offset, q), root, slots) <==> !RequestTrouble(k, root, offset, slots, q)
    ensures StaysTaken(k.bits, Serve(k, root, offset, q).bits)
  {
    hide Inv, Proper, ProperBlock, ProperFree, ProperFreeBlock, Trouble, BlockTrouble, FreeTrouble, FreeBlockTrouble,
      PageAlloc, PageFree,
      FreePages, PageAllocMultipleAt, PageAllocEffect, Translate, Covers, Adds, BlockGone, BlockHas, Overlaps, Removes, StaysTaken,
      MappedFresh, Good;
    TakenStays(k.bits);
    match q
    case Allocate(p) =>
      PageAllocConsistentIff(k, root, slots, p);
      PageAllocTakes(k, root, p);
    case AllocateBlock(f, n, g) =>
      MultipleAtIsAllOrNothing(k, root, slots, offset, f, n, g);
      MultipleAtConsistentIff(k, root, slots, offset, f, n, g);
    case Release(f, g) => PageFreeIs(k, root, slots, offset, f, g);
    case ReleaseBlock(f, n, g) => PageFreeMultipleIs(k, root, slots, offset, f, n, g);
  }

  lemma TakenStays(bits: seq<Word64>)
    ensures StaysTaken(bits, bits)
  {
  }

  /** Whatever happens, no bit of the frame bitmap is cleared. */
  lemma PageAllocTakes(k: State, root: nat, p: Policy)
    requires k.Shaped()
    ensures StaysTaken(k.bits, PageAlloc(k, root, p).0.bits)
  {
    hide PageAlloc;
    var bits := PageAlloc(k, root, p).0.bits;
    forall f: nat | FrameBitmap.IsFree(bits, f) ensures FrameBitmap.IsFree(k.bits, f) {
      PageAllocKeepsMark(k, root, p, f);
    }
  }

  lemma PageAllocKeepsMark(k: State, root: nat, p: Policy, f: nat)
    requires k.Shaped()
    ensures |PageAlloc(k, root, p).0.bits| == |k.bits|
    ensures FrameBitmap.IsMarked(k.bits, f) ==> FrameBitmap.IsMarked(PageAlloc(k, root, p).0.bits, f)
  {
    hide Choose, MapFrom, FrameBitmap.CanTake, FrameBitmap.Picked, FrameBitmap.Taken, FrameBitmap.IsMarked,
      FrameBitmap.Released,
      Free, VMap.Shaped;
    if FrameBitmap.CanTake(k.bits) {
      FrameBitmap.TakeIs(k.bits);
      TakenKeepsMark(k.bits, f);
      var phys, o := FrameBitmap.Picked(k.bits), Choose(k.v, p);
      var s := Bitmap(FrameBitmap.Taken(k.bits));
      MapKeepsSupply(k.mem, s, root, 0, Page(o.frame), FrameOf(0x1000 * phys));
      ReleasedSize(s.words, phys);
      ReleasedSize(MapPage(k.mem, s, root, o.frame, 0x1000 * phys).supply.words, phys);
      if FrameBitmap.IsMarked(k.bits, f) {
        MapKeepsMarks(k.mem, s, root, 0, Page(o.frame), FrameOf(0x1000 * phys), f);
        ReleasedKeepsMark(s.words, phys, f);
        ReleasedKeepsMark(MapPage(k.mem, s, root, o.frame, 0x1000 * phys).supply.words, phys, f);
      }
    }
  }

  lemma TakenKeepsMark(bits: seq<Word64>, f: nat)
    requires FrameBitmap.CanTake(bits)
    ensures |FrameBitmap.Taken(bits)| == |bits|
    ensures FrameBitmap.IsMarked(bits, f) ==> FrameBitmap.IsMarked(FrameBitmap.Taken(bits), f)
  {
    FrameBitmap.TakeIs(bits);
  }

  lemma ReleasedSize(bits: seq<Word64>, f: nat)
    ensures |FrameBitmap.Released(bits, f)| == |bits|
  {
  }

  /** A run of proper requests from a consistent state keeps the state
      consistent throughout exactly if none of them makes trouble. */
  lemma {:induction false} RunConsistentIff(k: State, root: nat, offset: nat, slots: set<nat>, qs: seq<Request>)
    requires Inv(k, root, slots) && ProperRun(k, root, offset, slots, qs)
    ensures AlwaysInv(k, root, offset, slots, qs) <==> NoTrouble(k, root, offset, slots, qs)
    decreases |qs|
  {
    hide Inv, ProperRequest, RequestTrouble, Serve;
    if qs != [] {
      ServeConsistentIff(k, root, offset, slots, qs[0]);
      if !RequestTrouble(k, root, offset, slots, qs[0]) {
        RunConsistentIff(Serve(k, root, offset, qs[0]), root, offset, slots, qs[1..]);
      }
    }
  }

  /** Then the state at the end is consistent, and no frame that was taken is free again. */
  lemma {:induction false} RunKeepsInv(k: State, root: nat, offset: nat, slots: set<nat>, qs: seq<Request>)
    requires Inv(k, root, slots) && ProperRun(k, root, offset, slots, qs) && NoTrouble(k, root, offset, slots, qs)
    ensures Inv(ServeAll(k, root, offset, qs), root, slots)
    ensures StaysTaken(k.bits, ServeAll(k, root, offset, qs).bits)
    decreases |qs|
  {
    hide Inv, ProperRequest, RequestTrouble, Serve;
    if qs != [] {
      ServeConsistentIff(k, root, offset, slots, qs[0]);
      RunKeepsInv(Serve(k, root, offset, qs[0]), root, offset, slots, qs[1..]);
    }
  }

  /** The page is on the list, and its frame is allocated, mapped nowhere else and no table. */
  ghost predicate Accounted(k: State, root: nat, slots: set<nat>, p: nat) {
    Translate(k.mem, root, p).Some? ==>
      var f := Translate(k.mem, root, p).value;
      && Covers(k.v.list, AddressOf(p)) && !FrameBitmap.IsFree(k.bits, f)
      && (forall q: nat | q < PAGES && q != p && Managed(slots, 4, q) :: Translate(k.mem, root, q) != Some(f))
      && (forall d: nat, q: nat | d <= 3 && IsPath(d, q) :: Walk(k.mem, root, d, q) != Table(f))
  }

  /** What that means for a reader: after a run without trouble kernel_panic has
      not been called, and every page of the managed slots is accounted for. */
  lemma RunIsSafe(k: State, root: nat, offset: nat, slots: set<nat>, qs: seq<Request>)
    requires Inv(k, root, slots) && ProperRun(k, root, offset, slots, qs) && NoTrouble(k, root, offset, slots, qs)
    ensures var k' := ServeAll(k, root, offset, qs);
            !k'.panicked && forall p: nat | p < PAGES && Managed(slots, 4, p) :: Accounted(k', root, slots, p)
  {
    RunKeepsInv(k, root, offset, slots, qs);
    var k' := ServeAll(k, root, offset, qs);
    InvShape(k', root, slots);
    hide ServeAll, ProperRun, NoTrouble, Inv, Accounted;
    forall p: nat | p < PAGES && Managed(slots, 4, p) ensures Accounted(k', root, slots, p) {
      InvAccounts(k', root, slots, p);
    }
  }

  lemma InvAccounts(k: State, root: nat, slots: set<nat>, p: nat)
    requires Inv(k, root, slots) && p < PAGES && Managed(slots, 4, p)
    ensures Accounted(k, root, slots, p)
  {
    if Translate(k.mem, root, p).Some? {
      MappedIsListed(k, root, slots, p);
      InvSeparatesFrames(k, root, slots, p, p);
      hide Inv, Covers, Managed, Span;
      forall q: nat | q < PAGES && q != p && Managed(slots, 4, q) ensures Translate(k.mem, root, q) != Translate(k.mem, root, p) {
        InvSeparatesFrames(k, root, slots, p, q);
      }
    }
  }

  lemma MappedIsListed(k: State, root: nat, slots: set<nat>, p: nat)
    requires Inv(k, root, slots) && p < PAGES && Managed(slots, 4, p) && Translate(k.mem, root, p).Some?
    ensures Covers(k.v.list, AddressOf(p))
  {
    PrefixIsPath(p, 4);
    assert !Walk(k.mem, root, 4, p).Huge?;
  }

  // ---------------------------------------------------------------------------
  // When the kernel panics
  // ---------------------------------------------------------------------------

  /** After a run without trouble the next request calls kernel_panic exactly if
      it is a single-page allocation for which Panics holds. */
  lemma NextPanicsIff(k: State, root: nat, offset: nat, slots: set<nat>, qs: seq<Request>, q: Request)
    requires Inv(k, root, slots) && ProperRun(k, root, offset, slots, qs) && NoTrouble(k, root, offset, slots, qs)
    requires var k' := ServeAll(k, root, offset, qs); k'.Shaped() && ProperRequest(k', root, offset, slots, q)
    ensures var k' := ServeAll(k, root, offset, qs);
            Serve(k', root, offset, q).panicked <==> q.Allocate? && Panics(k', root, q.policy)
  {
    RunKeepsInv(k, root, offset, slots, qs);
    ServePanicsIff(ServeAll(k, root, offset, qs), root, offset, slots, q);
  }

  lemma ServePanicsIff(k: State, root: nat, offset: nat, slots: set<nat>, q: Request)
    requires Inv(k, root, slots) && k.Shaped() && ProperRequest(k, root, offset, slots, q)
    ensures Serve(k, root, offset, q).panicked <==> q.Allocate? && Panics(k, root, q.policy)
  {
    hide Inv, Proper, ProperBlock, ProperFree, ProperFreeBlock, Panics, FreeTrouble, FreeBlockTrouble, PageAlloc,
      PageFree,
      FreePages, PageAllocMultipleAt, Translate, Covers, Adds, BlockGone, BlockHas, Overlaps, Removes, StaysTaken, MappedFresh, Good;
    match q
    case Allocate(p) => PageAllocPanicsIff(k, root, slots, p);
    case AllocateBlock(f, n, g) =>
      MultipleAtIsAllOrNothing(k, root, slots, offset, f, n, g);
    case Release(f, g) => PageFreeIs(k, root, slots, offset, f, g);
    case ReleaseBlock(f, n, g) => PageFreeMultipleIs(k, root, slots, offset, f, n, g);
  }

  /** How many insertions the list has slots for. */
  function SlotsLeft(v: VMap): nat
    requires v.Shaped()
  {
    FrameBitmap.Rooms(v.words[..v.limit])
  }

  /** memory.h promises 1 for a page that is allocated. A page put apart from
      the entry before it becomes the start of an entry, and asking for it again
      makes the kernel panic, if a frame and a slot are left. */
  lemma SecondAllocationPanics(k: State, root: nat, slots: set<nat>, a: nat)
    requires Inv(k, root, slots) && k.Shaped() && PageTarget(slots, a)
    requires NoBaseIn(k.v.list, a, PAGE) && k.v.list[Find(k.v.list, a, 0)].End() < a && SlotsLeft(k.v) >= 2
    requires FrameBitmap.Rooms(k.bits) >= 2 + Missing(k.mem, root, Page(a), 0)
    ensures var (k1, r) := PageAlloc(k, root, At(a));
            r == 0 && Inv(k1, root, slots) && k1.Shaped() && PageAlloc(k1, root, At(a)).0.panicked
  {
    hide Inv, PageAlloc, Trouble, Choose, Missing, Adds, Covers, Retranslated, StaysTaken, Ordered, FrameBitmap.Rooms,
      FrameBitmap.CanTake,
      NoBaseIn, StartsLater, VMap.HasSlot, Translate, Find, VMap.Shaped;
    var k1 := PageAlloc(k, root, At(a)).0;
    FrameBitmap.RoomsPositive(k.bits);
    InvShape(k, root, slots);
    ApartIsPlaced(k.v, slots, a);
    FirstIsFine(k, root, slots, a);
    PageAllocIs(k, root, slots, At(a));
    FrameBitmap.RoomsPositive(k1.bits);
    NowTranslates(k, k1, root, slots, a);
    PageAllocPanicsIff(k1, root, slots, At(a));
  }

  lemma ApartIsPlaced(v: VMap, slots: set<nat>, a: nat)
    requires v.Shaped() && v.list != [] && Ordered(v.list) && PageTarget(slots, a)
    requires NoBaseIn(v.list, a, PAGE) && v.list[Find(v.list, a, 0)].End() < a && SlotsLeft(v) >= 2
    ensures var o := Choose(v, At(a));
            && o.result == 0 && o.v.Shaped() && o.v.HasSlot() && StartsLater(o.v.list, a)
            && !StartsAtKey(v, At(a)) && Proper(v, slots, At(a)) && Proper(o.v, slots, At(a))
  {
    var e := Find(v.list, a, 0);
    var ws := v.words[..v.limit];
    FrameBitmap.RoomsPositive(ws);
    FrameBitmap.TakeUsesOneRoom(ws);
    FrameBitmap.TakeIs(ws);
    FrameBitmap.RoomsPositive(FrameBitmap.Taken(ws));
    var o := AllocAt(v, a);
    hide Ordered, NoBaseIn, FrameBitmap.Rooms, FrameBitmap.CanTake, FrameBitmap.Taken, FrameBitmap.Picked;
    assert o.v.list[e + 1].base == a && o.v.list[e + 1].length > 0;
    if !(v.HasNext(e) && v.list[e + 1].base == a + PAGE) {
      assert o.v.words == FrameBitmap.Taken(ws) + v.words[v.limit..];
      assert o.v.words[..v.limit] == FrameBitmap.Taken(ws);
    }
  }

  lemma FirstIsFine(k: State, root: nat, slots: set<nat>, a: nat)
    requires k.Shaped() && FrameBitmap.CanTake(k.bits) && !StartsAtKey(k.v, At(a)) && Choose(k.v, At(a)).result == 0
    requires Missing(k.mem, root, Page(a), 0) < FrameBitmap.Rooms(k.bits)
    ensures !Trouble(k, root, slots, At(a)) && FramesSuffice(k, root, Target(k.v, At(a))) && Target(k.v, At(a)) == a
  {
    hide StartsAtKey, LosesMapped, Place, FrameBitmap.Rooms, FrameBitmap.CanTake, Missing, VMap.Shaped;
    PlaceAdds(k.v, Find(k.v.list, a, 0), a, PAGE);
  }

  lemma NowTranslates(k: State, k1: State, root: nat, slots: set<nat>, a: nat)
    requires PageTarget(slots, a) && FrameBitmap.CanTake(k.bits)
    requires Retranslated(k.mem, k1.mem, root, Page(a), Some(FrameBitmap.Picked(k.bits)))
    ensures Translate(k1.mem, root, Page(a)).Some?
  {
    hide Translate, FrameBitmap.Picked, FrameBitmap.CanTake;
    AddressOfPage(a);
  }
}
