/**
 `page_alloc*` and `page_free*`: the frame bitmap, the list of ranges and the
 page tables together.
 */
module Kernel {
  import opened Options
  import opened Words
  import opened Addresses
  import opened PageTables
  import opened Mapping
  import opened Paging
  import opened VirtualRanges
  import opened RangeSets
  import opened RangeFrees
  import FrameBitmap
  import RangeSlots

  /** Memory, frame bitmap, list of ranges, and whether kernel_panic was called. */
  datatype State = State(mem: Memory, bits: seq<Word64>, v: VMap, panicked: bool) {
    predicate Shaped() { v.Shaped() && |v.list| > 0 }
  }

  // ---------------------------------------------------------------------------
  // The functions
  // ---------------------------------------------------------------------------

  /** The part that the single-page allocations share, once a frame and a range
      have been asked for: give the frame back if there was no range, map the
      page, and undo both if that fails. */
  function Finish(k: State, root: nat, phys: nat, o: Outcome): (State, int)
    requires o.v.Shaped() && |o.v.list| > 0
  {
    if o.result != 0 then (k.(bits := FrameBitmap.Released(k.bits, phys), v := o.v), o.result)
    else
      var r := MapPage(k.mem, Bitmap(k.bits), root, o.frame, 0x1000 * phys);
      MapKeepsSupply(k.mem, Bitmap(k.bits), root, 0, Page(o.frame), FrameOf(0x1000 * phys));
      var bits := r.supply.words;
      if r.result == 1 then (State(r.mem, bits, o.v, true), 1)
      else if r.result == -1 then
        (State(r.mem, FrameBitmap.Released(bits, phys), Free(o.v, o.frame).v, k.panicked), -1)
      else (State(r.mem, bits, o.v, k.panicked), 0)
  }

  lemma {:induction false} MapKeepsSupply(m: Memory, s: Supply, t: nat, d: nat, page: nat, frame: nat)
    requires d <= 3 && s.Bitmap?
    ensures var s' := MapFrom(m, s, t, d, page, frame).supply;
            s'.Bitmap? && |s'.words| == |s.words|
    decreases 3 - d
  {
    var i := Prefix(page, d + 1) % 512;
    if d < 3 {
      if Present(Load(m, t, i)) {
        MapKeepsSupply(m, s, FrameOf(Load(m, t, i)), d + 1, page, frame);
      } else if Draw(s).Some? {
        var (z, s') := Draw(s).value;
        FrameBitmap.TakeIs(s.words);
        MapKeepsSupply(Installed(m, s, t, i, d + 1, z), s', z, d + 1, page, frame);
      }
    }
  }

  /** A frame is taken before a range is looked for. */
  function TakeFrame(k: State): State
    requires FrameBitmap.CanTake(k.bits)
  {
    k.(bits := FrameBitmap.Taken(k.bits))
  }

  /** The single-page allocations that pass the address of the range on to page_map. */
  datatype Policy = Lowest | At(frame: nat) | After(base: nat) | BeyondEx(base: nat, jump: nat)

  function Choose(v: VMap, p: Policy): Outcome
    requires v.Shaped() && |v.list| > 0
  {
    match p
    case Lowest => Alloc(v)
    case At(f) => AllocAt(v, f)
    case After(b) => AllocAfter(v, b)
    case BeyondEx(b, j) => AllocBeyondEx(v, b, j)
  }

  /** page_alloc, page_alloc_at, page_alloc_after, page_alloc_beyond_ex. */
  function PageAlloc(k: State, root: nat, p: Policy): (State, int)
    requires k.Shaped()
  {
    if !FrameBitmap.CanTake(k.bits) then (k, -1)
    else Finish(TakeFrame(k), root, FrameBitmap.Picked(k.bits), Choose(k.v, p))
  }

  /** page_free. The value that page_unmap returns without a return statement is
      the parameter `garbage`; the frame is not given back. */
  function PageFree(k: State, root: nat, offset: nat, frame: nat, garbage: int): State
    requires k.Shaped()
  {
    if Refused(offset, frame) then k
    else
      var k1 := k.(mem := Unmapped(k.mem, root, Page(frame)));
      if garbage == -1 then k1 else k1.(v := Free(k.v, frame).v)
  }

  // ---------------------------------------------------------------------------
  // The invariant
  // ---------------------------------------------------------------------------

  /** Every page mapped under the managed slots is on the list. */
  ghost predicate Registered(m: Memory, list: seq<Range>, root: nat, slots: set<nat>) {
    forall p: nat | p < PAGES && Managed(slots, 4, p) && Walk(m, root, 4, p).Table? :: Covers(list, AddressOf(p))
  }

  /** The tables under the managed slots are unshared, the pages mapped there
      have frames of their own, all of these are marked as allocated, and all
      mapped pages are on the list, whose nodes live in slots of their own. */
  ghost predicate Inv(k: State, root: nat, slots: set<nat>) {
    && !k.panicked
    && Good(k.mem, root, slots, true, Bitmap(k.bits))
    && RangeSlots.SlotSafe(k.v) && Ordered(k.v.list)
    && Registered(k.mem, k.v.list, root, slots)
  }

  /** Among others the invariant says: two mapped pages have different frames,
      and the frame of a mapped page is allocated and no table. */
  lemma InvSeparatesFrames(k: State, root: nat, slots: set<nat>, p: nat, p': nat)
    requires Inv(k, root, slots) && p < PAGES && p' < PAGES && Managed(slots, 4, p) && Managed(slots, 4, p')
    requires Translate(k.mem, root, p).Some?
    ensures var f := Translate(k.mem, root, p).value;
            && !FrameBitmap.IsFree(k.bits, f)
            && (p != p' ==> Translate(k.mem, root, p') != Some(f))
            && (forall d, q | d <= 3 && IsPath(d, q) :: Walk(k.mem, root, d, q) != Table(f))
  {
    PrefixIsPath(p, 4);
    PrefixIsPath(p', 4);
    assert Counted(slots, true, 4, p) && Counted(slots, true, 4, p');
    assert Unique(k.mem, root, slots, true, 4, p);
    assert !Walk(k.mem, root, 4, p).Huge? && !Walk(k.mem, root, 4, p').Huge?;
    assert !Holds(Bitmap(k.bits), Walk(k.mem, root, 4, p).frame);
    forall d, q | d <= 3 && IsPath(d, q) ensures Walk(k.mem, root, d, q) != Walk(k.mem, root, 4, p) {
      assert Counted(slots, true, d, q);
    }
  }

  // ---------------------------------------------------------------------------
  // Taking a frame
  // ---------------------------------------------------------------------------

  /** A frame just taken is new: no table, no mapped page, and not in the bitmap. */
  ghost predicate NewFrame(m: Memory, root: nat, slots: set<nat>, bits: seq<Word64>, f: nat) {
    f < 0x100_0000_0000 && Unreached(m, root, slots, true, f) && FrameBitmap.IsMarked(bits, f)
  }

  lemma TakenIsNew(m: Memory, root: nat, slots: set<nat>, bits: seq<Word64>)
    requires Good(m, root, slots, true, Bitmap(bits)) && FrameBitmap.CanTake(bits)
    ensures Good(m, root, slots, true, Bitmap(FrameBitmap.Taken(bits)))
    ensures NewFrame(m, root, slots, FrameBitmap.Taken(bits), FrameBitmap.Picked(bits))
  {
    FrameBitmap.TakeIs(bits);
    HeldIsUnreached(m, root, slots, true, Bitmap(bits), FrameBitmap.Picked(bits));
  }

  // ---------------------------------------------------------------------------
  // Mapping a frame
  // ---------------------------------------------------------------------------

  /** Only `page` changes its translation, to f if that is given. */
  ghost predicate Retranslated(m: Memory, m': Memory, root: nat, page: nat, f: Option<nat>) {
    forall p: nat | p < PAGES :: Translate(m', root, p) == if f.Some? && p == page then f else Translate(m, root, p)
  }

  /** Mapping a new frame at a page that is not mapped succeeds exactly if there
      are frames for the tables that are missing. */
  lemma MapNewFrame(m: Memory, bits: seq<Word64>, root: nat, slots: set<nat>, va: nat, phys: nat)
    requires Good(m, root, slots, true, Bitmap(bits)) && NewFrame(m, root, slots, bits, phys) && Pml4Index(va) in slots
    requires !Walk(m, root, 4, Page(va)).Table?
    ensures var r := MapPage(m, Bitmap(bits), root, va, 0x1000 * phys);
            && r.result == (if Reserve(Bitmap(bits)) < Missing(m, root, Page(va), 0) then -1 else 0)
            && r.supply.Bitmap? && |r.supply.words| == |bits|
            && (r.result == 0 ==> Reserve(r.supply) == Reserve(Bitmap(bits)) - Missing(m, root, Page(va), 0))
            && Good(r.mem, root, slots, true, r.supply)
            && (forall f: nat :: Holds(r.supply, f) ==> FrameBitmap.IsFree(bits, f))
            && GrowsAlong(m, r.mem, root, Page(va)) && (r.result == 0 ==> HasTables(r.mem, root, Page(va)))
            && Retranslated(m, r.mem, root, Page(va), if r.result == 0 then Some(phys) else None)
            && (forall p: nat | p < PAGES ::
                  Walk(r.mem, root, 4, p).Table? <==> Walk(m, root, 4, p).Table? || (r.result == 0 && p == Page(va)))
  {
    hide Unreached, Private, Reserved, Managed, Mapping.At, MapFrom;
    var page, s := Page(va), Bitmap(bits);
    var r := MapPage(m, s, root, va, 0x1000 * phys);
    assert FrameOf(0x1000 * phys) == phys;
    ManagedPage(slots, va);
    RootAt(m, root, slots, page);
    MapKeepsSupply(m, s, root, 0, page, phys);
    MapFromIs(m, s, root, slots, true, page, root, 0, phys);
    TranslationsAfter(m, s, root, slots, true, page, phys, r);
    TablesAfter(m, s, root, slots, page, phys, r);
  }

  lemma TablesAfter(m: Memory, s: Supply, root: nat, slots: set<nat>, page: nat, frame: nat, r: Mapped)
    requires page < PAGES && MappedPage(m, s, root, slots, true, page, 0, frame, r) && !Walk(m, root, 4, page).Table?
    ensures r.result == (if Reserve(s) < Missing(m, root, page, 0) then -1 else 0)
    ensures r.result == 0 ==> Reserve(r.supply) == Reserve(s) - Missing(m, root, page, 0)
    ensures GrowsAlong(m, r.mem, root, page) && (r.result == 0 ==> HasTables(r.mem, root, page))
    ensures forall p: nat | p < PAGES ::
              Walk(r.mem, root, 4, p).Table? <==> Walk(m, root, 4, p).Table? || (r.result == 0 && p == page)
  {
    hide Good;
    forall p: nat | p < PAGES
      ensures Walk(r.mem, root, 4, p).Table? <==> Walk(m, root, 4, p).Table? || (r.result == 0 && p == page)
    {
      PrefixIsPath(p, 4);
      assert Prefix(page, 4) == page;
    }
  }

  /** A page that is mapped already makes page_map answer 1 and do nothing. */
  lemma MapMapped(m: Memory, bits: seq<Word64>, root: nat, slots: set<nat>, va: nat, phys: nat)
    requires Good(m, root, slots, true, Bitmap(bits)) && NewFrame(m, root, slots, bits, phys) && Pml4Index(va) in slots
    requires Walk(m, root, 4, Page(va)).Table?
    ensures MapPage(m, Bitmap(bits), root, va, 0x1000 * phys) == Mapped(m, Bitmap(bits), 1)
  {
    assert FrameOf(0x1000 * phys) == phys;
    ManagedPage(slots, va);
    RootAt(m, root, slots, Page(va));
    MapFromIs(m, Bitmap(bits), root, slots, true, Page(va), root, 0, phys);
  }

  /** A frame that stays marked is not given back by page_physical_free. */
  lemma ReleaseIsNoOp(bits: seq<Word64>, s: Supply, f: nat)
    requires s.Bitmap? && FrameBitmap.IsMarked(bits, f) && |s.words| == |bits|
    requires forall g: nat :: Holds(s, g) ==> FrameBitmap.IsFree(bits, g)
    ensures FrameBitmap.Released(s.words, f) == s.words
  {
    assert !Holds(s, f);
  }

  /** AddressOf tells pages apart. */
  lemma OtherPage(p: nat, a: nat)
    requires p < PAGES && Canonical(a) && a % 0x1000 == 0 && p != Page(a)
    ensures !(a <= AddressOf(p) < a + PAGE)
  {
    AddressOfPage(a);
    PageOfAddress(p);
  }

  /** After the page at `a` has been put on the list and mapped. */
  lemma RegisteredAfterMap(m: Memory, m': Memory, list: seq<Range>, list': seq<Range>, root: nat, slots: set<nat>,
        a: nat)
    requires Registered(m, list, root, slots) && Adds(list, list', a, PAGE) && Canonical(a) && a % 0x1000 == 0
    requires forall p: nat | p < PAGES && Walk(m', root, 4, p).Table? :: Walk(m, root, 4, p).Table? || p == Page(a)
    ensures Registered(m', list', root, slots)
  {
    AddressOfPage(a);
  }

  // ---------------------------------------------------------------------------
  // Taking pages off the list
  // ---------------------------------------------------------------------------

  /** Without a slot, freeing at `a` drops all of the entry found from there on;
      a page at or after `hi` that is dropped so is still mapped. */
  ghost predicate LosesMapped(m: Memory, root: nat, slots: set<nat>, v: VMap, a: nat, hi: nat)
    requires v.Shaped() && |v.list| > 0
  {
    && !v.HasSlot()
    && MappedIn(m, root, slots, hi, v.list[Find(v.list, a, 0)].End())
  }

  /** Some page of the managed slots in lo..hi is mapped. */
  ghost predicate MappedIn(m: Memory, root: nat, slots: set<nat>, lo: nat, hi: nat) {
    exists p: nat :: p < PAGES && Managed(slots, 4, p) && Walk(m, root, 4, p).Table? && lo <= AddressOf(p) < hi
  }

  /** Which pages a free takes off the list. */
  lemma FreeTakes(v: VMap, a: nat)
    requires v.Shaped() && v.list != [] && Ordered(v.list) && v.list[0].base <= a && a % 0x1000 == 0
    ensures var e := v.list[Find(v.list, a, 0)].End();
            Removes(v.list, Free(v, a).v.list, a, if e <= a then 0 else if v.HasSlot() then PAGE else e - a)
  {
    var k := Find(v.list, a, 0);
    FindIs(v.list, a);
    FreeWithin(v, a);
    if a < v.list[k].End() {
      FreeSplits(v, a);
      SplitIs(v, k, a, PAGE);
    }
  }

  /** Freeing at the first page of a block in which nothing is mapped keeps all
      mapped pages registered, unless it loses one behind the block. */
  lemma FreeRegisteredIff(m: Memory, v: VMap, root: nat, slots: set<nat>, a: nat, hi: nat)
    requires v.Shaped() && v.list != [] && Ordered(v.list) && v.list[0].base <= a && a % 0x1000 == 0 && a + PAGE <= hi
    requires Registered(m, v.list, root, slots) && !MappedIn(m, root, slots, a, hi)
    ensures Registered(m, Free(v, a).v.list, root, slots) <==> !LosesMapped(m, root, slots, v, a, hi)
  {
    hide Covers, Ordered, Free, VMap.HasSlot, VMap.Shaped, Managed, AddressOf, Walk;
    var e := v.list[Find(v.list, a, 0)].End();
    FreeTakes(v, a);
    if MappedIn(m, root, slots, hi, e) {
      var p: nat :| p < PAGES && Managed(slots, 4, p) && Walk(m, root, 4, p).Table? && hi <= AddressOf(p) < e;
      assert Covers(v.list, AddressOf(p));
    }
  }

  lemma UndoneList(v1: VMap, a: nat)
    requires RangeSlots.SlotSafe(v1) && Ordered(v1.list) && v1.list[0].base <= a && a % 0x1000 == 0
    ensures var v2 := Free(v1, a).v;
            RangeSlots.SlotSafe(v2) && Ordered(v2.list) && v2.list[0].base == v1.list[0].base
  {
    FreeWithin(v1, a);
    OrderedIsPaged(v1.list);
    RangeSlots.FreeSlots(v1, a, 1);
  }

  lemma OrderedIsPaged(list: seq<Range>)
    requires Ordered(list)
    ensures RangeSlots.Paged(list)
  {
  }

  /** No frame that was taken is free again. */
  ghost predicate StaysTaken(bits: seq<Word64>, bits': seq<Word64>) {
    forall f: nat :: FrameBitmap.IsFree(bits', f) ==> FrameBitmap.IsFree(bits, f)
  }

  // ---------------------------------------------------------------------------
  // A first state
  // ---------------------------------------------------------------------------

  /** No frame of a table, of any depth, is free. */
  ghost predicate TablesMarked(m: Memory, root: nat, bits: seq<Word64>) {
    forall d: nat, q: nat | d <= 3 && IsPath(d, q) && Walk(m, root, d, q).Table? ::
      !FrameBitmap.IsFree(bits, Walk(m, root, d, q).frame)
  }

  /** The frame of page p is allocated, is no table, and is that of no other managed page. */
  ghost predicate HasOwnFrame(m: Memory, root: nat, slots: set<nat>, bits: seq<Word64>, p: nat) {
    Walk(m, root, 4, p).Table? ==>
      && !FrameBitmap.IsFree(bits, Walk(m, root, 4, p).frame) && NowhereTable(m, root, Walk(m, root, 4, p).frame)
      && forall p': nat | IsPath(4, p') && Managed(slots, 4, p') && p' != p :: Walk(m, root, 4, p') != Walk(m, root, 4, p)
  }

  ghost predicate PagesApart(m: Memory, root: nat, slots: set<nat>, bits: seq<Word64>) {
    forall p: nat | IsPath(4, p) && Managed(slots, 4, p) :: HasOwnFrame(m, root, slots, bits, p)
  }

  /** With tables that are unshared under the managed slots, a frame bitmap that
      a 16-bit index can scan, and a list in order with nodes in slots of their
      own, the state is consistent exactly if the frames of all tables and pages
      are marked, the pages have frames of their own, and all are on the list. */
  lemma FirstStateIff(m: Memory, s: Supply, bits: seq<Word64>, root: nat, slots: set<nat>, v: VMap)
    requires Good(m, root, slots, false, s) && |bits| < 0x1_0000
    requires RangeSlots.SlotSafe(v) && Ordered(v.list)
    ensures Inv(State(m, bits, v, false), root, slots) <==>
              TablesMarked(m, root, bits) && PagesApart(m, root, slots, bits) && Registered(m, v.list, root, slots)
  {
    hide RangeSlots.SlotSafe, Ordered, Registered, TablesMarked, PagesApart, Good;
    GoodWithPagesIff(m, s, bits, root, slots);
  }

  lemma GoodWithPagesIff(m: Memory, s: Supply, bits: seq<Word64>, root: nat, slots: set<nat>)
    requires Good(m, root, slots, false, s) && |bits| < 0x1_0000
    ensures Good(m, root, slots, true, Bitmap(bits)) <==> TablesMarked(m, root, bits) && PagesApart(m, root, slots, bits)
  {
    hide Walk, Span, Managed;
    if Good(m, root, slots, true, Bitmap(bits)) {
      forall d: nat, q: nat | d <= 3 && IsPath(d, q) && Walk(m, root, d, q).Table?
        ensures !FrameBitmap.IsFree(bits, Walk(m, root, d, q).frame)
      {
        assert Counted(slots, true, d, q) && !Holds(Bitmap(bits), Walk(m, root, d, q).frame);
      }
      forall p: nat | IsPath(4, p) && Managed(slots, 4, p) ensures HasOwnFrame(m, root, slots, bits, p) {
        GoodIsApart(m, bits, root, slots, p);
      }
    }
    if TablesMarked(m, root, bits) && PagesApart(m, root, slots, bits) {
      forall d: nat, q: nat | Counted(slots, true, d, q) && Managed(slots, d, q) ensures Unique(m, root, slots, true, d, q) {
        ApartIsUnique(m, s, bits, root, slots, d, q);
      }
      forall d: nat, q: nat | Counted(slots, true, d, q) && Walk(m, root, d, q).Table?
        ensures !Holds(Bitmap(bits), Walk(m, root, d, q).frame)
      {
        if d == 4 {
          assert HasOwnFrame(m, root, slots, bits, q);
        }
      }
    }
  }

  lemma GoodIsApart(m: Memory, bits: seq<Word64>, root: nat, slots: set<nat>, p: nat)
    requires Good(m, root, slots, true, Bitmap(bits)) && IsPath(4, p) && Managed(slots, 4, p)
    ensures HasOwnFrame(m, root, slots, bits, p)
  {
    hide Walk, Span, Managed;
    assert Counted(slots, true, 4, p) && Unique(m, root, slots, true, 4, p);
    if Walk(m, root, 4, p).Table? {
      assert !Holds(Bitmap(bits), Walk(m, root, 4, p).frame);
      forall e: nat, r: nat | e <= 3 && IsPath(e, r) ensures Walk(m, root, e, r) != Walk(m, root, 4, p) {
        assert Counted(slots, true, e, r);
      }
      forall p': nat | IsPath(4, p') && Managed(slots, 4, p') && p' != p ensures Walk(m, root, 4, p') != Walk(m, root, 4, p) {
        assert Counted(slots, true, 4, p');
      }
    }
  }

  lemma ApartIsUnique(m: Memory, s: Supply, bits: seq<Word64>, root: nat, slots: set<nat>, d: nat, q: nat)
    requires Good(m, root, slots, false, s) && PagesApart(m, root, slots, bits)
    requires Counted(slots, true, d, q) && Managed(slots, d, q)
    ensures Unique(m, root, slots, true, d, q)
  {
    hide Walk, Span, Managed, FrameBitmap.IsFree;
    if Walk(m, root, d, q).Table? {
      forall e: nat, r: nat | Counted(slots, true, e, r) && (e != d || r != q)
        ensures Walk(m, root, e, r) != Walk(m, root, d, q)
      {
        if e == 4 {
          assert HasOwnFrame(m, root, slots, bits, r);
        } else if d == 4 {
          assert HasOwnFrame(m, root, slots, bits, q);
        } else {
          assert Counted(slots, false, d, q) && Counted(slots, false, e, r);
          assert Unique(m, root, slots, false, d, q);
        }
      }
    }
  }
}
