/**
 From the firmware's tables to the first request: the tables that the bootloader
 leaves, with its segments mapped, and what `page_allocator_init` makes of them.
 */
module Handover {
  import opened Options
  import opened Words
  import opened Addresses
  import opened PageTables
  import opened Mapping
  import opened Mirror
  import opened BootPages
  import opened BootMapper
  import opened Relocation
  import opened VirtualRanges
  import opened RangeSets
  import opened Kernel
  import opened ListInit
  import BitmapInit
  import FrameBitmap
  import RangeSlots

  /** The tables after the bootloader has mapped the kernel. */
  function Handed(m: Memory, b: Move, root: nat, count: nat, segs: seq<Segment>): Memory
    requires count <= 511
  {
    BootPages.MapSegments(Booted(m, b, root, count), Mirror.Left(m, b, root), b.To(root), segs).0
  }

  ghost predicate Bootable(m: Memory, b: Move, root: nat, count: nat, slots: set<nat>, segs: seq<Segment>) {
    && Movable(m, b, root) && NoEmptyTable(m, root) && LowSlots(m, root, count)
    && count <= 511 && BootPagesFit(m, b, root, count, slots, segs)
  }

  /** Where the managed pages lead to. */
  ghost predicate SegmentsOnly(m: Memory, r: nat, slots: set<nat>, segs: seq<Segment>) {
    && (forall p: nat | p < PAGES && Managed(slots, 4, p) ::
          Walk(m, r, 4, p) == match FrameIn(segs, p) case None => Absent case Some(f) => Table(f))
    && (forall p: nat | FrameIn(segs, p).Some? :: p < PAGES && Managed(slots, 4, p))
  }

  /** Under the managed slots, the segments are all that is mapped, and the
      tables are unshared. */
  lemma HandedIs(m: Memory, b: Move, root: nat, count: nat, slots: set<nat>, segs: seq<Segment>) returns (s: Supply)
    requires Bootable(m, b, root, count, slots, segs)
    ensures Good(Handed(m, b, root, count, segs), b.To(root), slots, false, s)
    ensures SegmentsOnly(Handed(m, b, root, count, segs), b.To(root), slots, segs)
  {
    hide Relocated, Mirrored, Movable, NoEmptyTable, LowSlots, Mirror.Left, Translate, Good, Walk, MissingTables, Page,
      UnusedSlots, MappedSegments, BootPages.MapSegments, NeededBy, SegmentsIn, FrameIn, SegmentsOnly;
    var r, m2, s2 := b.To(root), Booted(m, b, root, count), Mirror.Left(m, b, root);
    TablesAreReady(m, b, root, count, slots);
    LeftIsBump(m, b, root);
    MapSegmentsIs(m2, s2, r, slots, segs);
    var (m3, s3) := BootPages.MapSegments(m2, s2, r, segs);
    SegmentsAtEnd(m2, s2, m3, s3, r, slots, segs);
    s := s3;
    OnlySegments(m, m3, b, root, count, slots, segs, s3);
  }

  lemma OnlySegments(m: Memory, m3: Memory, b: Move, root: nat, count: nat, slots: set<nat>, segs: seq<Segment>, s: Supply)
    requires Movable(m, b, root) && LowSlots(m, root, count)
    requires count <= 511 && UnusedSlots(slots, count) && SegmentsIn(slots, segs)
    requires SegmentsThere(Booted(m, b, root, count), m3, b.To(root), segs) && Good(m3, b.To(root), slots, false, s)
    ensures SegmentsOnly(m3, b.To(root), slots, segs)
  {
    hide Relocated, Mirrored, Movable, LowSlots, Walk, UnusedSlots, SegmentsIn, FrameIn, Translate, Managed, Good, SegmentsThere;
    var r := b.To(root);
    RelocatedSlots(m, b, root, count);
    forall p: nat | p < PAGES && Managed(slots, 4, p)
      ensures Walk(m3, r, 4, p) == match FrameIn(segs, p) case None => Absent case Some(f) => Table(f)
    {
      PrefixIsPath(p, 4);
      assert Prefix(p, 4) == p;
      UnusedAbsent(Relocated(m, b, root), r, count, slots, 4, p);
      WalkInSegment(Booted(m, b, root, count), m3, r, slots, segs, s, p);
    }
    forall p: nat | FrameIn(segs, p).Some? ensures p < PAGES && Managed(slots, 4, p) {
      FrameInIff(segs, p);
      var g :| g in segs && g.Has(p);
      InSegmentIsAbsent(m, b, root, count, slots, segs, g, p);
    }
  }

  lemma WalkInSegment(m2: Memory, m3: Memory, r: nat, slots: set<nat>, segs: seq<Segment>, s: Supply, p: nat)
    requires p < PAGES && Managed(slots, 4, p) && IsPath(4, p) && Walk(m2, r, 4, p) == Absent
    requires SegmentsThere(m2, m3, r, segs) && Good(m3, r, slots, false, s)
    ensures Walk(m3, r, 4, p) == match FrameIn(segs, p) case None => Absent case Some(f) => Table(f)
  {
    hide Walk, FrameIn, Managed, Private, Reserved;
    assert !Walk(m3, r, 4, p).Huge?;
  }

  // ---------------------------------------------------------------------------
  // The first state
  // ---------------------------------------------------------------------------

  /** The frames that the segments give to their pages are distinct, marked, and no tables. */
  ghost predicate SegmentsApart(m: Memory, r: nat, segs: seq<Segment>, bits: seq<Word64>) {
    forall p: nat | FrameIn(segs, p).Some? ::
      && !FrameBitmap.IsFree(bits, FrameIn(segs, p).value) && NowhereTable(m, r, FrameIn(segs, p).value)
      && forall p': nat | p' != p :: FrameIn(segs, p') != FrameIn(segs, p)
  }

  lemma SegmentsApartIff(m: Memory, r: nat, slots: set<nat>, segs: seq<Segment>, bits: seq<Word64>)
    requires SegmentsOnly(m, r, slots, segs)
    ensures PagesApart(m, r, slots, bits) <==> SegmentsApart(m, r, segs, bits)
  {
    hide Walk, FrameIn, Managed, NowhereTable, FrameBitmap.IsFree;
    PrefixIs(0);
    if PagesApart(m, r, slots, bits) {
      forall p: nat | FrameIn(segs, p).Some?
        ensures !FrameBitmap.IsFree(bits, FrameIn(segs, p).value) && NowhereTable(m, r, FrameIn(segs, p).value)
        ensures forall p': nat | p' != p :: FrameIn(segs, p') != FrameIn(segs, p)
      {
        assert HasOwnFrame(m, r, slots, bits, p);
      }
    }
    if SegmentsApart(m, r, segs, bits) {
      forall p: nat | IsPath(4, p) && Managed(slots, 4, p) ensures HasOwnFrame(m, r, slots, bits, p) {
      }
    }
  }

  /** Every page of the segments is on the list. */
  ghost predicate SegmentsListed(segs: seq<Segment>, list: seq<Range>) {
    forall p: nat | FrameIn(segs, p).Some? :: Covers(list, AddressOf(p))
  }

  /** Whatever slots the kernel manages, its own among them: with a list in order
      and nodes in slots of their own, it starts in a consistent state exactly if
      all tables are marked, the segments have frames of their own, and all of
      their pages are on the list. */
  lemma KernelStartsConsistentIff(m: Memory, b: Move, root: nat, count: nat, slots: set<nat>, segs: seq<Segment>,
        bits: seq<Word64>, v: VMap)
    requires Bootable(m, b, root, count, slots, segs) && |bits| < 0x1_0000
    requires RangeSlots.SlotSafe(v) && Ordered(v.list)
    ensures var m3, r := Handed(m, b, root, count, segs), b.To(root);
            Inv(State(m3, bits, v, false), r, slots) <==>
              TablesMarked(m3, r, bits) && SegmentsApart(m3, r, segs, bits) && SegmentsListed(segs, v.list)
  {
    hide RangeSlots.SlotSafe, Ordered, Good, Handed, TablesMarked, SegmentsApart, PagesApart, SegmentsListed, Inv,
      SegmentsOnly, Registered, Movable, NoEmptyTable, LowSlots, BootPagesFit;
    var m3, r := Handed(m, b, root, count, segs), b.To(root);
    var s := HandedIs(m, b, root, count, slots, segs);
    FirstStateIff(m3, s, bits, r, slots, v);
    SegmentsApartIff(m3, r, slots, segs, bits);
    ListedIff(m3, r, slots, segs, v.list);
  }

  lemma ListedIff(m: Memory, r: nat, slots: set<nat>, segs: seq<Segment>, list: seq<Range>)
    requires SegmentsOnly(m, r, slots, segs)
    ensures Registered(m, list, r, slots) <==> SegmentsListed(segs, list)
  {
    hide Walk, FrameIn, Managed, Covers, AddressOf;
  }

  /** With the bitmap that page_allocator_init builds, the tables are marked
      exactly if no loop over a region to be used, halving its first frame once
      more in each round, comes across the frame of a table. */
  lemma TablesMarkedIff(m: Memory, root: nat, ds: seq<BitmapInit.Descriptor>, used: nat)
    ensures TablesMarked(m, root, BitmapInit.Built(ds, used)) <==>
              forall d: nat, q: nat | d <= 3 && IsPath(d, q) && Walk(m, root, d, q).Table? ::
                Walk(m, root, d, q).frame >= BitmapInit.FRAMES
                || forall k: nat, i: nat | k < |ds| :: !BitmapInit.Frees(ds[k], used, i, Walk(m, root, d, q).frame)
  {
    hide BitmapInit.Built, BitmapInit.Frees, BitmapInit.Hit, Walk, IsPath;
    forall d: nat, q: nat | d <= 3 && IsPath(d, q) && Walk(m, root, d, q).Table?
      ensures FrameBitmap.IsFree(BitmapInit.Built(ds, used), Walk(m, root, d, q).frame) <==>
                !(Walk(m, root, d, q).frame >= BitmapInit.FRAMES
                || forall k: nat, i: nat | k < |ds| :: !BitmapInit.Frees(ds[k], used, i, Walk(m, root, d, q).frame))
    {
      BitmapInit.BuiltIs(ds, used);
      BitmapInit.HitIff(ds, used, Walk(m, root, d, q).frame);
    }
  }

  /** A usable region of two pages at twice its number is enough to free a
      table, here the PML4. */
  lemma RegionFreesRoot(m: Memory, root: nat, ds: seq<BitmapInit.Descriptor>, used: nat, k: nat)
    requires k < |ds| && BitmapInit.FreeKind(ds[k].kind) && ds[k].pages >= 2
    requires ds[k].First() / 2 == root < BitmapInit.FRAMES
    ensures !TablesMarked(m, root, BitmapInit.Built(ds, used))
  {
    hide BitmapInit.Built, BitmapInit.Hit;
    PrefixIs(0);
    assert Pow2(1) == 2 * Pow2(0) == 2;
    assert BitmapInit.Frees(ds[k], used, 1, root);
    BitmapInit.BuiltIs(ds, used);
    BitmapInit.HitIff(ds, used, root);
    assert Walk(m, root, 0, 0) == Table(root);
  }

  /** A table missing on the way to some segment. */
  lemma {:induction false} SomeMissing(m: Memory, root: nat, slots: set<nat>, segs: seq<Segment>) returns (d: nat, q: nat)
    requires SegmentsIn(slots, segs) && NeededBy(m, root, segs) > 0
    ensures 1 <= d <= 3 && IsPath(d, q) && q in MissingTables(m, root, segs, d) && Walk(m, root, d, q) == Absent
  {
    hide Walk, Pml4Index;
    d := if MissingTables(m, root, segs, 1) != {} then 1 else if MissingTables(m, root, segs, 2) != {} then 2 else 3;
    q :| q in MissingTables(m, root, segs, d);
    MissingIsAbsent(m, root, slots, segs, d, q);
  }

  lemma {:induction false} MissingIsAbsent(m: Memory, root: nat, slots: set<nat>, segs: seq<Segment>, d: nat, q: nat)
    requires SegmentsIn(slots, segs) && 1 <= d <= 3 && q in MissingTables(m, root, segs, d)
    ensures IsPath(d, q) && Walk(m, root, d, q) == Absent
    decreases |segs|
  {
    hide Walk, Pml4Index, Prefix;
    var g, before := segs[|segs| - 1], segs[..|segs| - 1];
    if q in MissingTables(m, root, before, d) {
      MissingIsAbsent(m, root, slots, before, d, q);
    } else {
      assert g in segs;
      PrefixIsPath(g.First() + g.pages - 1, d);
    }
  }

  /** used_mapping_page_count: in bytes, and in 64 bits, before the shift. */
  function UsedPages(m: Memory, b: Move, root: nat): nat { (NextAvailable(m, b, root) - b.dst) % 0x10_0000_0000_0000 }

  lemma UsedInRegion(m: Memory, b: Move, root: nat)
    requires Movable(m, b, root) && NoEmptyTable(m, root)
    ensures b.dst <= Mirror.Left(m, b, root).next && UsedPages(m, b, root) == Mirror.Left(m, b, root).next - b.dst
  {
    PrefixIs(0);
    assert Walk(m, root, 0, 0) == Table(root);
    ScanCoversTables(m, b, root);
    hide NextAvailable;
    SmallRest(NextAvailable(m, b, root) - b.dst);
  }

  lemma SmallRest(x: nat)
    requires x < 0x10_0000_0000_0000
    ensures x % 0x10_0000_0000_0000 == x
  {
  }

  /** used_mapping_page_count is taken before the segments are mapped. So even in
      a bitmap as it is meant to be, where exactly the pages past that count are
      free in the region of the tables, a table made for a segment is free. */
  lemma RightBitmapFreesTables(m: Memory, b: Move, root: nat, count: nat, slots: set<nat>, segs: seq<Segment>,
        ds: seq<BitmapInit.Descriptor>, bits: seq<Word64>, k: nat)
    requires Bootable(m, b, root, count, slots, segs) && NeededBy(Booted(m, b, root, count), b.To(root), segs) > 0
    requires k < |ds| && ds[k].kind == BitmapInit.PAGE_MAPS && ds[k].First() == b.dst && b.count <= ds[k].pages
    requires b.dst + b.count <= 64 * |bits| && BitmapInit.BitmapContract(ds, UsedPages(m, b, root), bits)
    ensures !TablesMarked(Handed(m, b, root, count, segs), b.To(root), bits)
  {
    hide Relocated, Mirrored, Movable, NoEmptyTable, LowSlots, Mirror.Left, Good, Walk, MissingTables, Page,
      UnusedSlots, MappedSegments, BootPages.MapSegments, NeededBy, SegmentsIn, BitmapInit.BitmapContract, TablesFrom, TablesMarked;
    var r, m2, s2 := b.To(root), Booted(m, b, root, count), Mirror.Left(m, b, root);
    TablesAreReady(m, b, root, count, slots);
    LeftIsBump(m, b, root);
    MapSegmentsIs(m2, s2, r, slots, segs);
    var (m3, s3) := BootPages.MapSegments(m2, s2, r, segs);
    SegmentsAtEnd(m2, s2, m3, s3, r, slots, segs);
    SegmentsFromSupply(m2, s2, r, slots, segs);
    var d, q := SomeMissing(m2, r, slots, segs);
    NewTableHeld(m2, s2, m3, r, segs, d, q);
    UsedInRegion(m, b, root);
    FreeByContract(m3, b, r, s2, ds, bits, k, d, q);
  }

  lemma NewTableHeld(m2: Memory, s2: Supply, m3: Memory, r: nat, segs: seq<Segment>, d: nat, q: nat)
    requires SegmentTables(m2, m3, r, segs) && TablesFrom(m2, m3, r, s2)
    requires 1 <= d <= 3 && IsPath(d, q) && q in MissingTables(m2, r, segs, d) && Walk(m2, r, d, q) == Absent
    ensures Walk(m3, r, d, q).Table? && Holds(s2, Walk(m3, r, d, q).frame)
  {
    hide Walk, MissingTables;
  }

  lemma FreeByContract(m3: Memory, b: Move, r: nat, s: Supply, ds: seq<BitmapInit.Descriptor>, bits: seq<Word64>, k: nat, d: nat,
        q: nat)
    requires s.Bump? && b.dst <= s.next && s.next + s.left == b.dst + b.count <= 64 * |bits|
    requires k < |ds| && ds[k].kind == BitmapInit.PAGE_MAPS && ds[k].First() == b.dst && b.count <= ds[k].pages
    requires BitmapInit.BitmapContract(ds, s.next - b.dst, bits)
    requires d <= 3 && IsPath(d, q) && Walk(m3, r, d, q).Table? && Holds(s, Walk(m3, r, d, q).frame)
    ensures !TablesMarked(m3, r, bits)
  {
    hide Walk, FrameBitmap.IsFree;
    var f := Walk(m3, r, d, q).frame;
    assert BitmapInit.Within(ds[k], s.next - b.dst, f);
    assert f / 64 < |bits|;
  }

  // ---------------------------------------------------------------------------
  // The first request
  // ---------------------------------------------------------------------------

  /** The lo-th and the hi-th page are the first two behind the image that no segment has. */
  ghost predicate SegmentGaps(segs: seq<Segment>, lo: nat, hi: nat) {
    var start, pages := KernelStart(segs), KernelPages(segs);
    && lo < hi && FrameIn(segs, Behind(start, pages, lo)).None? && FrameIn(segs, Behind(start, pages, hi)).None?
    && forall j: nat | j < hi && j != lo :: FrameIn(segs, Behind(start, pages, j)).Some?
  }

  /** All that page_allocator_init relies on, but for the frames it needs. */
  ghost predicate Handable(m: Memory, b: Move, root: nat, count: nat, slots: set<nat>, segs: seq<Segment>, bits: seq<Word64>,
        lo: nat, hi: nat)
  {
    && Bootable(m, b, root, count, slots, segs) && |bits| < 0x1_0000
    && TablesMarked(Handed(m, b, root, count, segs), b.To(root), bits)
    && SegmentsApart(Handed(m, b, root, count, segs), b.To(root), segs, bits)
    && Image(slots, MappingBase(count), KernelStart(segs), KernelPages(segs), hi) && SegmentGaps(segs, lo, hi)
  }

  lemma HandedFit(m: Memory, b: Move, root: nat, count: nat, slots: set<nat>, segs: seq<Segment>, bits: seq<Word64>,
        lo: nat, hi: nat)
    requires Handable(m, b, root, count, slots, segs, bits, lo, hi)
    ensures var m3, r := Handed(m, b, root, count, segs), b.To(root);
            && Good(m3, r, slots, true, Bitmap(bits)) && SegmentsOnly(m3, r, slots, segs)
            && Gaps(m3, r, KernelStart(segs), KernelPages(segs), lo, hi)
  {
    hide Good, TablesMarked, SegmentsApart, PagesApart, SegmentsOnly, Movable, NoEmptyTable, LowSlots, BootPagesFit, Image,
      SegmentGaps, Walk, FrameIn, Behind, Gaps, KernelStart, KernelPages, Handed;
    var m3, r := Handed(m, b, root, count, segs), b.To(root);
    var s := HandedIs(m, b, root, count, slots, segs);
    SegmentsApartIff(m3, r, slots, segs, bits);
    GoodWithPagesIff(m3, s, bits, r, slots);
    GapsMatch(m3, r, slots, segs, MappingBase(count), lo, hi);
  }

  lemma GapsMatch(m: Memory, r: nat, slots: set<nat>, segs: seq<Segment>, base: nat, lo: nat, hi: nat)
    requires SegmentsOnly(m, r, slots, segs) && SegmentGaps(segs, lo, hi)
    requires Image(slots, base, KernelStart(segs), KernelPages(segs), hi)
    ensures Gaps(m, r, KernelStart(segs), KernelPages(segs), lo, hi)
  {
    hide Walk, FrameIn, Behind, KernelStart, KernelPages, Managed, Image;
    var start, pages := KernelStart(segs), KernelPages(segs);
    forall j: nat | j <= hi
      ensures Walk(m, r, 4, Behind(start, pages, j)).Table? <==> FrameIn(segs, Behind(start, pages, j)).Some?
    {
      BehindIs(slots, base, start, pages, hi, j);
    }
  }

  /** From the firmware's tables to the first request. The end of
      page_allocator_init succeeds exactly if there are frames for two pages and
      their tables. It never leaves a consistent state: the first page_alloc, or
      any request that the list answers with the address at which it ends, panics
      as soon as there is a frame. */
  lemma FirstRequestAfterBootPanics(m: Memory, b: Move, root: nat, count: nat, slots: set<nat>, segs: seq<Segment>,
        bits: seq<Word64>, lo: nat, hi: nat, words: seq<Word64>, atNull: nat, garbage: nat, limit: nat, p: Policy)
    requires Handable(m, b, root, count, slots, segs, bits, lo, hi) && hi < limit && |words| >= 8
    ensures var m3, r, start, pages := Handed(m, b, root, count, segs), b.To(root), KernelStart(segs), KernelPages(segs);
            var k := Init(m3, bits, r, MappingBase(count), start, pages, words, atNull, garbage, limit);
            && (k.list.Some? <==> FramesFor(m3, r, Behind(start, pages, lo), Behind(start, pages, hi)) <= FrameBitmap.Rooms(bits))
            && (k.list.Some? ==>
                  && !Inv(FirstState(k), r, slots) && FirstState(k).Shaped()
                  && (AsksFor(p, start + (pages + EndIndex(lo)) * 0x1000) ==>
                        (PageAlloc(FirstState(k), r, p).0.panicked <==> FrameBitmap.CanTake(k.bits))))
  {
    hide Good, TablesMarked, SegmentsApart, SegmentsOnly, Bootable, SegmentGaps, Handed, Image, Gaps, Init, SetUp, PageAlloc,
      Behind, FramesFor, FrameBitmap.CanTake, FrameBitmap.Rooms, Inv, AsksFor, KernelStart, KernelPages, MappingBase, EndIndex;
    FitsSlots(m, b, root, count, slots, segs);
    HandedFit(m, b, root, count, slots, segs, bits, lo, hi);
    var m3, r, start, pages := Handed(m, b, root, count, segs), b.To(root), KernelStart(segs), KernelPages(segs);
    var k := Init(m3, bits, r, MappingBase(count), start, pages, words, atNull, garbage, limit);
    InitIs(m3, bits, r, slots, MappingBase(count), start, pages, lo, hi, words, atNull, garbage, limit);
    if k.list.Some? {
      FirstRequestPanics(m3, bits, r, slots, MappingBase(count), start, pages, lo, hi, k, p);
    }
  }

  lemma FitsSlots(m: Memory, b: Move, root: nat, count: nat, slots: set<nat>, segs: seq<Segment>)
    requires Bootable(m, b, root, count, slots, segs)
    ensures count <= 511
  {
  }

  /** A list up to the last page mapped would have made the state consistent, for
      an image that starts at a page, with all segments inside. */
  lemma LongerListIsConsistent(m: Memory, b: Move, root: nat, count: nat, slots: set<nat>, segs: seq<Segment>,
        bits: seq<Word64>, lo: nat, hi: nat, words: seq<Word64>, atNull: nat, garbage: nat, limit: nat)
    requires Handable(m, b, root, count, slots, segs, bits, lo, hi) && hi < limit && |words| >= 8
    requires KernelStart(segs) % 0x1000 == 0 && KernelStart(segs) + (KernelPages(segs) + hi + 1) * 0x1000 < WORD
    requires forall p: nat | FrameIn(segs, p).Some? ::
               MappingBase(count) <= AddressOf(p) < KernelStart(segs) + (KernelPages(segs) + hi + 1) * 0x1000
    requires Init(Handed(m, b, root, count, segs), bits, b.To(root), MappingBase(count), KernelStart(segs), KernelPages(segs),
                  words, atNull, garbage, limit).list.Some?
    ensures var m3, r, start, pages := Handed(m, b, root, count, segs), b.To(root), KernelStart(segs), KernelPages(segs);
            var k := Init(m3, bits, r, MappingBase(count), start, pages, words, atNull, garbage, limit);
            && |k.list.value.list| > 0 && MappingBase(count) <= start
            && Inv(FirstState(k).(v := Repaired(k.list.value, start + (pages + hi + 1) * 0x1000 - MappingBase(count))), r, slots)
  {
    hide Good, TablesMarked, SegmentsApart, Bootable, SegmentGaps, Handed, Gaps, Init, SetUp, Walk, FrameIn, Managed,
      Behind, FramesFor, FrameBitmap.Rooms, Inv, KernelStart, KernelPages, AddressOf, MappingBase;
    FitsSlots(m, b, root, count, slots, segs);
    HandedFit(m, b, root, count, slots, segs, bits, lo, hi);
    var m3, r, start, pages := Handed(m, b, root, count, segs), b.To(root), KernelStart(segs), KernelPages(segs);
    var k := Init(m3, bits, r, MappingBase(count), start, pages, words, atNull, garbage, limit);
    InitIs(m3, bits, r, slots, MappingBase(count), start, pages, lo, hi, words, atNull, garbage, limit);
    RepairedIsConsistent(m3, bits, r, slots, MappingBase(count), start, pages, lo, hi, k);
  }
}
