/**
 The bootloader's mapper as code: its static counters and the loops that move
 and extend the page tables in place. Frames are numbered as elsewhere.
 */
module BootMapper {
  import opened Options
  import opened Addresses
  import opened PageTables
  import opened Mapping
  import opened Paging
  import opened Relocation
  import opened Mirror
  import opened BootPages

  class BootMapper {
    var mem: Memory
    var pml4: nat   // pml4_pointer
    var next: nat   // next_available_mapping_page
    var left: nat   // available_mapping_page_count
    var base: nat   // mapping_base_address

    constructor (mem: Memory)
      ensures this.mem == mem
    {
      this.mem, pml4, next, left, base := mem, 0, 0, 0, 0;
    }

    ghost function Pages(): Supply
      reads this
    {
      Bump(next, left)
    }

    // -------------------------------------------------------------------------
    // init_virtual_mapping
    // -------------------------------------------------------------------------

    method CopyRegion(b: Move)
      modifies `mem
      ensures mem == Copied(old(mem), b, 512 * b.count)
    {
      var i := 0;
      while i < 512 * b.count
        invariant i <= 512 * b.count && mem == Copied(old(mem), b, i)
      {
        mem := Store(mem, b.dst + i / 512, i % 512, Load(mem, b.src + i / 512, i % 512));
        i := i + 1;
      }
    }

    /** The innermost loop only looks for the highest address. */
    method ScanPd(t: nat, highest: nat) returns (h: nat)
      ensures h == PdHighest(mem, t, 512, highest)
    {
      h := highest;
      var k := 0;
      while k < 512
        invariant k <= 512 && h == PdHighest(mem, t, k, highest)
      {
        if Present(Load(mem, t, k)) && EntryAddress(t, k) > h {
          h := EntryAddress(t, k);
        }
        k := k + 1;
      }
    }

    method RebasePdp(b: Move, t: nat, highest: nat) returns (h: nat)
      modifies `mem
      ensures mem == PdpRebased(old(mem), b, t, 512) && h == PdpHighest(old(mem), b, t, 512, highest)
    {
      h := highest;
      var j := 0;
      while j < 512
        invariant j <= 512 && mem == PdpRebased(old(mem), b, t, j) && h == PdpHighest(old(mem), b, t, j, highest)
      {
        var w := Load(mem, t, j);
        if Present(w) {
          if EntryAddress(t, j) > h {
            h := EntryAddress(t, j);
          }
          if !Large(w) {
            mem := Store(mem, t, j, Rebased(w, b));
            h := ScanPd(FrameOf(Rebased(w, b)), h);
          }
        }
        j := j + 1;
      }
    }

    method RebaseTree(b: Move, r: nat) returns (h: nat)
      modifies `mem
      ensures mem == TreeRebased(old(mem), b, r, 512) && h == TreeHighest(old(mem), b, r, 512)
    {
      h := 0;
      var i := 0;
      while i < 512
        invariant i <= 512 && mem == TreeRebased(old(mem), b, r, i) && h == TreeHighest(old(mem), b, r, i)
      {
        var w := Load(mem, r, i);
        if Present(w) {
          if EntryAddress(r, i) > h {
            h := EntryAddress(r, i);
          }
          mem := Store(mem, r, i, Rebased(w, b));
          h := RebasePdp(b, FrameOf(Rebased(w, b)), h);
        }
        i := i + 1;
      }
    }

    /** From the copy up to the load of CR3. */
    method Relocate(b: Move, root: nat)
      modifies this
      ensures mem == Relocated(old(mem), b, root) && pml4 == b.To(root) && base == b.dst
      ensures Pages() == Left(old(mem), b, root)
    {
      base := b.dst;
      CopyRegion(b);
      var highest := RebaseTree(b, b.To(root));
      AfterHighest(highest);
      next := (0x1000 + highest - highest % 0x1000) / 0x1000;
      left := (b.dst + b.count - next) % 0x10_0000_0000_0000;
      pml4 := b.To(root);
    }

    /** The branch for MAPPING_TYPE_MAP_ALL; the slot computed for a full PML4
        lies outside the table. */
    method MirrorMemory() returns (mappingBase: nat)
      requires CountPresent(mem, pml4, 512) <= 511
      modifies `mem
      ensures var count := CountPresent(old(mem), pml4, 512);
              mem == Mirrored(old(mem), pml4, MirrorStart(count), count) && mappingBase == MappingBase(count)
    {
      var count, i := 0, 0;
      while i < 512
        invariant i <= 512 && count == CountPresent(mem, pml4, i)
      {
        if Present(Load(mem, pml4, i)) {
          count := count + 1;
        }
        i := i + 1;
      }
      var start := 511 - count;
      i := 0;
      while i < count
        invariant i <= count && mem == Mirrored(old(mem), pml4, start, i)
      {
        mem := Store(mem, pml4, i + start, Entry(3, FrameOf(Load(mem, pml4, i))));
        i := i + 1;
      }
      mappingBase := OffsetsToAddr(start, 0, 0, 0);
    }

    // -------------------------------------------------------------------------
    // map_page and map_pages
    // -------------------------------------------------------------------------

    method GetNextAvailablePage() returns (page: nat)
      modifies `next, `left
      ensures Some((page, Pages())) == Draw(old(Pages()))
    {
      page := next;
      next := next + 1;
      left := if left == 0 then UINT64_MAX else left - 1;
    }

    /** The block repeated for the first three levels; d is the depth of the
        table that the entry leads to. */
    method EnterOrInstall(t: nat, index: nat, d: nat) returns (table: nat)
      requires next < 0x100_0000_0000
      modifies `mem, `next, `left
      ensures var w := Load(old(mem), t, index);
              if Present(w) then table == FrameOf(w) && mem == old(mem) && Pages() == old(Pages())
              else table == old(next) && mem == Installed(old(mem), old(Pages()), t, index, d, table)
                   && Some((table, Pages())) == Draw(old(Pages()))
      ensures old(next) <= next <= old(next) + 1
    {
      if !Present(Load(mem, t, index)) {
        var page := GetNextAvailablePage();
        var i := 0;
        while i < 512
          invariant i <= 512 && mem == Cleared(old(mem), page, i)
          invariant Some((page, Pages())) == Draw(old(Pages())) && page == old(next) && next == old(next) + 1
        {
          mem := Store(mem, page, i, 0);
          i := i + 1;
        }
        var flags := if d == 1 then 3 else 7;
        mem := Store(mem, t, index, Entry(flags, page));
        EntryIs(flags, page, 1);
      }
      table := FrameOf(Load(mem, t, index));
    }

    /** map_page: 1 for EFI_INVALID_PARAMETER. */
    method MapPage(phys: nat, va: nat) returns (result: int)
      requires next + 3 <= 0x100_0000_0000
      modifies `mem, `next, `left
      ensures Mapped(mem, Pages(), result) == Paging.MapPage(old(mem), old(Pages()), pml4, va, phys)
      ensures old(next) <= next <= old(next) + 3
    {
      hide Installed, Draw, Load, Present, FrameOf;
      PageDigits(va);
      PrefixIs(Page(va));
      ghost var page, frame := Page(va), FrameOf(phys);
      assert Pml4Index(va) == Prefix(page, 1) % 512;
      ghost var m0, s0 := mem, Pages();
      var pdp := EnterOrInstall(pml4, Pml4Index(va), 1);
      assert MapFrom(m0, s0, pml4, 0, page, frame) == MapFrom(mem, Pages(), pdp, 1, page, frame);
      var pd := EnterOrInstall(pdp, PdpIndex(va), 2);
      assert MapFrom(m0, s0, pml4, 0, page, frame) == MapFrom(mem, Pages(), pd, 2, page, frame);
      var pt := EnterOrInstall(pd, PdIndex(va), 3);
      assert MapFrom(m0, s0, pml4, 0, page, frame) == MapFrom(mem, Pages(), pt, 3, page, frame);
      if !Present(Load(mem, pt, PtIndex(va))) {
        mem := Store(mem, pt, PtIndex(va), Entry(7, FrameOf(phys)));
      } else {
        return 1;
      }
      return 0;
    }

    method MapPages(phys: nat, va: nat, count: nat)
      requires next + 3 * count <= 0x100_0000_0000
      modifies `mem, `next, `left
      ensures (mem, Pages()) == BootPages.MapPages(old(mem), old(Pages()), pml4, phys, va, count)
      ensures next <= old(next) + 3 * count
    {
      hide Paging.MapPage;
      var i := 0;
      while i < count
        invariant i <= count && next <= old(next) + 3 * i && pml4 == old(pml4)
        invariant (mem, Pages()) == BootPages.MapPages(old(mem), old(Pages()), pml4, phys, va, i)
      {
        var _ := MapPage(phys + i * 0x1000, va + i * 0x1000);
        i := i + 1;
      }
    }

    /** The loop over the segments of the kernel. */
    method MapSegments(segs: seq<Segment>) returns (start: nat, pages: nat)
      requires next + 3 * TotalPages(segs) <= 0x100_0000_0000
      modifies `mem, `next, `left
      ensures (mem, Pages()) == BootPages.MapSegments(old(mem), old(Pages()), pml4, segs)
      ensures next <= old(next) + 3 * TotalPages(segs)
      ensures start == KernelStart(segs) && pages == KernelPages(segs)
    {
      hide BootPages.MapPages;
      start, pages := 0, 0;
      var i := 0;
      assert segs[..0] == [];
      while i < |segs|
        invariant i <= |segs| && pml4 == old(pml4) && next <= old(next) + 3 * TotalPages(segs[..i])
        invariant (mem, Pages()) == BootPages.MapSegments(old(mem), old(Pages()), pml4, segs[..i])
        invariant start == KernelStart(segs[..i]) && pages == KernelPages(segs[..i])
      {
        assert segs[..i + 1][..i] == segs[..i];
        PagesGrow(segs, i + 1);
        MapPages(segs[i].phys, segs[i].va, segs[i].pages);
        if start == 0 {
          start := segs[i].va;
        }
        if pages == 0 {
          pages := segs[i].pages;
        }
        i := i + 1;
      }
      assert segs[..i] == segs;
    }
  }

  function TotalPages(segs: seq<Segment>): nat {
    if segs == [] then 0 else TotalPages(segs[..|segs| - 1]) + segs[|segs| - 1].pages
  }

  lemma {:induction false} PagesGrow(segs: seq<Segment>, i: nat)
    requires i <= |segs|
    ensures TotalPages(segs[..i]) <= TotalPages(segs)
    decreases |segs|
  {
    if i < |segs| {
      PagesGrow(segs[..|segs| - 1], i);
      assert segs[..|segs| - 1][..i] == segs[..i];
    } else {
      assert segs[..i] == segs;
    }
  }

  lemma AfterHighest(h: nat)
    ensures (0x1000 + h - h % 0x1000) / 0x1000 == h / 0x1000 + 1
  {
  }

  // ---------------------------------------------------------------------------
  // All of it together
  // ---------------------------------------------------------------------------

  /** Memory after init_virtual_mapping. */
  function Booted(m: Memory, b: Move, root: nat, count: nat): Memory
    requires count <= 511
  {
    Mirrored(Relocated(m, b, root), b.To(root), MirrorStart(count), count)
  }

  /** Segments under unused slots, and enough of the region left for their tables. */
  ghost predicate BootPagesFit(m: Memory, b: Move, root: nat, count: nat, v: set<nat>, segs: seq<Segment>)
    requires count <= 511
  {
    && UnusedSlots(v, count) && SegmentsIn(v, segs)
    && NeededBy(Booted(m, b, root, count), b.To(root), segs) <= Left(m, b, root).left
  }

  lemma SlotOfPage(v: set<nat>, va: nat, n: nat, p: nat)
    requires Page(va) + n <= PAGES && Page(va) <= p < Page(va) + n
    requires forall i: nat | i < n :: Pml4Index(va + i * 0x1000) in v
    ensures p / 0x800_0000 in v
  {
    var i := p - Page(va);
    PageAfter(va, i);
    PageDigits(va + i * 0x1000);
    assert Pml4Index(va + i * 0x1000) in v;
    assert p / 512 / 512 / 512 == p / 0x800_0000;
  }

  /** From the firmware's tables to the mapped kernel: each page of each segment
      comes to be mapped to its frame, unless a segment before has it; every
      address of the firmware's mapping translates as it did before anything was
      moved, both at itself and in the mirror, and the pages used and left add up
      to the region. */
  lemma BootKeepsEveryMapping(m: Memory, b: Move, root: nat, count: nat, v: set<nat>, segs: seq<Segment>)
    requires Movable(m, b, root) && NoEmptyTable(m, root) && LowSlots(m, root, count)
    requires BootPagesFit(m, b, root, count, v, segs)
    ensures var r := b.To(root);
            var (m', s') := BootPages.MapSegments(Booted(m, b, root, count), Left(m, b, root), r, segs);
            && (forall p: nat | p < count * 0x80_0000_0000 ::
                  Translate(m', r, Page(MappingBase(count) + p)) == Translate(m', r, Page(p)) == Translate(m, root, Page(p)))
            && (forall j: nat, p: nat | j < |segs| && segs[j].Has(p) && (forall i: nat | i < j :: !segs[i].Has(p)) ::
                  Translate(m', r, p) == Some(FrameOf(segs[j].phys + (p - segs[j].First()) * 0x1000)))
            && s'.Bump? && (s'.next - b.dst) + s'.left == b.count
            && s'.left == Left(m, b, root).left - NeededBy(Booted(m, b, root, count), r, segs)
  {
    hide Relocated, Mirrored, Movable, NoEmptyTable, LowSlots, Left, Translate, Good, Walk, MissingTables, Page,
      UnusedSlots, MappingBase, MappedSegments, BootPages.MapSegments, NeededBy, SegmentsIn;
    var r, m2, s2 := b.To(root), Booted(m, b, root, count), Left(m, b, root);
    TablesAreReady(m, b, root, count, v);
    LeftIsBump(m, b, root);
    MapSegmentsIs(m2, s2, r, v, segs);
    var (m3, s3) := BootPages.MapSegments(m2, s2, r, segs);
    SegmentsAtEnd(m2, s2, m3, s3, r, v, segs);
    forall p: nat | p < count * 0x80_0000_0000
      ensures Translate(m3, r, Page(MappingBase(count) + p)) == Translate(m3, r, Page(p)) == Translate(m, root, Page(p))
    {
      MirrorStays(m, m3, b, root, count, v, segs, p);
    }
    forall j: nat, p: nat | j < |segs| && segs[j].Has(p) && (forall i: nat | i < j :: !segs[i].Has(p))
      ensures Translate(m3, r, p) == Some(FrameOf(segs[j].phys + (p - segs[j].First()) * 0x1000))
    {
      SegmentPageMapped(m, m3, b, root, count, v, segs, p, j);
    }
  }

  lemma LeftIsBump(m: Memory, b: Move, root: nat)
    ensures Left(m, b, root).Bump?
  {
  }

  lemma SegmentsAtEnd(m2: Memory, s2: Supply, m3: Memory, s3: Supply, r: nat, v: set<nat>, segs: seq<Segment>)
    requires s2.Bump? && MappedSegments(m2, s2, m3, s3, r, v, segs)
    ensures s3.Bump? && s3.next + s3.left == s2.next + s2.left && s3.left == s2.left - NeededBy(m2, r, segs)
    ensures SegmentsThere(m2, m3, r, segs) && SegmentTables(m2, m3, r, segs) && Good(m3, r, v, false, s3)
  {
  }

  /** A page under a slot that is not v's is in no segment. */
  lemma MirrorStays(m: Memory, m3: Memory, b: Move, root: nat, count: nat, v: set<nat>, segs: seq<Segment>, p: nat)
    requires Movable(m, b, root) && LowSlots(m, root, count)
    requires count <= 511 && UnusedSlots(v, count) && SegmentsIn(v, segs)
    requires SegmentsThere(Booted(m, b, root, count), m3, b.To(root), segs)
    requires p < count * 0x80_0000_0000
    ensures var r := b.To(root);
            Translate(m3, r, Page(MappingBase(count) + p)) == Translate(m3, r, Page(p)) == Translate(m, root, Page(p))
  {
    hide Relocated, Mirrored, Movable, LowSlots, Translate, Walk, Page, MappingBase, UnusedSlots, SegmentsIn, FrameIn;
    var r, m2 := b.To(root), Booted(m, b, root, count);
    LowSlotsFew(m, root, count);
    RelocatedSlots(m, b, root, count);
    RelocatedRoot(m, b, root);
    MirrorTranslates(Relocated(m, b, root), r, count);
    MirrorAddress(count, p);
    var q, q' := Page(p), Page(MappingBase(count) + p);
    SlotsOfAddress(count, p);
    NotNew(v, segs, count, q);
    NotNew(v, segs, count, q');
    assert q < PAGES && q' < PAGES;
    assert Translate(m3, r, q) == Translate(m2, r, q) && Translate(m3, r, q') == Translate(m2, r, q');
    RelocationPreservesTranslation(m, b, root, q);
  }

  lemma NotNew(v: set<nat>, segs: seq<Segment>, count: nat, q: nat)
    requires count <= 511 && UnusedSlots(v, count) && SegmentsIn(v, segs)
    requires q / 0x800_0000 < count || MirrorStart(count) <= q / 0x800_0000 < 511
    ensures FrameIn(segs, q) == None
  {
    FrameInIff(segs, q);
    forall g | g in segs ensures !g.Has(q) {
      if g.Has(q) {
        SlotOfPage(v, g.va, g.pages, q);
      }
    }
  }

  lemma SlotsOfAddress(count: nat, p: nat)
    requires count <= 255 && p < count * 0x80_0000_0000
    ensures var q := p / 0x1000;
            && q / 0x800_0000 < count && q < PAGES
            && MirrorStart(count) <= (MirrorStart(count) * 0x800_0000 + q) / 0x800_0000 < 511
            && MirrorStart(count) * 0x800_0000 + q < PAGES
  {
  }

  lemma SegmentPageMapped(m: Memory, m3: Memory, b: Move, root: nat, count: nat, v: set<nat>, segs: seq<Segment>, p: nat,
        j: nat)
    requires Movable(m, b, root) && LowSlots(m, root, count)
    requires count <= 511 && UnusedSlots(v, count) && SegmentsIn(v, segs)
    requires SegmentsThere(Booted(m, b, root, count), m3, b.To(root), segs)
    requires j < |segs| && segs[j].Has(p) && forall i: nat | i < j :: !segs[i].Has(p)
    ensures Translate(m3, b.To(root), p) == Some(FrameOf(segs[j].phys + (p - segs[j].First()) * 0x1000))
  {
    hide Relocated, Mirrored, Movable, LowSlots, Translate, Walk, UnusedSlots, SegmentsIn, FrameIn;
    InSegmentIsAbsent(m, b, root, count, v, segs, segs[j], p);
    NothingThere(Booted(m, b, root, count), b.To(root), p);
    FirstFrame(segs, p, j);
  }

  /** Before the segments are mapped there is nothing at their pages. */
  lemma InSegmentIsAbsent(m: Memory, b: Move, root: nat, count: nat, v: set<nat>, segs: seq<Segment>, g: Segment, p: nat)
    requires Movable(m, b, root) && LowSlots(m, root, count)
    requires count <= 511 && UnusedSlots(v, count) && SegmentsIn(v, segs) && g in segs && g.Has(p)
    ensures p < PAGES && Managed(v, 4, p) && Walk(Booted(m, b, root, count), b.To(root), 4, p) == Absent
  {
    hide Relocated, Mirrored, Movable, LowSlots, Walk, UnusedSlots;
    var i := p - g.First();
    RelocatedSlots(m, b, root, count);
    PageAfter(g.va, i);
    ManagedPage(v, g.va + i * 0x1000);
    PrefixIsPath(p, 4);
    assert Prefix(p, 4) == p;
    UnusedAbsent(Relocated(m, b, root), b.To(root), count, v, 4, p);
  }

  lemma NothingThere(m: Memory, r: nat, p: nat)
    requires Walk(m, r, 4, p) == Absent
    ensures Translate(m, r, p) == None
  {
  }

  /** With the offset that the mirror gives, page_unmap of the kernel refuses no address at all. */
  lemma MirrorOffsetRefusesNothing(count: nat, va: nat)
    requires count <= 255
    ensures !Refused(MappingBase(count), va)
  {
    MirrorAddressHigh(count);
  }

  lemma MirrorAddressHigh(count: nat)
    requires count <= 255
    ensures 0x0000_FF80_0000_0000 < MappingBase(count)
  {
    assert MirrorStart(count) / 0x100 % 2 == 1;
  }
}
