/**
 What the bootloader does to access rights: the firmware's pages keep theirs, in
 the copy of the tables and while the kernel is mapped; the kernel's pages may be
 written, and not used from user mode.
 */
module BootRights {
  import opened Options
  import opened Addresses
  import opened PageTables
  import opened Mapping
  import opened Paging
  import opened Rights
  import opened Relocation
  import opened Mirror
  import opened BootPages
  import TableCounts
  import opened BootMapper

  // ---------------------------------------------------------------------------
  // The copy of the tables
  // ---------------------------------------------------------------------------

  lemma SameBits(w: nat, w': nat)
    requires SameFlags(w, w')
    ensures Present(w') == Present(w) && HasBit(w', WRITABLE) == HasBit(w, WRITABLE) && HasBit(w', USER) == HasBit(w, USER)
    ensures HasBit(w', NO_EXECUTE) == HasBit(w, NO_EXECUTE)
  {
    LowBits(w);
    LowBits(w');
  }

  lemma LowBits(w: nat)
    ensures Present(w) == Present(w % 0x1000) && HasBit(w, WRITABLE) == HasBit(w % 0x1000, WRITABLE)
    ensures HasBit(w, USER) == HasBit(w % 0x1000, USER)
    ensures HasBit(w, NO_EXECUTE) == (w / 0x10_0000_0000_0000 / 0x800 % 2 == 1)
  {
    var x, l := w / 0x1000, w % 0x1000;
    assert w == 0x1000 * x + l;
    assert w / 2 == 0x800 * x + l / 2 && w / 4 == 0x400 * x + l / 4;
    EvenPart(0x800 * x, l);
    EvenPart(0x400 * x, l / 2);
    EvenPart(0x200 * x, l / 4);
  }

  /** The entry read from the new tables has the flags of the one in the old. */
  lemma EntryMoved(m: Memory, b: Move, root: nat, d: nat, q: nat)
    requires Movable(m, b, root) && 1 <= d && IsPath(d, q)
    ensures SameFlags(EntryAt(m, root, d, q), EntryAt(Relocated(m, b, root), b.To(root), d, q))
  {
    hide Relocated, SameFlags, Rebased;
    ParentIsPath(d, q);
    PrefixIs(0);
    WalkMoves(m, b, root, d - 1, q / 512);
    RelocatedEntries(m, b, root);
    FlagsOfItself(EntryAt(m, root, d, q));
    if d == 4 {
      LastTableStays(m, b, root, q / 512, q % 512);
    }
  }

  lemma LastTableStays(m: Memory, b: Move, root: nat, q: nat, j: nat)
    requires Movable(m, b, root) && IsPath(3, q) && j < 512
    ensures Walk(m, root, 3, q).Table? ==>
              Load(Relocated(m, b, root), Walk(m, root, 3, q).frame, j) == Load(m, Walk(m, root, 3, q).frame, j)
  {
    hide Relocated, Walk;
    RelocatedIs(m, b, root);
  }

  lemma {:induction false} RightsMoved(m: Memory, b: Move, root: nat, d: nat, q: nat)
    requires Movable(m, b, root) && IsPath(d, q)
    ensures var m', r := Relocated(m, b, root), b.To(root);
            && Permits(m', r, d, q, WRITABLE) == Permits(m, root, d, q, WRITABLE)
            && Permits(m', r, d, q, USER) == Permits(m, root, d, q, USER)
            && Marks(m', r, d, q, NO_EXECUTE) == Marks(m, root, d, q, NO_EXECUTE)
    decreases d
  {
    hide Relocated, Walk, EntryAt, Movable, HasBit, Present, Span, SameFlags;
    if d > 0 {
      ParentIsPath(d, q);
      RightsMoved(m, b, root, d - 1, q / 512);
      WalkMoves(m, b, root, d - 1, q / 512);
      EntryMoved(m, b, root, d, q);
      SameBits(EntryAt(m, root, d, q), EntryAt(Relocated(m, b, root), b.To(root), d, q));
    }
  }

  /** Every page has the same rights from the new root as from the old one. */
  lemma RelocationKeepsRights(m: Memory, b: Move, root: nat, p: nat)
    requires Movable(m, b, root) && p < PAGES
    ensures SameRights(m, root, Relocated(m, b, root), b.To(root), p)
  {
    hide Relocated, Permits, Marks, Movable;
    PrefixIsPath(p, 4);
    RightsMoved(m, b, root, 4, p);
  }

  // ---------------------------------------------------------------------------
  // The mirror
  // ---------------------------------------------------------------------------

  /** The entry read on a path is the one read on the path mirrored, but for the
      entries of the mirror in the PML4, which permit writing and no more. */
  lemma MirrorEntry(m: Memory, r: nat, count: nat, d: nat, q: nat)
    requires LowSlots(m, r, count) && RootAlone(m, r) && 1 <= d && IsPath(d, q)
    ensures var start := MirrorStart(count);
            var h := Home(d, q, start, count);
            EntryAt(Mirrored(m, r, start, count), r, d, q) ==
              if d == 1 && h != q then 0x1000 * FrameOf(EntryAt(m, r, d, h)) + 3 else EntryAt(m, r, d, h)
  {
    hide Mirrored, LowSlots, OnlyAt, RootAlone, FrameOf, Load, Home, Walk, EntryAt;
    LowSlotsFew(m, r, count);
    if d == 1 {
      RootMirrorEntry(m, r, count, q);
    } else {
      LaterMirrorEntry(m, r, count, d, q);
      HomeAgrees(d, q, MirrorStart(count), count);
    }
  }

  lemma HomeAgrees(d: nat, q: nat, start: nat, count: nat)
    requires d > 1
    ensures !(d == 1 && Home(d, q, start, count) != q)
  {
  }

  lemma RootMirrorEntry(m: Memory, r: nat, count: nat, q: nat)
    requires LowSlots(m, r, count) && RootAlone(m, r) && IsPath(1, q)
    ensures var start := MirrorStart(count);
            var h := Home(1, q, start, count);
            EntryAt(Mirrored(m, r, start, count), r, 1, q) ==
              if h != q then 0x1000 * FrameOf(EntryAt(m, r, 1, h)) + 3 else EntryAt(m, r, 1, h)
  {
    hide Mirrored, LowSlots, OnlyAt, RootAlone, FrameOf, Load;
    LowSlotsFew(m, r, count);
    PrefixIs(0);
    RootStep(m, r);
    RootStep(Mirrored(m, r, MirrorStart(count), count), r);
    MirroredWords(m, r, count, r, q);
  }

  lemma LaterMirrorEntry(m: Memory, r: nat, count: nat, d: nat, q: nat)
    requires LowSlots(m, r, count) && RootAlone(m, r) && 2 <= d && IsPath(d, q)
    ensures var start := MirrorStart(count);
            EntryAt(Mirrored(m, r, start, count), r, d, q) == EntryAt(m, r, d, Home(d, q, start, count))
  {
    hide Mirrored, LowSlots, OnlyAt, RootAlone, FrameOf, Load, Home, Walk, Span;
    LowSlotsFew(m, r, count);
    var start := MirrorStart(count);
    ParentIsPath(d, q);
    LongPath(d, q);
    HomeIsPath(d, q, start, count);
    HomeIsPath(d - 1, q / 512, start, count);
    MirrorWalk(m, r, count, d - 1, q / 512);
    NotTheRoot(m, r, d - 1, Home(d - 1, q / 512, start, count));
    var p := Walk(m, r, d - 1, Home(d - 1, q / 512, start, count));
    if p.Table? {
      MirroredWords(m, r, count, p.frame, q % 512);
    }
  }

  lemma LongPath(d: nat, q: nat)
    requires IsPath(d, q)
    ensures d <= 4
  {
  }

  lemma {:induction false} OutsideMirror(m: Memory, r: nat, count: nat, d: nat, q: nat)
    requires LowSlots(m, r, count) && RootAlone(m, r) && IsPath(d, q) && Home(d, q, MirrorStart(count), count) == q
    ensures var m' := Mirrored(m, r, MirrorStart(count), count);
            && Permits(m', r, d, q, WRITABLE) == Permits(m, r, d, q, WRITABLE)
            && Permits(m', r, d, q, USER) == Permits(m, r, d, q, USER)
            && Marks(m', r, d, q, NO_EXECUTE) == Marks(m, r, d, q, NO_EXECUTE)
    decreases d
  {
    hide Mirrored, LowSlots, RootAlone, Walk, EntryAt, HasBit, Present, Span;
    if d > 0 {
      LowSlotsFew(m, r, count);
      ParentIsPath(d, q);
      HomeIsPath(d, q, MirrorStart(count), count);
      OutsideMirror(m, r, count, d - 1, q / 512);
      MirrorWalk(m, r, count, d - 1, q / 512);
      MirrorEntry(m, r, count, d, q);
    }
  }

  /** In the mirror what may be written below may be written, and nothing may be
      used from user mode. */
  lemma {:induction false} InsideMirror(m: Memory, r: nat, count: nat, d: nat, q: nat)
    requires LowSlots(m, r, count) && RootAlone(m, r) && 1 <= d && IsPath(d, q) && Home(d, q, MirrorStart(count), count) != q
    ensures var m', h := Mirrored(m, r, MirrorStart(count), count), Home(d, q, MirrorStart(count), count);
            && (Permits(m, r, d, h, WRITABLE) ==> Permits(m', r, d, q, WRITABLE))
            && !Permits(m', r, d, q, USER)
    decreases d
  {
    hide Mirrored, LowSlots, RootAlone, EntryAt, HasBit, Present, Span, FrameOf;
    LowSlotsFew(m, r, count);
    ParentIsPath(d, q);
    HomeIsPath(d, q, MirrorStart(count), count);
    MirrorWalk(m, r, count, d - 1, q / 512);
    MirrorEntry(m, r, count, d, q);
    if d == 1 {
      var w := EntryAt(m, r, 1, Home(1, q, MirrorStart(count), count));
      SmallFrame(w);
      NewBits(FrameOf(w));
    } else {
      InsideMirror(m, r, count, d - 1, q / 512);
    }
  }

  // ---------------------------------------------------------------------------
  // The kernel's pages
  // ---------------------------------------------------------------------------

  /** What the bootloader puts on the way to pages under the slots v. */
  ghost predicate BootEntries(m: Memory, root: nat, v: set<nat>) {
    forall e: nat, r: nat | 1 <= e && IsPath(e, r) && Managed(v, e, r) && Present(EntryAt(m, root, e, r)) ::
      BootBits(EntryAt(m, root, e, r), e)
  }

  predicate BootBits(w: nat, e: nat) {
    HasBit(w, WRITABLE) && (HasBit(w, USER) <==> e != 1) && !HasBit(w, NO_EXECUTE)
  }

  lemma BootEntriesStay(m: Memory, m': Memory, root: nat, v: set<nat>, page: nat)
    requires BootEntries(m, root, v) && EntriesAfter(m, m', root, true, page)
    ensures BootEntries(m', root, v)
  {
    hide Walk, Span, EntryAt, Present, Prefix, HasBit, Managed, FrameOf;
    forall e: nat, r: nat | 1 <= e && IsPath(e, r) && Managed(v, e, r) && Present(EntryAt(m', root, e, r))
      ensures BootBits(EntryAt(m', root, e, r), e)
    {
      if EntryAt(m', root, e, r) != EntryAt(m, root, e, r) {
        ParentThere(m', root, e, r);
        SmallFrame(EntryAt(m', root, e, r));
        NewBits(Walk(m', root, e, r).frame);
      }
    }
  }

  /** With such entries, a page may be written, and not used from user mode. */
  lemma BootPageRights(m: Memory, root: nat, v: set<nat>, p: nat)
    requires BootEntries(m, root, v) && p < PAGES && Managed(v, 4, p) && Walk(m, root, 4, p).Table?
    ensures Permits(m, root, 4, p, WRITABLE) && !Permits(m, root, 4, p, USER) && !Marks(m, root, 4, p, NO_EXECUTE)
  {
    hide Walk, Span, EntryAt, Present, HasBit, Managed;
    PrefixIs(p);
    forall d | 1 <= d <= 4 ensures IsPath(d, Prefix(p, d)) && Managed(v, d, Prefix(p, d)) {
      PrefixIsPath(p, d);
      ManagedPrefix(v, p, d);
    }
    ParentThere(m, root, 4, p);
    ParentThere(m, root, 3, p / 512);
    ParentThere(m, root, 2, p / 512 / 512);
    ParentThere(m, root, 1, p / 512 / 512 / 512);
    FullPath(m, root, p, WRITABLE);
    FullPath(m, root, p, USER);
    FullPath(m, root, p, NO_EXECUTE);
    assert BootBits(EntryAt(m, root, 1, Prefix(p, 1)), 1);
  }

  /** Nothing that was mapped changes its frame or its rights. */
  ghost predicate RightsStay(m: Memory, m': Memory, root: nat) {
    forall p: nat | p < PAGES && Walk(m, root, 4, p) != Absent ::
      Walk(m', root, 4, p) == Walk(m, root, 4, p) && SameRights(m, root, m', root, p)
  }

  lemma RightsStayBoth(m: Memory, m1: Memory, m2: Memory, root: nat)
    requires RightsStay(m, m1, root) && RightsStay(m1, m2, root)
    ensures RightsStay(m, m2, root)
  {
    hide Walk, Permits, Marks;
  }

  lemma RightsStayNow(m: Memory, root: nat)
    ensures RightsStay(m, m, root)
  {
    hide Walk, Permits, Marks;
  }

  lemma OnePageStays(m: Memory, s: Supply, root: nat, v: set<nat>, va: nat, phys: nat)
    requires Good(m, root, v, false, s) && s.Bump? && Pml4Index(va) in v && Missing(m, root, Page(va), 0) <= s.left
    requires BootEntries(m, root, v)
    ensures var m' := MapPage(m, s, root, va, phys).mem; BootEntries(m', root, v) && RightsStay(m, m', root)
  {
    hide Good, Walk, Span, EntryAt, Managed, MapPage, BootEntries, EntriesAfter, GrowsAlong, SameRights, Missing, HasTables;
    var m' := MapPage(m, s, root, va, phys).mem;
    PageMapEntries(m, s, root, v, va, phys);
    PageMapWalks(m, s, root, v, va, phys);
    BootEntriesStay(m, m', root, v, Page(va));
    forall p: nat | p < PAGES && Walk(m, root, 4, p) != Absent
      ensures Walk(m', root, 4, p) == Walk(m, root, 4, p) && SameRights(m, root, m', root, p)
    {
      OldPageRights(m, m', root, true, Page(va), p);
      PrefixIsPath(p, 4);
      FourthPrefix(p);
      NothingLost(m, m', root, true, Page(va), 4, p);
    }
  }

  lemma {:induction false} PagesStay(m: Memory, s: Supply, root: nat, v: set<nat>, phys: nat, va: nat, n: nat)
    requires PagesFit(m, s, root, v, va, n) && BootEntries(m, root, v)
    ensures var m' := MapPages(m, s, root, phys, va, n).0; BootEntries(m', root, v) && RightsStay(m, m', root)
  {
    hide Good, MapPage, Walk, TableCounts.AbsentTables, TableCounts.Needed, Page, BootEntries, RightsStay, TableCounts.TablesThere,
      PagesThere, EntryAt;
    if n == 0 {
      RightsStayNow(m, root);
    } else {
      FewerPages(m, s, root, v, va, n);
      PagesStay(m, s, root, v, phys, va, n - 1);
      MapPagesIs(m, s, root, v, phys, va, n - 1);
      var (m1, s1) := MapPages(m, s, root, phys, va, n - 1);
      PageAfter(va, n - 1);
      TableCounts.MissingNext(m, m1, root, Page(va), n - 1);
      OnePageStays(m1, s1, root, v, va + (n - 1) * 0x1000, phys + (n - 1) * 0x1000);
      RightsStayBoth(m, m1, MapPages(m, s, root, phys, va, n).0, root);
    }
  }

  lemma {:induction false} SegmentsStay(m: Memory, s: Supply, root: nat, v: set<nat>, segs: seq<Segment>)
    requires SegmentsFit(m, s, root, v, segs) && BootEntries(m, root, v)
    ensures var m' := MapSegments(m, s, root, segs).0; BootEntries(m', root, v) && RightsStay(m, m', root)
  {
    hide Good, MapPages, Walk, TableCounts.AbsentTables, MissingTables, TableCounts.Needed, NeededBy, BootEntries, RightsStay,
      SegmentTables,
      SegmentsThere, Pml4Index, EntryAt;
    if segs == [] {
      RightsStayNow(m, root);
    } else {
      var g := segs[|segs| - 1];
      FewerSegments(m, s, root, v, segs);
      SegmentsStay(m, s, root, v, segs[..|segs| - 1]);
      MapSegmentsIs(m, s, root, v, segs[..|segs| - 1]);
      var (m1, s1) := MapSegments(m, s, root, segs[..|segs| - 1]);
      assert g in segs;
      NeededNext(m, m1, root, segs);
      PagesStay(m1, s1, root, v, g.phys, g.va, g.pages);
      RightsStayBoth(m, m1, MapSegments(m, s, root, segs).0, root);
    }
  }

  // ---------------------------------------------------------------------------
  // From the firmware's tables to the mapped kernel
  // ---------------------------------------------------------------------------

  lemma StartBootEntries(m: Memory, b: Move, root: nat, count: nat, v: set<nat>)
    requires Movable(m, b, root) && LowSlots(m, root, count) && count <= 511 && UnusedSlots(v, count)
    ensures BootEntries(Booted(m, b, root, count), b.To(root), v)
  {
    hide Relocated, Mirrored, Movable, LowSlots, Walk, UnusedSlots, EntryAt, Present, Managed;
    RelocatedSlots(m, b, root, count);
    forall e: nat, r: nat | 1 <= e && IsPath(e, r) && Managed(v, e, r)
      ensures !Present(EntryAt(Booted(m, b, root, count), b.To(root), e, r))
    {
      UnusedAbsent(Relocated(m, b, root), b.To(root), count, v, e, r);
      NotPresentBefore(Booted(m, b, root, count), b.To(root), e, r);
    }
  }

  /** Before the kernel is mapped: the firmware's page p, and page q where the
      mirror shows it. */
  lemma BootedRights(m: Memory, b: Move, root: nat, count: nat, p: nat)
    requires Movable(m, b, root) && LowSlots(m, root, count) && count <= 511 && p / 0x800_0000 < count && p < PAGES
    ensures var m2, r, q := Booted(m, b, root, count), b.To(root), MirrorStart(count) * 0x800_0000 + p;
            && Walk(m2, r, 4, p) == Walk(m2, r, 4, q) == Walk(m, root, 4, p) && q < PAGES
            && SameRights(m, root, m2, r, p)
            && (Permits(m, root, 4, p, WRITABLE) ==> Permits(m2, r, 4, q, WRITABLE)) && !Permits(m2, r, 4, q, USER)
  {
    hide Relocated, Mirrored, Movable, LowSlots, Walk, EntryAt, RootAlone, Translate;
    var m1, r, start := Relocated(m, b, root), b.To(root), MirrorStart(count);
    LowSlotsFew(m, root, count);
    RelocatedSlots(m, b, root, count);
    RelocatedRoot(m, b, root);
    RelocationKeepsRights(m, b, root, p);
    var q := start * 0x800_0000 + p;
    InRange(start, count, p);
    HomeOfPage(p, start, count);
    HomeOfPage(q, start, count);
    PrefixIsPath(p, 4);
    PrefixIsPath(q, 4);
    FourthPrefix(p);
    FourthPrefix(q);
    WalkMoves(m, b, root, 4, p);
    MirrorPage(m1, r, count, p);
    MirrorPage(m1, r, count, q);
    OutsideMirror(m1, r, count, 4, p);
    InsideMirror(m1, r, count, 4, q);
  }

  lemma InRange(start: nat, count: nat, p: nat)
    requires start + count == 511 && count <= 255 && p / 0x800_0000 < count
    ensures var q := start * 0x800_0000 + p;
            && q < PAGES && start * 0x800_0000 <= q < (start + count) * 0x800_0000
            && !(start * 0x800_0000 <= p < (start + count) * 0x800_0000)
  {
  }

  /** Each page that the firmware had mapped keeps its rights; in the mirror it
      may be written if it might be, and not used from user mode; the pages of
      the kernel may be written and executed, and not used from user mode. */
  lemma BootKeepsRights(m: Memory, b: Move, root: nat, count: nat, v: set<nat>, segs: seq<Segment>)
    requires Movable(m, b, root) && NoEmptyTable(m, root) && LowSlots(m, root, count)
    requires BootPagesFit(m, b, root, count, v, segs)
    ensures var r := b.To(root);
            var m' := BootPages.MapSegments(Booted(m, b, root, count), Left(m, b, root), r, segs).0;
            && (forall p: nat | p < PAGES && p / 0x800_0000 < count && Walk(m, root, 4, p) != Absent ::
                  && SameRights(m, root, m', r, p)
                  && (Permits(m, root, 4, p, WRITABLE) ==> Permits(m', r, 4, MirrorStart(count) * 0x800_0000 + p, WRITABLE))
                  && !Permits(m', r, 4, MirrorStart(count) * 0x800_0000 + p, USER))
            && (forall p: nat | FrameIn(segs, p).Some? ::
                  Permits(m', r, 4, p, WRITABLE) && !Permits(m', r, 4, p, USER) && !Marks(m', r, 4, p, NO_EXECUTE))
  {
    hide Relocated, Mirrored, Movable, NoEmptyTable, LowSlots, Left, Good, Walk, MissingTables, Page, SegmentsThere, Booted,
      UnusedSlots, MappedSegments, BootPages.MapSegments, NeededBy, SegmentsIn, BootEntries, RightsStay, Permits, Marks, FrameIn;
    var r, s2 := b.To(root), Left(m, b, root);
    StartFits(m, b, root, count, v, segs);
    var m2 := Booted(m, b, root, count);
    SegmentsStay(m2, s2, r, v, segs);
    var (m3, s3) := BootPages.MapSegments(m2, s2, r, segs);
    forall p: nat | p < PAGES && p / 0x800_0000 < count && Walk(m, root, 4, p) != Absent
      ensures SameRights(m, root, m3, r, p)
      ensures Permits(m, root, 4, p, WRITABLE) ==> Permits(m3, r, 4, MirrorStart(count) * 0x800_0000 + p, WRITABLE)
      ensures !Permits(m3, r, 4, MirrorStart(count) * 0x800_0000 + p, USER)
    {
      BootedRights(m, b, root, count, p);
      StayAt(m2, m3, r, p);
      StayAt(m2, m3, r, MirrorStart(count) * 0x800_0000 + p);
    }
    forall p: nat | FrameIn(segs, p).Some?
      ensures Permits(m3, r, 4, p, WRITABLE) && !Permits(m3, r, 4, p, USER) && !Marks(m3, r, 4, p, NO_EXECUTE)
    {
      SegmentPageThere(m, b, root, count, v, segs, p);
      BootPageRights(m3, r, v, p);
    }
  }

  lemma StartFits(m: Memory, b: Move, root: nat, count: nat, v: set<nat>, segs: seq<Segment>)
    requires Movable(m, b, root) && NoEmptyTable(m, root) && LowSlots(m, root, count)
    requires BootPagesFit(m, b, root, count, v, segs)
    ensures count <= 511 && SegmentsFit(Booted(m, b, root, count), Left(m, b, root), b.To(root), v, segs)
    ensures BootEntries(Booted(m, b, root, count), b.To(root), v)
  {
    hide Relocated, Mirrored, Movable, NoEmptyTable, LowSlots, Left, Good, NeededBy, SegmentsIn, UnusedSlots, BootEntries;
    LowSlotsFew(m, root, count);
    TablesAreReady(m, b, root, count, v);
    LeftIsBump(m, b, root);
    StartBootEntries(m, b, root, count, v);
  }

  lemma StayAt(m: Memory, m': Memory, root: nat, p: nat)
    requires RightsStay(m, m', root) && p < PAGES && Walk(m, root, 4, p) != Absent
    ensures SameRights(m, root, m', root, p)
  {
  }

  lemma SegmentPageThere(m: Memory, b: Move, root: nat, count: nat, v: set<nat>, segs: seq<Segment>, p: nat)
    requires Movable(m, b, root) && NoEmptyTable(m, root) && LowSlots(m, root, count)
    requires BootPagesFit(m, b, root, count, v, segs) && FrameIn(segs, p).Some?
    ensures var r := b.To(root);
            var m3 := BootPages.MapSegments(Booted(m, b, root, count), Left(m, b, root), r, segs).0;
            p < PAGES && Managed(v, 4, p) && Walk(m3, r, 4, p).Table?
  {
    hide Relocated, Mirrored, Movable, NoEmptyTable, LowSlots, Left, Walk, MissingTables, Page, Private, Reserved, Managed,
      UnusedSlots, MappedSegments, BootPages.MapSegments, NeededBy, SegmentsIn, BootEntries, FrameIn, Translate;
    var r, m2, s2 := b.To(root), Booted(m, b, root, count), Left(m, b, root);
    StartFits(m, b, root, count, v, segs);
    MapSegmentsIs(m2, s2, r, v, segs);
    var (m3, s3) := BootPages.MapSegments(m2, s2, r, segs);
    SegmentsAtEnd(m2, s2, m3, s3, r, v, segs);
    FrameInIff(segs, p);
    var g :| g in segs && g.Has(p);
    InSegmentIsAbsent(m, b, root, count, v, segs, g, p);
    NothingThere(m2, r, p);
    PrefixIsPath(p, 4);
    FourthPrefix(p);
    assert !Walk(m3, r, 4, p).Huge?;
    TranslatedIsTable(m3, r, p);
  }

  lemma TranslatedIsTable(m: Memory, r: nat, p: nat)
    requires Translate(m, r, p).Some? && !Walk(m, r, 4, p).Huge?
    ensures Walk(m, r, 4, p).Table?
  {
  }
}
