/**
 The mirror of physical memory that the bootloader puts into the upper PML4
 slots by sharing the PDPs of the lower ones, and the state in which it leaves
 the tables for map_page.
 */
module Mirror {
  import opened Addresses
  import opened PageTables
  import opened Mapping
  import opened Relocation

  // ---------------------------------------------------------------------------
  // The loops
  // ---------------------------------------------------------------------------

  function CountPresent(m: Memory, r: nat, n: nat): (c: nat)
    ensures c <= n
  {
    if n == 0 then 0 else CountPresent(m, r, n - 1) + if Present(Load(m, r, n - 1)) then 1 else 0
  }

  function MirrorStart(count: nat): nat
    requires count <= 511
  {
    511 - count
  }

  /** The loop over the first n slots. */
  function Mirrored(m: Memory, r: nat, start: nat, n: nat): Memory {
    if n == 0 then m
    else
      var p := Mirrored(m, r, start, n - 1);
      Store(p, r, start + n - 1, Entry(3, FrameOf(Load(p, r, n - 1))))
  }

  function MappingBase(count: nat): nat
    requires count <= 511
  {
    OffsetsToAddr(MirrorStart(count), 0, 0, 0)
  }

  // ---------------------------------------------------------------------------
  // What they do
  // ---------------------------------------------------------------------------

  /** Exactly the first count slots are in use. */
  ghost predicate LowSlots(m: Memory, r: nat, count: nat) {
    count <= 255 && forall i: nat | i < 512 :: Present(Load(m, r, i)) <==> i < count
  }

  lemma {:induction false} CountIs(m: Memory, r: nat, count: nat, n: nat)
    requires LowSlots(m, r, count) && n <= 512
    ensures CountPresent(m, r, n) == if n < count then n else count
  {
    if n > 0 {
      CountIs(m, r, count, n - 1);
    }
  }

  /** Word j of frame f after n slots. */
  function MirroredWord(m: Memory, r: nat, start: nat, n: nat, f: nat, j: nat): nat {
    if f == r && start <= j < start + n then Entry(3, FrameOf(Load(m, r, j - start))) else Load(m, f, j)
  }

  lemma {:induction false} MirroredIs(m: Memory, r: nat, start: nat, n: nat, f: nat, j: nat)
    requires n <= start && start + n <= 512
    ensures Load(Mirrored(m, r, start, n), f, j) == MirroredWord(m, r, start, n, f, j)
  {
    if n > 0 {
      MirroredIs(m, r, start, n - 1, f, j);
      MirroredIs(m, r, start, n - 1, r, n - 1);
    }
  }

  /** The path that path (d, q) is a mirror of, or the path itself. */
  function Home(d: nat, q: nat, start: nat, count: nat): nat {
    if d == 0 then q
    else if d == 1 then if start <= q < start + count then q - start else q
    else 512 * Home(d - 1, q / 512, start, count) + q % 512
  }

  lemma {:induction false} HomeIsPath(d: nat, q: nat, start: nat, count: nat)
    requires IsPath(d, q)
    ensures IsPath(d, Home(d, q, start, count))
    ensures d > 1 ==> Home(d, q, start, count) / 512 == Home(d - 1, q / 512, start, count) && Home(d, q, start, count) % 512 == q % 512
    decreases d
  {
    if d > 1 {
      ParentIsPath(d, q);
      HomeIsPath(d - 1, q / 512, start, count);
    } else {
      PrefixIs(0);
    }
  }

  /** The root is not one of its own tables. */
  ghost predicate RootAlone(m: Memory, r: nat) { OnlyAt(m, r, r, 0, 0) }

  /** Every walk in the mirror is the walk it mirrors; every other walk is as before. */
  lemma {:induction false} MirrorWalk(m: Memory, r: nat, count: nat, d: nat, q: nat)
    requires LowSlots(m, r, count) && RootAlone(m, r) && IsPath(d, q)
    ensures Walk(Mirrored(m, r, MirrorStart(count), count), r, d, q) == Walk(m, r, d, Home(d, q, MirrorStart(count), count))
    decreases d
  {
    hide Mirrored, LowSlots, OnlyAt, RootAlone, Entry, FrameOf, Load, Present, Large;
    LowSlotsFew(m, r, count);
    var start := MirrorStart(count);
    if d == 1 {
      FirstSlot(m, r, count, q);
    } else if d > 1 {
      var p := Walk(m, r, d - 1, Home(d - 1, q / 512, start, count));
      if p.Table? {
        MirroredWords(m, r, count, p.frame, q % 512);
      }
      ParentIsPath(d, q);
      MirrorWalk(m, r, count, d - 1, q / 512);
      HomeIsPath(d, q, start, count);
      HomeIsPath(d - 1, q / 512, start, count);
      NotTheRoot(m, r, d - 1, Home(d - 1, q / 512, start, count));
    }
  }

  lemma MirroredWords(m: Memory, r: nat, count: nat, f: nat, j: nat)
    requires LowSlots(m, r, count)
    ensures Load(Mirrored(m, r, MirrorStart(count), count), f, j) ==
              if f == r && MirrorStart(count) <= j < 511 then Entry(3, FrameOf(Load(m, r, j - MirrorStart(count)))) else Load(m, f, j)
  {
    MirroredIs(m, r, MirrorStart(count), count, f, j);
  }

  lemma NotTheRoot(m: Memory, r: nat, d: nat, q: nat)
    requires RootAlone(m, r) && 1 <= d <= 3 && IsPath(d, q)
    ensures Walk(m, r, d, q) != Table(r)
  {
  }

  lemma FirstSlot(m: Memory, r: nat, count: nat, q: nat)
    requires LowSlots(m, r, count) && IsPath(1, q)
    ensures Walk(Mirrored(m, r, MirrorStart(count), count), r, 1, q) == Walk(m, r, 1, Home(1, q, MirrorStart(count), count))
  {
    var start := MirrorStart(count);
    PrefixIs(0);
    MirroredWords(m, r, count, r, q);
    var m' := Mirrored(m, r, start, count);
    FirstLevel(m', r, q);
    FirstLevel(m, r, Home(1, q, start, count));
    if start <= q < 511 {
      assert Load(m', r, q) == Entry(3, FrameOf(Load(m, r, q - start)));
      assert Present(Load(m, r, q - start));
      FrameFits(Load(m, r, q - start));
      EntryIs(3, FrameOf(Load(m, r, q - start)), 1);
    } else {
      assert Load(m', r, q) == Load(m, r, q);
      assert Home(1, q, start, count) == q;
    }
  }

  lemma FrameFits(w: nat)
    ensures FrameOf(w) < 0x100_0000_0000
  {
  }

  /** Page numbers: the mirror of page p lies start slots above it. */
  lemma HomeOfPage(page: nat, start: nat, count: nat)
    requires page < PAGES && start + count <= 512
    ensures Home(4, page, start, count) ==
              if start * 0x800_0000 <= page < (start + count) * 0x800_0000 then page - start * 0x800_0000 else page
  {
    var a, b, c := page / 512, page / 512 / 512, page / 512 / 512 / 512;
    assert page == 512 * a + page % 512 && a == 512 * b + a % 512 && b == 512 * c + b % 512;
    assert Home(3, a, start, count) == 512 * Home(2, b, start, count) + a % 512;
    assert Home(2, b, start, count) == 512 * Home(1, c, start, count) + b % 512;
  }

  lemma MirrorAddress(count: nat, p: nat)
    requires count <= 255 && p < count * 0x80_0000_0000
    ensures Page(MappingBase(count) + p) == MirrorStart(count) * 0x800_0000 + p / 0x1000
    ensures Page(p) == p / 0x1000 && Canonical(MappingBase(count)) && 0xFFFF_8000_0000_0000 <= MappingBase(count)
  {
    var start := MirrorStart(count);
    var k := 0xFFFF * PAGES;
    IndicesOfAddress(start, 0, 0, 0);
    assert start / 0x100 % 2 == 1;
    assert MappingBase(count) == 0x1000 * (k + start * 0x800_0000);
    assert (MappingBase(count) + p) / 0x1000 == k + (start * 0x800_0000 + p / 0x1000);
    PageField(start * 0x800_0000 + p / 0x1000);
  }

  /** The physical mirror: the address mapping_base + p translates as p does, p
      translates as before, and so do all addresses outside the mirror. */
  lemma MirrorTranslates(m: Memory, r: nat, count: nat)
    requires LowSlots(m, r, count) && RootAlone(m, r)
    ensures CountPresent(m, r, 512) == count && Canonical(MappingBase(count))
    ensures var m' := Mirrored(m, r, MirrorStart(count), count);
            && (forall p: nat | p < count * 0x80_0000_0000 ::
                  Translate(m', r, Page(MappingBase(count) + p)) == Translate(m', r, Page(p)) == Translate(m, r, Page(p)))
            && (forall q: nat | q < PAGES && !(MirrorStart(count) <= q / 0x800_0000 < 511) ::
                  Translate(m', r, q) == Translate(m, r, q))
  {
    var m', start := Mirrored(m, r, MirrorStart(count), count), MirrorStart(count);
    hide Mirrored, LowSlots, RootAlone, Walk;
    LowSlotsFew(m, r, count);
    CountIs(m, r, count, 512);
    MirrorAddressCanonical(count);
    forall q: nat | q < PAGES && !(start <= q / 0x800_0000 < 511) ensures Translate(m', r, q) == Translate(m, r, q) {
      MirrorPage(m, r, count, q);
    }
    forall p: nat | p < count * 0x80_0000_0000
      ensures Translate(m', r, Page(MappingBase(count) + p)) == Translate(m', r, Page(p)) == Translate(m, r, Page(p))
    {
      MirrorAddress(count, p);
      MirrorPage(m, r, count, start * 0x800_0000 + p / 0x1000);
      MirrorPage(m, r, count, p / 0x1000);
    }
  }

  lemma LowSlotsFew(m: Memory, r: nat, count: nat)
    requires LowSlots(m, r, count)
    ensures count <= 255
  {
  }

  lemma MirrorAddressCanonical(count: nat)
    requires count <= 255
    ensures Canonical(MappingBase(count))
  {
    IndicesOfAddress(MirrorStart(count), 0, 0, 0);
  }

  lemma MirrorPage(m: Memory, r: nat, count: nat, q: nat)
    requires LowSlots(m, r, count) && RootAlone(m, r) && q < PAGES
    ensures var start := MirrorStart(count);
            var m' := Mirrored(m, r, start, count);
            var h := if start * 0x800_0000 <= q < (start + count) * 0x800_0000 then q - start * 0x800_0000 else q;
            Walk(m', r, 4, q) == Walk(m, r, 4, h) && Translate(m', r, q) == Translate(m, r, h)
  {
    hide Mirrored, LowSlots, RootAlone, Walk, Translate;
    LowSlotsFew(m, r, count);
    PrefixIsPath(q, 4);
    MirrorWalk(m, r, count, 4, q);
    HomeOfPage(q, MirrorStart(count), count);
    TranslateHome(m, Mirrored(m, r, MirrorStart(count), count), r, q, Home(4, q, MirrorStart(count), count), MirrorStart(count));
  }

  /** Large pages differ by whole PML4 slots only, so the offset into one is the same. */
  lemma TranslateHome(m: Memory, m': Memory, r: nat, q: nat, h: nat, start: nat)
    requires Walk(m', r, 4, q) == Walk(m, r, 4, h) && (h == q || q == h + start * 0x800_0000)
    ensures Translate(m', r, q) == Translate(m, r, h)
  {
    if h != q {
      assert q == 0x4_0000 * (start * 512) + h;
      SlotsApart(start * 512, h);
    }
  }

  lemma SlotsApart(k: nat, h: nat)
    ensures (0x4_0000 * k + h) % 0x4_0000 == h % 0x4_0000 && (0x4_0000 * k + h) % 512 == h % 512
  {
    assert 0x4_0000 * k + h == 512 * (512 * k) + h;
    Below512(512 * k, h);
  }

  lemma Below512(k: nat, h: nat)
    ensures (512 * k + h) % 512 == h % 512
  {
  }

  // ---------------------------------------------------------------------------
  // The tables as map_page finds them
  // ---------------------------------------------------------------------------

  lemma RelocatedRoot(m: Memory, b: Move, root: nat)
    requires Movable(m, b, root)
    ensures RootAlone(Relocated(m, b, root), b.To(root))
  {
    hide Relocated;
    PrefixIs(0);
    forall e: nat, q: nat | e <= 3 && IsPath(e, q) && Walk(Relocated(m, b, root), b.To(root), e, q) == Table(b.To(root))
      ensures e == 0 && q == 0
    {
      WalkMoves(m, b, root, e, q);
    }
  }

  lemma RelocatedSlots(m: Memory, b: Move, root: nat, count: nat)
    requires Movable(m, b, root) && LowSlots(m, root, count)
    ensures LowSlots(Relocated(m, b, root), b.To(root), count)
  {
    hide Relocated, LowSlots;
    var m', r := Relocated(m, b, root), b.To(root);
    PrefixIs(0);
    forall i: nat | i < 512 ensures Present(Load(m', r, i)) <==> Present(Load(m, root, i)) {
      WalkMoves(m, b, root, 1, i);
      FirstLevel(m', r, i);
      FirstLevel(m, root, i);
    }
    SameSlots(m, root, m', r, count);
  }

  lemma SameSlots(m: Memory, root: nat, m': Memory, r: nat, count: nat)
    requires LowSlots(m, root, count) && forall i: nat | i < 512 ::
                Present(Load(m', r, i)) <==> Present(Load(m, root, i))
    ensures LowSlots(m', r, count)
  {
  }

  /** The PML4 slots that neither the firmware nor the mirror uses. */
  predicate UnusedSlots(v: set<nat>, count: nat)
    requires count <= 511
  {
    forall i | i in v :: i < 512 && count <= i && !(MirrorStart(count) <= i < 511)
  }

  /** Below an unused slot there is nothing. */
  lemma {:induction false} UnusedAbsent(m: Memory, r: nat, count: nat, v: set<nat>, d: nat, q: nat)
    requires LowSlots(m, r, count) && UnusedSlots(v, count) && d > 0 && IsPath(d, q) && Managed(v, d, q)
    ensures Walk(Mirrored(m, r, MirrorStart(count), count), r, d, q) == Absent
    decreases d
  {
    hide Mirrored;
    if d > 1 {
      ParentIsPath(d, q);
      UnusedAbsent(m, r, count, v, d - 1, q / 512);
    } else {
      FirstSlot(m, r, count, q);
      PrefixIs(0);
      FirstLevel(m, r, q);
    }
  }

  /** After the mirror loop a table is reached where it was before. */
  lemma MirroredTable(m: Memory, b: Move, root: nat, count: nat, d: nat, q: nat) returns (h: nat)
    requires Movable(m, b, root) && LowSlots(m, root, count) && d <= 3 && IsPath(d, q)
    ensures IsPath(d, h) && (d > 0 || h == q)
    ensures var m1, r := Relocated(m, b, root), b.To(root);
            Walk(Mirrored(m1, r, MirrorStart(count), count), r, d, q) == if d <= 2 then MovedStep(Walk(m, root, d, h), b) else Walk(m, root, d, h)
  {
    hide Relocated, Mirrored, Movable, LowSlots, Walk;
    var m1, r := Relocated(m, b, root), b.To(root);
    LowSlotsFew(m, root, count);
    h := Home(d, q, MirrorStart(count), count);
    HomeIsPath(d, q, MirrorStart(count), count);
    RelocatedSlots(m, b, root, count);
    RelocatedRoot(m, b, root);
    MirrorWalk(m1, r, count, d, q);
    WalkMoves(m, b, root, d, h);
  }

  /** What the bootloader leaves: the supply of table frames is the rest of the
      region after the last entry in use, in 64-bit arithmetic. */
  function Left(m: Memory, b: Move, root: nat): Supply {
    var next := NextAvailable(m, b, root);
    Bump(next, (b.dst + b.count - next) % 0x10_0000_0000_0000)
  }

  lemma NothingHeld(m: Memory, b: Move, root: nat, count: nat, d: nat, q: nat)
    requires Movable(m, b, root) && NoEmptyTable(m, root) && LowSlots(m, root, count) && d <= 3 && IsPath(d, q)
    ensures var m1, r := Relocated(m, b, root), b.To(root);
            var p := Walk(Mirrored(m1, r, MirrorStart(count), count), r, d, q);
            p.Table? ==> !Holds(Left(m, b, root), p.frame) && (d > 0 ==> p.frame != r)
  {
    hide Relocated, Mirrored, LowSlots, NextAvailable, HasEntry;
    var h := MirroredTable(m, b, root, count, d, q);
    PrefixIs(0);
    assert Walk(m, root, 0, 0) == Table(root);
    ScanCoversTables(m, b, root);
    if Walk(m, root, d, h).Table? && d <= 2 {
      assert HasEntry(m, Walk(m, root, d, h).frame);
    }
  }

  /** With a region as the code relies on, and no empty table in it, the tables
      are fit for mapping pages under any unused slots: the root is shared with
      nothing, and no frame still to be handed out is a table in use. */
  lemma TablesAreReady(m: Memory, b: Move, root: nat, count: nat, v: set<nat>)
    requires Movable(m, b, root) && NoEmptyTable(m, root) && LowSlots(m, root, count) && UnusedSlots(v, count)
    ensures var m1, r := Relocated(m, b, root), b.To(root);
            Good(Mirrored(m1, r, MirrorStart(count), count), r, v, false, Left(m, b, root))
    ensures Left(m, b, root).next + Left(m, b, root).left == b.dst + b.count
  {
    hide Relocated, Mirrored, LowSlots, NextAvailable, HasEntry, Movable, UnusedSlots;
    var m1, r, s := Relocated(m, b, root), b.To(root), Left(m, b, root);
    LowSlotsFew(m, root, count);
    var m2 := Mirrored(m1, r, MirrorStart(count), count);
    RelocatedSlots(m, b, root, count);
    forall d: nat, q: nat | IsPath(d, q) && Managed(v, d, q) && d > 0 ensures Walk(m2, r, d, q) == Absent {
      UnusedAbsent(m1, r, count, v, d, q);
    }
    forall d: nat, q: nat | Counted(v, false, d, q) && Walk(m2, r, d, q).Table?
      ensures !Holds(s, Walk(m2, r, d, q).frame) && (d > 0 ==> Walk(m2, r, d, q).frame != r)
    {
      NothingHeld(m, b, root, count, d, q);
    }
    LeftFits(m, b, root);
    PrefixIs(0);
    hide Walk;
    assert Walk(m2, r, 0, 0) == Table(r) by {
      RootStep(m2, r);
    }
    ReadyPrivate(m2, r, v);
  }

  lemma RootStep(m: Memory, r: nat)
    ensures Walk(m, r, 0, 0) == Table(r)
  {
  }

  lemma ReadyPrivate(m: Memory, r: nat, v: set<nat>)
    requires forall d: nat, q: nat | IsPath(d, q) && Managed(v, d, q) && d > 0 :: Walk(m, r, d, q) == Absent
    requires forall d: nat, q: nat | Counted(v, false, d, q) && Walk(m, r, d, q).Table? && d > 0 ::
                Walk(m, r, d, q).frame != r
    ensures Private(m, r, v, false) && NoHuge(m, r, v)
  {
    PrefixIs(0);
    forall d: nat, q: nat | Counted(v, false, d, q) && Managed(v, d, q) ensures Unique(m, r, v, false, d, q) {
      if d == 0 {
        assert q == 0;
      }
    }
  }

  lemma LeftFits(m: Memory, b: Move, root: nat)
    requires Movable(m, b, root) && NoEmptyTable(m, root)
    ensures Addressable(Left(m, b, root)) && Left(m, b, root).next + Left(m, b, root).left == b.dst + b.count
  {
    PrefixIs(0);
    assert Walk(m, root, 0, 0) == Table(root);
    ScanCoversTables(m, b, root);
  }

  /** A tree of one PDP, which maps the first GiB to itself. */
  function SmallTree(): Memory { map[Slot(10, 0) := Entry(3, 11), Slot(11, 0) := Entry(0x83, 0)] }

  lemma SmallTreeWords(j: nat)
    ensures Load(SmallTree(), 10, j) == if j == 0 then Entry(3, 11) else 0
    ensures Load(SmallTree(), 11, j) == if j == 0 then Entry(0x83, 0) else 0
    ensures Present(Entry(3, 11)) && FrameOf(Entry(3, 11)) == 11 && Follow(Entry(0x83, 0), 2) == Huge(0, 2) && !Present(0)
    ensures Present(Entry(0x83, 0))
  {
    Fields(0, 11, 3);
    Fields(0, 0, 0x83);
  }

  lemma SmallTreeWalks(d: nat, q: nat)
    requires 1 <= d <= 3 && IsPath(d, q)
    ensures d == 1 ==> Walk(SmallTree(), 10, d, q) == if q == 0 then Table(11) else Absent
    ensures d == 2 ==> Walk(SmallTree(), 10, d, q) == if q == 0 then Huge(0, 2) else Absent
    ensures d == 3 ==> !Walk(SmallTree(), 10, d, q).Table?
  {
    hide SmallTree, Load, Present, FrameOf, Entry;
    PrefixIs(0);
    SmallTreeWords(q % 512);
    if d == 1 {
      FirstLevel(SmallTree(), 10, q);
    } else {
      ParentIsPath(d, q);
      SmallTreeWalks(d - 1, q / 512);
    }
  }

  /** It is one that the code may be given. */
  lemma SmallTreeIsMovable()
    ensures Movable(SmallTree(), Move(10, 100, 4), 10) && NoEmptyTable(SmallTree(), 10) && LowSlots(SmallTree(), 10, 1)
  {
    hide SmallTree, Load, Present, FrameOf, Entry, Walk;
    PrefixIs(0);
    RootStep(SmallTree(), 10);
    forall j: nat ensures Present(Load(SmallTree(), 10, j)) <==> j == 0 {
      SmallTreeWords(j);
    }
    SmallTreeWords(0);
    assert HasEntry(SmallTree(), 10) && HasEntry(SmallTree(), 11);
    forall d: nat, q: nat | 1 <= d <= 3 && IsPath(d, q)
      ensures d == 1 ==> Walk(SmallTree(), 10, d, q) == if q == 0 then Table(11) else Absent
      ensures d == 2 ==> Walk(SmallTree(), 10, d, q) == if q == 0 then Huge(0, 2) else Absent
      ensures d == 3 ==> !Walk(SmallTree(), 10, d, q).Table?
    {
      SmallTreeWalks(d, q);
    }
  }
}
