/**
 Access rights: a page may be written, or used from user mode, if the bit is set
 in every entry on the way to it, and is not executable if bit 63 is set in one
 (Intel SDM Vol. 3A, section 4.6).
 */
module Rights {
  import opened Options
  import opened Addresses
  import opened PageTables
  import opened Mapping
  import opened Paging

  const WRITABLE: nat := 2
  const USER: nat := 4
  const NO_EXECUTE: nat := 0x8000_0000_0000_0000

  predicate HasBit(w: nat, bit: nat)
    requires bit > 0
  {
    w / bit % 2 == 1
  }

  /** The entry that the walk along (d, q) reads last; zero if it does not get there. */
  function EntryAt(m: Memory, root: nat, d: nat, q: nat): nat {
    if d == 0 then 0
    else
      match Walk(m, root, d - 1, q / 512)
      case Table(t) => Load(m, t, q % 512)
      case _ => 0
  }

  /** The walk gets there, and all entries on the way have the bit; below a large
      page there are no more entries. */
  predicate Permits(m: Memory, root: nat, d: nat, q: nat, bit: nat)
    requires bit > 0
  {
    d == 0 ||
    (&& Permits(m, root, d - 1, q / 512, bit)
     && (Walk(m, root, d - 1, q / 512).Huge? || (Present(EntryAt(m, root, d, q)) && HasBit(EntryAt(m, root, d, q), bit))))
  }

  /** Some present entry on the way has the bit. */
  predicate Marks(m: Memory, root: nat, d: nat, q: nat, bit: nat)
    requires bit > 0
  {
    d > 0 &&
    (Marks(m, root, d - 1, q / 512, bit) || (Present(EntryAt(m, root, d, q)) && HasBit(EntryAt(m, root, d, q), bit)))
  }

  /** A page has the rights in m' that it had in m, from another root perhaps. */
  ghost predicate SameRights(m: Memory, root: nat, m': Memory, root': nat, p: nat) {
    && (Permits(m', root', 4, p, WRITABLE) <==> Permits(m, root, 4, p, WRITABLE))
    && (Permits(m', root', 4, p, USER) <==> Permits(m, root, 4, p, USER))
    && (Marks(m', root', 4, p, NO_EXECUTE) <==> Marks(m, root, 4, p, NO_EXECUTE))
  }

  lemma {:induction false} AbsentPath(m: Memory, root: nat, d: nat, q: nat, bit: nat)
    requires bit > 0 && Permits(m, root, d, q, bit)
    ensures Walk(m, root, d, q) != Absent
    decreases d
  {
    if d > 0 {
      AbsentPath(m, root, d - 1, q / 512, bit);
    }
  }

  // ---------------------------------------------------------------------------
  // One write
  // ---------------------------------------------------------------------------

  /** A write that changes one walk changes the entry of that path and no other. */
  lemma WriteChangesOneEntry(m: Memory, m': Memory, root: nat, t: nat, d: nat, x: nat, w: nat, z: Option<nat>, e: nat, r: nat)
    requires SafeWrite(m, m', root, t, d, x, w, z) && 1 <= e && IsPath(e, r)
    ensures EntryAt(m', root, e, r) == if e == d && r == x then w else EntryAt(m, root, e, r)
  {
    hide Follow, Span, NowhereTable;
    ParentIsPath(e, r);
    WriteChangesOnePath(m, m', root, t, d, x, w, z, e - 1, r / 512);
    var p := Walk(m, root, e - 1, r / 512);
    if e - 1 == d && r / 512 == x {
      BelowNew(m, m', root, t, d, x, w, z, e, r);
    } else if p == Table(t) && r % 512 == x % 512 {
      assert e == d && r == x;
      assert Load(m', t, x % 512) == w;
    } else if p.Table? {
      NotCleared(m, root, z, e - 1, r / 512, d);
      assert Load(m', p.frame, r % 512) == Load(m, p.frame, r % 512);
    }
  }

  /** Below a new table, which is clear, there is nothing. */
  lemma BelowNew(m: Memory, m': Memory, root: nat, t: nat, d: nat, x: nat, w: nat, z: Option<nat>, e: nat, r: nat)
    requires SafeWrite(m, m', root, t, d, x, w, z) && IsPath(e, r) && e == d + 1 && r / 512 == x
    requires Walk(m', root, d, x) == Follow(w, d)
    ensures EntryAt(m', root, e, r) == EntryAt(m, root, e, r)
  {
    assert Load(m', z.value, r % 512) == 0;
  }

  lemma NotCleared(m: Memory, root: nat, z: Option<nat>, e: nat, r: nat, d: nat)
    requires z.Some? ==> NowhereTable(m, root, z.value)
    requires e <= 3 && IsPath(e, r) && Walk(m, root, e, r).Table?
    ensures z != Some(Walk(m, root, e, r).frame)
  {
  }

  // ---------------------------------------------------------------------------
  // page_map
  // ---------------------------------------------------------------------------

  /** The entries on the way to `page` that were not present and lead somewhere
      now hold the frame and the flags present, writable and user; those of the
      PML4 that the bootloader makes lack the last. All others are as before. */
  ghost predicate EntriesAfter(m: Memory, m': Memory, root: nat, boot: bool, page: nat) {
    forall e: nat, r: nat | 1 <= e && IsPath(e, r) ::
      EntryAt(m', root, e, r) ==
        if r == Prefix(page, e) && !Present(EntryAt(m, root, e, r)) && Walk(m', root, e, r).Table?
        then 0x1000 * Walk(m', root, e, r).frame + (if boot && e == 1 then 3 else 7)
        else EntryAt(m, root, e, r)
  }

  lemma NoEntries(m: Memory, root: nat, boot: bool, page: nat)
    ensures EntriesAfter(m, m, root, boot, page)
  {
    forall e: nat, r: nat | 1 <= e && IsPath(e, r) && !Present(EntryAt(m, root, e, r))
      ensures !Walk(m, root, e, r).Table?
    {
      assert Walk(m, root, e, r) == Descend(m, Walk(m, root, e - 1, r / 512), r % 512, e);
    }
  }

  /** One entry written, and then others below it. */
  lemma EntriesCompose(m: Memory, m1: Memory, m2: Memory, root: nat, boot: bool, page: nat, d: nat, w: nat)
    requires 1 <= d <= 4 && page < PAGES && EntriesAfter(m1, m2, root, boot, page)
    requires forall e: nat, r: nat | 1 <= e && IsPath(e, r) ::
               EntryAt(m1, root, e, r) == if e == d && r == Prefix(page, d) then w else EntryAt(m, root, e, r)
    requires !Present(EntryAt(m, root, d, Prefix(page, d))) && Present(w)
    requires Walk(m2, root, d, Prefix(page, d)).Table?
    requires w == 0x1000 * Walk(m2, root, d, Prefix(page, d)).frame + (if boot && d == 1 then 3 else 7)
    ensures EntriesAfter(m, m2, root, boot, page)
  {
    hide Walk, Span, EntryAt, Prefix, Present;
  }

  lemma {:induction false} MapFromEntries(m: Memory, s: Supply, root: nat, v: set<nat>, page: nat, t: nat, d: nat, frame: nat)
    requires Good(m, root, v, false, s) && d <= 3 && page < PAGES && Mapping.At(m, root, v, page, t, d) && Managed(v, 4, page)
    requires frame < 0x100_0000_0000
    requires s.Bump? ==> Missing(m, root, page, d) <= Reserve(s)
    ensures EntriesAfter(m, MapFrom(m, s, t, d, page, frame).mem, root, s.Bump?, page)
    decreases 3 - d
  {
    hide Good, Managed, Span, Walk, Installed, Mapping.At, EntriesAfter, Holds, Reserve, Addressable, EntryAt, Unreached;
    var x := Prefix(page, d + 1);
    var w := Load(m, t, x % 512);
    NoEntries(m, root, s.Bump?, page);
    EntryThere(m, root, v, page, t, d);
    if d == 3 {
      if !Present(w) {
        LeafEntries(m, s, root, v, page, t, frame);
      }
    } else if Present(w) {
      Child(m, root, v, false, s, page, t, d);
      NextAt(m, root, v, page, t, d, FrameOf(w));
      MapFromEntries(m, s, root, v, page, FrameOf(w), d + 1, frame);
    } else if Draw(s).Some? {
      Child(m, root, v, false, s, page, t, d);
      IsAddressable(m, root, v, s);
      DrawFailsIff(s);
      MissingHere(m, root, page, d);
      DrawIs(s);
      var (z, s') := Draw(s).value;
      var m' := Installed(m, s, t, x % 512, d + 1, z);
      InstallStep(m, root, v, false, s, page, t, d);
      InstallSafe(m, root, v, false, s, page, t, d, z);
      AfterInstall(m, m', s, root, v, false, page, t, d, z, frame);
      MapFromEntries(m', s', root, v, page, z, d + 1, frame);
      InstalledEntries(m, s, m', s', root, v, page, t, d, z, frame);
    }
  }

  lemma IsAddressable(m: Memory, root: nat, v: set<nat>, s: Supply)
    requires Good(m, root, v, false, s)
    ensures Addressable(s)
  {
  }

  lemma MissingHere(m: Memory, root: nat, page: nat, d: nat)
    requires d < 3 && Walk(m, root, d + 1, Prefix(page, d + 1)) == Absent
    ensures Missing(m, root, page, d) == Missing(m, root, page, d + 1) + 1
  {
  }

  lemma EntryThere(m: Memory, root: nat, v: set<nat>, page: nat, t: nat, d: nat)
    requires d <= 3 && Mapping.At(m, root, v, page, t, d)
    ensures EntryAt(m, root, d + 1, Prefix(page, d + 1)) == Load(m, t, Prefix(page, d + 1) % 512)
    ensures IsPath(d + 1, Prefix(page, d + 1))
  {
    assert Prefix(page, d) == Prefix(page, d + 1) / 512;
  }

  lemma LeafEntries(m: Memory, s: Supply, root: nat, v: set<nat>, page: nat, t: nat, frame: nat)
    requires Good(m, root, v, false, s) && Mapping.At(m, root, v, page, t, 3) && frame < 0x100_0000_0000
    requires !Present(Load(m, t, page % 512)) && page < PAGES
    ensures EntriesAfter(m, Store(m, t, page % 512, Entry(7, frame)), root, s.Bump?, page)
  {
    var m' := Store(m, t, page % 512, Entry(7, frame));
    LeafSafe(m, s, root, v, page, t, frame);
    LeafStep(m, root, v, false, s, page, t, frame);
    EntryThere(m, root, v, page, t, 3);
    NoEntries(m', root, s.Bump?, page);
    hide Good, Managed, Span, Walk, Mapping.At, EntriesAfter, EntryAt, SafeWrite, Store, Prefix;
    PrefixIs(page);
    OneEntryWritten(m, m', root, t, 4, page, Entry(7, frame), None);
    PresentFlags(7, frame);
    EntriesCompose(m, m', m', root, s.Bump?, page, 4, Entry(7, frame));
  }

  lemma PresentFlags(flags: nat, z: nat)
    requires flags == 3 || flags == 7
    ensures Present(Entry(flags, z))
  {
  }

  lemma LeafSafe(m: Memory, s: Supply, root: nat, v: set<nat>, page: nat, t: nat, frame: nat)
    requires Good(m, root, v, false, s) && Mapping.At(m, root, v, page, t, 3) && frame < 0x100_0000_0000
    ensures SafeWrite(m, Store(m, t, page % 512, Entry(7, frame)), root, t, 4, page, Entry(7, frame), None)
  {
    EntryIs(7, frame, 4);
    ParentIsPath(4, page);
    ParentManaged(v, 4, page);
    PrivateTableOnlyAt(m, root, v, false, 3, page / 512);
  }

  lemma InstalledEntries(m: Memory, s: Supply, m': Memory, s': Supply, root: nat, v: set<nat>, page: nat, t: nat, d: nat,
        z: nat, frame: nat)
    requires Good(m', root, v, false, s') && d < 3 && page < PAGES && Mapping.At(m', root, v, page, z, d + 1) && Managed(v, 4, page)
    requires frame < 0x100_0000_0000 && (s'.Bump? ==> Missing(m', root, page, d + 1) <= Reserve(s')) && s'.Bump? == s.Bump?
    requires IsPath(d + 1, Prefix(page, d + 1)) && !Present(EntryAt(m, root, d + 1, Prefix(page, d + 1)))
    requires SafeWrite(m, m', root, t, d + 1, Prefix(page, d + 1), Entry(Flags(s, d + 1), z), Some(z))
    requires Walk(m', root, d + 1, Prefix(page, d + 1)) == Table(z)
    requires EntriesAfter(m', MapFrom(m', s', z, d + 1, page, frame).mem, root, s.Bump?, page)
    ensures EntriesAfter(m, MapFrom(m', s', z, d + 1, page, frame).mem, root, s.Bump?, page)
  {
    hide Good, Managed, Span, Walk, Mapping.At, EntriesAfter, EntryAt, SafeWrite, Prefix, MapFrom, Missing, Reserve, Holds,
      Present;
    var m2, w := MapFrom(m', s', z, d + 1, page, frame).mem, Entry(Flags(s, d + 1), z);
    TableStays(m', s', root, v, page, z, d + 1, frame);
    OneEntryWritten(m, m', root, t, d + 1, Prefix(page, d + 1), w, Some(z));
    PresentFlags(Flags(s, d + 1), z);
    EntriesCompose(m, m', m2, root, s.Bump?, page, d + 1, w);
  }

  lemma TableStays(m: Memory, s: Supply, root: nat, v: set<nat>, page: nat, t: nat, d: nat, frame: nat)
    requires Good(m, root, v, false, s) && d <= 3 && page < PAGES && Mapping.At(m, root, v, page, t, d) && Managed(v, 4, page)
    requires frame < 0x100_0000_0000 && (s.Bump? ==> Missing(m, root, page, d) <= Reserve(s))
    requires IsPath(d, Prefix(page, d)) && Walk(m, root, d, Prefix(page, d)) == Table(t)
    ensures Walk(MapFrom(m, s, t, d, page, frame).mem, root, d, Prefix(page, d)) == Table(t)
  {
    hide Good, Managed, Span, Walk, Mapping.At, MapFrom, Missing, Reserve, Holds;
    MapFromIs(m, s, root, v, false, page, t, d, frame);
  }

  lemma OneEntryWritten(m: Memory, m': Memory, root: nat, t: nat, d: nat, x: nat, w: nat, z: Option<nat>)
    requires SafeWrite(m, m', root, t, d, x, w, z)
    ensures forall e: nat, r: nat | 1 <= e && IsPath(e, r) ::
              EntryAt(m', root, e, r) == if e == d && r == x then w else EntryAt(m, root, e, r)
  {
    hide EntryAt, SafeWrite, Span;
    forall e: nat, r: nat | 1 <= e && IsPath(e, r)
      ensures EntryAt(m', root, e, r) == if e == d && r == x then w else EntryAt(m, root, e, r)
    {
      WriteChangesOneEntry(m, m', root, t, d, x, w, z, e, r);
    }
  }

  lemma PageMapEntries(m: Memory, s: Supply, root: nat, v: set<nat>, va: nat, phys: nat)
    requires Good(m, root, v, false, s) && Pml4Index(va) in v
    requires s.Bump? ==> Missing(m, root, Page(va), 0) <= Reserve(s)
    ensures EntriesAfter(m, MapPage(m, s, root, va, phys).mem, root, s.Bump?, Page(va))
  {
    ManagedPage(v, va);
    RootAt(m, root, v, Page(va));
    MapFromEntries(m, s, root, v, Page(va), root, 0, FrameOf(phys));
  }

  // ---------------------------------------------------------------------------
  // Rights from entries
  // ---------------------------------------------------------------------------

  lemma {:induction false} SamePath(m: Memory, root: nat, m': Memory, d: nat, q: nat, bit: nat)
    requires bit > 0 && IsPath(d, q) && Walk(m, root, d, q) != Absent
    requires forall e: nat, r: nat | IsPath(e, r) && Walk(m, root, e, r) != Absent ::
               Walk(m', root, e, r) == Walk(m, root, e, r) && EntryAt(m', root, e, r) == EntryAt(m, root, e, r)
    ensures Permits(m', root, d, q, bit) == Permits(m, root, d, q, bit) && Marks(m', root, d, q, bit) == Marks(m, root, d, q, bit)
    decreases d
  {
    hide Span, EntryAt;
    if d > 0 {
      ParentIsPath(d, q);
      ParentThere(m, root, d, q);
      SamePath(m, root, m', d - 1, q / 512, bit);
    }
  }

  lemma ParentThere(m: Memory, root: nat, d: nat, q: nat)
    requires d > 0 && Walk(m, root, d, q) != Absent
    ensures Walk(m, root, d - 1, q / 512) != Absent
    ensures Walk(m, root, d - 1, q / 512).Table? ==> Present(EntryAt(m, root, d, q))
    ensures Walk(m, root, d, q).Table? ==> Walk(m, root, d, q).frame == FrameOf(EntryAt(m, root, d, q))
    ensures Walk(m, root, d, q).Table? ==> Walk(m, root, d - 1, q / 512).Table?
  {
  }

  /** Where there was something, neither the walk nor the entry changes. */
  lemma NothingLost(m: Memory, m': Memory, root: nat, boot: bool, page: nat, e: nat, r: nat)
    requires EntriesAfter(m, m', root, boot, page) && GrowsAlong(m, m', root, page)
    requires IsPath(e, r) && Walk(m, root, e, r) != Absent
    ensures Walk(m', root, e, r) == Walk(m, root, e, r) && EntryAt(m', root, e, r) == EntryAt(m, root, e, r)
  {
    hide Walk, Span, EntryAt, Present, Prefix;
    if e > 0 {
      ParentThere(m, root, e, r);
    } else {
      RootEntry(m, m', root, r);
    }
  }

  lemma RootEntry(m: Memory, m': Memory, root: nat, r: nat)
    ensures EntryAt(m', root, 0, r) == EntryAt(m, root, 0, r)
  {
  }

  /** All entries there are on the way to the tables of a page have the bit. */
  ghost predicate TablesPermit(m: Memory, root: nat, page: nat, bit: nat)
    requires bit > 0
  {
    forall d | 1 <= d <= 3 && Walk(m, root, d, Prefix(page, d)).Table? :: HasBit(EntryAt(m, root, d, Prefix(page, d)), bit)
  }

  ghost predicate TablesMark(m: Memory, root: nat, page: nat, bit: nat)
    requires bit > 0
  {
    exists d :: 1 <= d <= 3 && Walk(m, root, d, Prefix(page, d)).Table? && HasBit(EntryAt(m, root, d, Prefix(page, d)), bit)
  }

  lemma NewBits(f: nat)
    requires f < 0x100_0000_0000
    ensures HasBit(0x1000 * f + 7, WRITABLE) && HasBit(0x1000 * f + 7, USER) && !HasBit(0x1000 * f + 7, NO_EXECUTE)
    ensures HasBit(0x1000 * f + 3, WRITABLE) && !HasBit(0x1000 * f + 3, USER) && !HasBit(0x1000 * f + 3, NO_EXECUTE)
    ensures Present(0x1000 * f + 3) && Present(0x1000 * f + 7)
  {
    hide HasBit;
    SmallBits();
    OneBit(0x800 * f, 7, 2);
    OneBit(0x800 * f, 3, 2);
    OneBit(0x400 * f, 7, 4);
    OneBit(0x400 * f, 3, 4);
    EvenPart(0x800 * f, 7);
    EvenPart(0x800 * f, 3);
    TooSmall(0x1000 * f + 7);
    TooSmall(0x1000 * f + 3);
  }

  lemma SmallBits()
    ensures HasBit(7, WRITABLE) && HasBit(7, USER) && HasBit(3, WRITABLE) && !HasBit(3, USER)
  {
  }

  lemma OneBit(x: nat, l: nat, bit: nat)
    requires (bit == 2 || bit == 4) && x % 2 == 0
    ensures HasBit(bit * x + l, bit) == HasBit(l, bit)
  {
    assert (bit * x + l) / bit == x + l / bit;
    EvenPart(x / 2, l / bit);
  }

  lemma TooSmall(w: nat)
    requires w < NO_EXECUTE
    ensures !HasBit(w, NO_EXECUTE)
  {
  }

  /** The rights of a walk through four tables. */
  lemma FullPath(m: Memory, root: nat, page: nat, bit: nat)
    requires bit > 0 && HasTables(m, root, page) && Walk(m, root, 4, page).Table?
    ensures Permits(m, root, 4, page, bit) <==> forall d | 1 <= d <= 4 :: HasBit(EntryAt(m, root, d, Prefix(page, d)), bit)
    ensures Marks(m, root, 4, page, bit) <==> exists d :: 1 <= d <= 4 && HasBit(EntryAt(m, root, d, Prefix(page, d)), bit)
    ensures forall d | 1 <= d <= 4 :: Present(EntryAt(m, root, d, Prefix(page, d)))
  {
    hide Walk, EntryAt, HasBit, Present;
    PrefixIs(page);
    assert Prefix(page, 4) == page;
    forall d | 1 <= d <= 4
      ensures Present(EntryAt(m, root, d, Prefix(page, d)))
      ensures Permits(m, root, d, Prefix(page, d), bit) <==>
                Permits(m, root, d - 1, Prefix(page, d - 1), bit) && HasBit(EntryAt(m, root, d, Prefix(page, d)), bit)
      ensures Marks(m, root, d, Prefix(page, d), bit) <==>
                Marks(m, root, d - 1, Prefix(page, d - 1), bit) || HasBit(EntryAt(m, root, d, Prefix(page, d)), bit)
    {
      assert Walk(m, root, d - 1, Prefix(page, d - 1)).Table?;
      ParentThere(m, root, d, Prefix(page, d));
    }
    assert Permits(m, root, 0, Prefix(page, 0), bit) && !Marks(m, root, 0, Prefix(page, 0), bit);
  }

  /** What the entry at depth d of a page newly mapped is. */
  lemma EntryIsOldOrNew(m: Memory, m': Memory, root: nat, boot: bool, page: nat, d: nat)
    requires page < PAGES && EntriesAfter(m, m', root, boot, page) && GrowsAlong(m, m', root, page)
    requires HasTables(m', root, page) && Walk(m', root, 4, page).Table? && 1 <= d <= 4
    ensures Walk(m, root, d, Prefix(page, d)).Table? || Walk(m, root, d, Prefix(page, d)) == Absent
    ensures var w, w' := EntryAt(m, root, d, Prefix(page, d)), EntryAt(m', root, d, Prefix(page, d));
            if Walk(m, root, d, Prefix(page, d)).Table? then w' == w
            else exists f: nat :: f < 0x100_0000_0000 && w' == 0x1000 * f + (if boot && d == 1 then 3 else 7)
  {
    hide Span, EntryAt, Present, Prefix, FrameOf;
    PrefixIsPath(page, d);
    PrefixIs(page);
    var q := Prefix(page, d);
    assert Walk(m', root, d, q).Table?;
    if Walk(m, root, d, q).Table? {
      ParentThere(m, root, d, q);
      NothingLost(m, m', root, boot, page, d, q);
    } else {
      ParentThere(m', root, d, q);
      NotPresentBefore(m, root, d, q);
      assert Walk(m', root, d, q).frame < 0x100_0000_0000 by {
        SmallFrame(EntryAt(m', root, d, q));
      }
    }
  }

  lemma SmallFrame(w: nat)
    ensures FrameOf(w) < 0x100_0000_0000
  {
  }

  lemma NotPresentBefore(m: Memory, root: nat, d: nat, q: nat)
    requires d > 0 && Walk(m, root, d, q) == Absent
    ensures !Present(EntryAt(m, root, d, q))
  {
    assert Walk(m, root, d, q) == Descend(m, Walk(m, root, d - 1, q / 512), q % 512, d);
  }

  /** A page that has come to be mapped has a right exactly if all tables on the
      way that were there before permit it; but a PML4 entry that the bootloader
      has made permits no use from user mode. */
  lemma NewPageRights(m: Memory, m': Memory, root: nat, boot: bool, page: nat)
    requires page < PAGES && EntriesAfter(m, m', root, boot, page) && GrowsAlong(m, m', root, page)
    requires HasTables(m', root, page) && Walk(m', root, 4, page).Table? && Walk(m, root, 4, page) == Absent
    ensures Permits(m', root, 4, page, WRITABLE) <==> TablesPermit(m, root, page, WRITABLE)
    ensures Permits(m', root, 4, page, USER) <==>
              TablesPermit(m, root, page, USER) && !(boot && Walk(m, root, 1, Prefix(page, 1)) == Absent)
    ensures Marks(m', root, 4, page, NO_EXECUTE) <==> TablesMark(m, root, page, NO_EXECUTE)
  {
    hide Walk, Span, EntryAt, Present, Prefix, EntriesAfter, GrowsAlong, HasTables, HasBit, Permits, Marks;
    FourthPrefix(page);
    FullPath(m', root, page, WRITABLE);
    FullPath(m', root, page, USER);
    FullPath(m', root, page, NO_EXECUTE);
    BitsAt(m, m', root, boot, page, 1);
    BitsAt(m, m', root, boot, page, 2);
    BitsAt(m, m', root, boot, page, 3);
    BitsAt(m, m', root, boot, page, 4);
  }

  lemma BitsAt(m: Memory, m': Memory, root: nat, boot: bool, page: nat, d: nat)
    requires page < PAGES && EntriesAfter(m, m', root, boot, page) && GrowsAlong(m, m', root, page)
    requires HasTables(m', root, page) && Walk(m', root, 4, page).Table? && 1 <= d <= 4
    ensures Walk(m, root, d, Prefix(page, d)).Table? || Walk(m, root, d, Prefix(page, d)) == Absent
    ensures var w, w' := EntryAt(m, root, d, Prefix(page, d)), EntryAt(m', root, d, Prefix(page, d));
            if Walk(m, root, d, Prefix(page, d)).Table? then w' == w
            else HasBit(w', WRITABLE) && (HasBit(w', USER) <==> !(boot && d == 1)) && !HasBit(w', NO_EXECUTE)
  {
    hide Walk, Span, EntryAt, Prefix, EntriesAfter, GrowsAlong, HasTables, HasBit;
    EntryIsOldOrNew(m, m', root, boot, page, d);
    if !Walk(m, root, d, Prefix(page, d)).Table? {
      var f: nat :| f < 0x100_0000_0000 && EntryAt(m', root, d, Prefix(page, d)) == 0x1000 * f + (if boot && d == 1 then 3 else 7);
      NewBits(f);
    }
  }

  lemma FourthPrefix(page: nat)
    ensures Prefix(page, 4) == page
  {
  }

  /** A page that was mapped before has the rights it had. */
  lemma OldPageRights(m: Memory, m': Memory, root: nat, boot: bool, page: nat, p: nat)
    requires EntriesAfter(m, m', root, boot, page) && GrowsAlong(m, m', root, page)
    requires p < PAGES && Walk(m, root, 4, p) != Absent
    ensures SameRights(m, root, m', root, p)
  {
    hide Walk, Span, EntryAt, EntriesAfter, GrowsAlong, Permits, Marks;
    forall e: nat, r: nat | IsPath(e, r) && Walk(m, root, e, r) != Absent
      ensures Walk(m', root, e, r) == Walk(m, root, e, r) && EntryAt(m', root, e, r) == EntryAt(m, root, e, r)
    {
      NothingLost(m, m', root, boot, page, e, r);
    }
    PrefixIsPath(p, 4);
    FourthPrefix(p);
    SamePath(m, root, m', 4, p, WRITABLE);
    SamePath(m, root, m', 4, p, USER);
    SamePath(m, root, m', 4, p, NO_EXECUTE);
  }

  // ---------------------------------------------------------------------------
  // What page_map does to rights
  // ---------------------------------------------------------------------------

  lemma EntryMarks(m: Memory, m': Memory, root: nat, boot: bool, page: nat, d: nat, q: nat)
    requires EntriesAfter(m, m', root, boot, page) && 1 <= d && IsPath(d, q)
    ensures Present(EntryAt(m', root, d, q)) && HasBit(EntryAt(m', root, d, q), NO_EXECUTE) <==>
              Present(EntryAt(m, root, d, q)) && HasBit(EntryAt(m, root, d, q), NO_EXECUTE)
  {
    hide Span, EntryAt, Present, Prefix, FrameOf, HasBit;
    if EntryAt(m', root, d, q) != EntryAt(m, root, d, q) {
      ParentThere(m', root, d, q);
      SmallFrame(EntryAt(m', root, d, q));
      NewBits(Walk(m', root, d, q).frame);
    }
  }

  lemma {:induction false} MarksStay(m: Memory, m': Memory, root: nat, boot: bool, page: nat, d: nat, q: nat)
    requires EntriesAfter(m, m', root, boot, page) && IsPath(d, q)
    ensures Marks(m', root, d, q, NO_EXECUTE) <==> Marks(m, root, d, q, NO_EXECUTE)
    decreases d
  {
    hide Span, EntryAt, EntriesAfter, Present, HasBit;
    if d > 0 {
      ParentIsPath(d, q);
      MarksStay(m, m', root, boot, page, d - 1, q / 512);
      EntryMarks(m, m', root, boot, page, d, q);
    }
  }

  lemma OtherPageRights(m: Memory, m': Memory, root: nat, boot: bool, page: nat, p: nat)
    requires EntriesAfter(m, m', root, boot, page) && GrowsAlong(m, m', root, page)
    requires p < PAGES && (p != page || Walk(m', root, 4, p) == Walk(m, root, 4, p))
    ensures SameRights(m, root, m', root, p)
  {
    hide Walk, Span, EntryAt, EntriesAfter, Permits, Marks;
    PrefixIsPath(p, 4);
    FourthPrefix(p);
    FourthPrefix(page);
    if Walk(m, root, 4, p) != Absent {
      OldPageRights(m, m', root, boot, page, p);
    } else {
      MarksStay(m, m', root, boot, page, 4, p);
      forall bit | bit == WRITABLE || bit == USER ensures !Permits(m, root, 4, p, bit) && !Permits(m', root, 4, p, bit) {
        NoneIfAbsent(m, root, p, bit);
        NoneIfAbsent(m', root, p, bit);
      }
    }
  }

  lemma NoneIfAbsent(m: Memory, root: nat, p: nat, bit: nat)
    requires bit > 0 && Walk(m, root, 4, p) == Absent
    ensures !Permits(m, root, 4, p, bit)
  {
    hide Walk;
    if Permits(m, root, 4, p, bit) {
      AbsentPath(m, root, 4, p, bit);
    }
  }

  /** A page newly mapped may be written, and used from user mode, exactly if the
      tables that were there before permit it: the last-level entry and every
      entry installed do, but for the PML4 entries of the bootloader, which
      permit writing only. No other page changes its rights, and none changes
      its rights if the page was not mapped. */
  lemma PageMapRights(m: Memory, s: Supply, root: nat, v: set<nat>, va: nat, phys: nat)
    requires Good(m, root, v, false, s) && Pml4Index(va) in v
    requires s.Bump? ==> Missing(m, root, Page(va), 0) <= Reserve(s)
    ensures var r, page := MapPage(m, s, root, va, phys), Page(va);
            && -1 <= r.result <= 1
            && (r.result == 0 ==>
                  && (Permits(r.mem, root, 4, page, WRITABLE) <==> TablesPermit(m, root, page, WRITABLE))
                  && (Permits(r.mem, root, 4, page, USER) <==>
                        TablesPermit(m, root, page, USER) && !(s.Bump? && Walk(m, root, 1, Prefix(page, 1)) == Absent))
                  && (Marks(r.mem, root, 4, page, NO_EXECUTE) <==> TablesMark(m, root, page, NO_EXECUTE)))
            && (forall p: nat | p < PAGES && (p != page || r.result != 0) :: SameRights(m, root, r.mem, root, p))
  {
    hide Good, Walk, Span, EntryAt, EntriesAfter, Permits, Marks, Managed, MapPage, TablesPermit, TablesMark, GrowsAlong,
      HasTables, SameRights, Missing, Reserve;
    var r, page := MapPage(m, s, root, va, phys), Page(va);
    ManagedPage(v, va);
    PageMapEntries(m, s, root, v, va, phys);
    PageMapWalks(m, s, root, v, va, phys);
    if r.result == 0 {
      NewPageRights(m, r.mem, root, s.Bump?, page);
    }
    forall p: nat | p < PAGES && (p != page || r.result != 0) ensures SameRights(m, root, r.mem, root, p) {
      OtherPageRights(m, r.mem, root, s.Bump?, page, p);
    }
  }

  lemma PageMapWalks(m: Memory, s: Supply, root: nat, v: set<nat>, va: nat, phys: nat)
    requires Good(m, root, v, false, s) && Pml4Index(va) in v
    requires s.Bump? ==> Missing(m, root, Page(va), 0) <= Reserve(s)
    ensures var r, page := MapPage(m, s, root, va, phys), Page(va);
            && GrowsAlong(m, r.mem, root, page) && -1 <= r.result <= 1
            && (r.result == 0 ==> HasTables(r.mem, root, page) && Walk(r.mem, root, 4, page).Table? && Walk(m, root, 4, page) == Absent)
            && (r.result != 0 ==> Walk(r.mem, root, 4, page) == Walk(m, root, 4, page))
  {
    ManagedPage(v, va);
    RootAt(m, root, v, Page(va));
    MapFromIs(m, s, root, v, false, Page(va), root, 0, FrameOf(phys));
    hide Private, Reserved;
    PrefixIsPath(Page(va), 4);
    assert !Walk(m, root, 4, Page(va)).Huge?;
  }
}
