/**
 Mapping one page: the walk that `page_map` of the kernel and `map_page` of the
 bootloader share, over whatever they draw new table frames from.
 */
module Mapping {
  import opened Options
  import opened Words
  import opened Addresses
  import opened PageTables
  import FrameBitmap

  /** The kernel draws table frames from the frame bitmap. The bootloader takes
      the next page of the region it moved the tables to and counts down the
      pages left, without looking at the count. */
  datatype Supply = Bitmap(words: seq<Word64>) | Bump(next: nat, left: nat)

  const UINT64_MAX: nat := 0xFFFF_FFFF_FFFF_FFFF

  function Draw(s: Supply): Option<(nat, Supply)> {
    match s
    case Bitmap(ws) =>
      if FrameBitmap.CanTake(ws) then Some((FrameBitmap.Picked(ws), Bitmap(FrameBitmap.Taken(ws)))) else None
    case Bump(next, left) => Some((next, Bump(next + 1, if left == 0 then UINT64_MAX else left - 1)))
  }

  /** Frame f has not been handed out. */
  predicate Holds(s: Supply, f: nat) {
    match s
    case Bitmap(ws) => FrameBitmap.IsFree(ws, f)
    case Bump(next, left) => next <= f < next + left
  }

  /** How many frames the supply can still give. */
  function Reserve(s: Supply): nat {
    match s
    case Bitmap(ws) => FrameBitmap.Rooms(ws)
    case Bump(_, left) => left
  }

  /** Frame numbers fit into a table entry; the bitmap is one that a 16-bit
      index can scan. */
  predicate Addressable(s: Supply) {
    match s
    case Bitmap(ws) => |ws| < 0x1_0000
    case Bump(next, left) => next + left <= 0x100_0000_0000
  }

  /** The flags an entry leading to depth d is installed with. */
  function Flags(s: Supply, d: nat): nat {
    if s.Bump? && d == 1 then 3 else 7
  }

  /** The zeroing loop on a new table. */
  function Cleared(m: Memory, z: nat, n: nat): Memory {
    if n == 0 then m else Store(Cleared(m, z, n - 1), z, n - 1, 0)
  }

  datatype Mapped = Mapped(mem: Memory, supply: Supply, result: int)

  /** From table t at depth d downwards: -1 out of frames, 0 mapped, 1 already mapped. */
  function MapFrom(m: Memory, s: Supply, t: nat, d: nat, page: nat, frame: nat): Mapped
    requires d <= 3
    decreases 3 - d
  {
    var i := Prefix(page, d + 1) % 512;
    if Present(Load(m, t, i)) then
      if d == 3 then Mapped(m, s, 1) else MapFrom(m, s, FrameOf(Load(m, t, i)), d + 1, page, frame)
    else if d == 3 then
      Mapped(Store(m, t, i, Entry(7, frame)), s, 0)
    else
      match Draw(s)
      case None => Mapped(m, s, -1)
      case Some((z, s')) => MapFrom(Installed(m, s, t, i, d + 1, z), s', z, d + 1, page, frame)
  }

  function Installed(m: Memory, s: Supply, t: nat, i: nat, d: nat, z: nat): Memory {
    Store(Cleared(m, z, 512), t, i, Entry(Flags(s, d), z))
  }

  /** How many tables are missing below depth d on the way to a page. */
  function Missing(m: Memory, root: nat, page: nat, d: nat): nat
    requires d <= 3
    decreases 3 - d
  {
    if d == 3 then 0
    else Missing(m, root, page, d + 1) + if Walk(m, root, d + 1, Prefix(page, d + 1)) == Absent then 1 else 0
  }

  // ---------------------------------------------------------------------------
  // Invariant
  // ---------------------------------------------------------------------------

  ghost predicate Reserved(m: Memory, root: nat, v: set<nat>, leaves: bool, s: Supply) {
    forall d, q | Counted(v, leaves, d, q) && Walk(m, root, d, q).Table? :: !Holds(s, Walk(m, root, d, q).frame)
  }

  /** The tables under the slots v are unshared and free of large pages, and no
      frame in use is still in the supply. With `leaves`, the pages mapped
      under v have distinct frames of their own too. */
  ghost predicate Good(m: Memory, root: nat, v: set<nat>, leaves: bool, s: Supply) {
    && Private(m, root, v, leaves)
    && NoHuge(m, root, v)
    && Reserved(m, root, v, leaves, s)
    && Addressable(s)
  }

  lemma DrawIs(s: Supply)
    requires Draw(s).Some? && Reserve(s) > 0 && Addressable(s)
    ensures var (z, s') := Draw(s).value;
            && Holds(s, z) && z < 0x100_0000_0000 && Addressable(s') && s'.Bump? == s.Bump?
            && Reserve(s') == Reserve(s) - 1
            && (forall f: nat :: Holds(s', f) <==> Holds(s, f) && f != z)
  {
    match s
    case Bitmap(ws) =>
      FrameBitmap.TakeIs(ws);
      FrameBitmap.TakeUsesOneRoom(ws);
    case Bump(_, _) =>
  }

  lemma DrawFailsIff(s: Supply)
    ensures Draw(s).None? <==> s.Bitmap? && Reserve(s) == 0
  {
    if s.Bitmap? {
      FrameBitmap.RoomsPositive(s.words);
    }
  }

  lemma {:induction false} ClearedIs(m: Memory, z: nat, n: nat)
    ensures forall f: nat, j: nat :: Load(Cleared(m, z, n), f, j) == if f == z && j < n then 0 else Load(m, f, j)
  {
    if n > 0 {
      ClearedIs(m, z, n - 1);
      var p := Cleared(m, z, n - 1);
      forall f: nat, j: nat
        ensures Load(Cleared(m, z, n), f, j) == if f == z && j < n then 0 else Load(m, f, j)
      {
        assert Load(Store(p, z, n - 1, 0), f, j) == if f == z && j == n - 1 then 0 else Load(p, f, j);
      }
    }
  }

  lemma EntryIs(flags: nat, z: nat, d: nat)
    requires flags == 3 || flags == 7
    requires z < 0x100_0000_0000
    ensures Follow(Entry(flags, z), d) == Table(z)
  {
    hide FrameOf, Present, Large;
    Fields(0, z, flags);
    assert flags % 2 == 1 && flags / 0x80 % 2 == 0;
  }

  lemma InstalledWrites(m: Memory, s: Supply, t: nat, i: nat, d: nat, z: nat)
    ensures Wrote(m, Installed(m, s, t, i, d, z), t, i, Entry(Flags(s, d), z), Some(z))
  {
    ClearedIs(m, z, 512);
  }

  /** A write that makes the managed path (d, x) end at a frame z new to all
      counted paths keeps the invariant. */
  lemma GoodAfterWrite(m: Memory, m': Memory, root: nat, v: set<nat>, leaves: bool, s: Supply, s': Supply, d: nat,
        x: nat, z: nat)
    requires Good(m, root, v, leaves, s) && Addressable(s') && forall f: nat :: Holds(s', f) ==> Holds(s, f)
    requires IsPath(d, x) && Managed(v, d, x)
    requires Counted(v, leaves, d, x) ==> Unreached(m, root, v, leaves, z) && !Holds(s', z)
    requires forall e: nat, r: nat | IsPath(e, r) :: Walk(m', root, e, r) == if e == d && r == x then Table(z) else Walk(m, root, e, r)
    ensures Good(m', root, v, leaves, s')
  {
    forall e, r | Counted(v, leaves, e, r) && Managed(v, e, r)
      ensures Unique(m', root, v, leaves, e, r)
    {
      assert Unique(m, root, v, leaves, e, r);
    }
  }

  lemma ParentManaged(v: set<nat>, d: nat, q: nat)
    requires d > 0 && Managed(v, d, q)
    ensures Managed(v, d - 1, q / 512)
  {
  }

  /** A private table is reached along one path. */
  lemma PrivateTableOnlyAt(m: Memory, root: nat, v: set<nat>, leaves: bool, d: nat, q: nat)
    requires Private(m, root, v, leaves) && d <= 3 && IsPath(d, q) && Managed(v, d, q) && Walk(m, root, d, q).Table?
    ensures OnlyAt(m, root, Walk(m, root, d, q).frame, d, q)
  {
    assert Unique(m, root, v, leaves, d, q);
  }

  // ---------------------------------------------------------------------------
  // One step of the walk
  // ---------------------------------------------------------------------------

  /** Table t is where the walk to `page` stands at depth d. */
  ghost predicate At(m: Memory, root: nat, v: set<nat>, page: nat, t: nat, d: nat) {
    && d <= 3 && page < PAGES
    && IsPath(d + 1, Prefix(page, d + 1)) && Managed(v, d + 1, Prefix(page, d + 1))
    && Walk(m, root, d, Prefix(page, d)) == Table(t)
  }

  lemma Child(m: Memory, root: nat, v: set<nat>, leaves: bool, s: Supply, page: nat, t: nat, d: nat)
    requires Good(m, root, v, leaves, s) && At(m, root, v, page, t, d)
    ensures var w := Load(m, t, Prefix(page, d + 1) % 512);
            Walk(m, root, d + 1, Prefix(page, d + 1)) == if Present(w) then Table(FrameOf(w)) else Absent
  {
    assert !Walk(m, root, d + 1, Prefix(page, d + 1)).Huge?;
  }

  /** Installing a table below t. */
  lemma InstallStep(m: Memory, root: nat, v: set<nat>, leaves: bool, s: Supply, page: nat, t: nat, d: nat)
    requires Good(m, root, v, leaves, s) && At(m, root, v, page, t, d) && d < 3
    requires !Present(Load(m, t, Prefix(page, d + 1) % 512))
    requires Draw(s).Some? && Reserve(s) > 0
    ensures var (z, s') := Draw(s).value;
            var x := Prefix(page, d + 1);
            var m' := Installed(m, s, t, x % 512, d + 1, z);
            && Good(m', root, v, leaves, s')
            && (forall e: nat, r: nat | IsPath(e, r) ::
                  Walk(m', root, e, r) == if e == d + 1 && r == x then Table(z) else Walk(m, root, e, r))
  {
    var (z, s') := Draw(s).value;
    var x := Prefix(page, d + 1);
    var m' := Installed(m, s, t, x % 512, d + 1, z);
    var w := Entry(Flags(s, d + 1), z);
    DrawIs(s);
    EntryIs(Flags(s, d + 1), z, d + 1);
    InstallSafe(m, root, v, leaves, s, page, t, d, z);
    HeldIsUnreached(m, root, v, leaves, s, z);
    hide *;
    forall e: nat, r: nat | IsPath(e, r)
      ensures Walk(m', root, e, r) == if e == d + 1 && r == x then Table(z) else Walk(m, root, e, r)
    {
      WriteChangesOnePath(m, m', root, t, d + 1, x, w, Some(z), e, r);
    }
    GoodAfterWrite(m, m', root, v, leaves, s, s', d + 1, x, z);
  }

  lemma InstallSafe(m: Memory, root: nat, v: set<nat>, leaves: bool, s: Supply, page: nat, t: nat, d: nat, z: nat)
    requires Good(m, root, v, leaves, s) && At(m, root, v, page, t, d) && d < 3
    requires !Present(Load(m, t, Prefix(page, d + 1) % 512))
    requires Holds(s, z) && z < 0x100_0000_0000
    ensures var x := Prefix(page, d + 1);
            var w := Entry(Flags(s, d + 1), z);
            SafeWrite(m, Installed(m, s, t, x % 512, d + 1, z), root, t, d + 1, x, w, Some(z))
  {
    var x := Prefix(page, d + 1);
    EntryIs(Flags(s, d + 1), z, d + 1);
    InstalledWrites(m, s, t, x % 512, d + 1, z);
    Child(m, root, v, leaves, s, page, t, d);
    ParentIsPath(d + 1, x);
    ParentManaged(v, d + 1, x);
    assert Prefix(page, d) == x / 512;
    PrivateTableOnlyAt(m, root, v, leaves, d, x / 512);
    HeldIsUnreached(m, root, v, leaves, s, z);
    assert Counted(v, leaves, d, x / 512) && z != t;
    hide Private, Reserved, NoHuge, Installed, Wrote, OnlyAt, NowhereTable;
  }

  lemma HeldIsUnreached(m: Memory, root: nat, v: set<nat>, leaves: bool, s: Supply, z: nat)
    requires Reserved(m, root, v, leaves, s) && Holds(s, z)
    ensures Unreached(m, root, v, leaves, z) && NowhereTable(m, root, z)
  {
    forall e: nat, r: nat | Counted(v, leaves, e, r)
      ensures Walk(m, root, e, r) != Table(z)
    {
    }
    forall e: nat, r: nat | e <= 3 && IsPath(e, r)
      ensures Walk(m, root, e, r) != Table(z)
    {
      assert Counted(v, leaves, e, r);
    }
  }

  /** Writing the last-level entry. */
  lemma LeafStep(m: Memory, root: nat, v: set<nat>, leaves: bool, s: Supply, page: nat, t: nat, frame: nat)
    requires Good(m, root, v, leaves, s) && At(m, root, v, page, t, 3)
    requires frame < 0x100_0000_0000
    requires leaves ==> Unreached(m, root, v, leaves, frame) && !Holds(s, frame)
    ensures var m' := Store(m, t, page % 512, Entry(7, frame));
            && Good(m', root, v, leaves, s)
            && (forall e: nat, r: nat | IsPath(e, r) ::
                  Walk(m', root, e, r) == if e == 4 && r == page then Table(frame) else Walk(m, root, e, r))
  {
    var m' := Store(m, t, page % 512, Entry(7, frame));
    EntryIs(7, frame, 4);
    ParentIsPath(4, page);
    ParentManaged(v, 4, page);
    PrivateTableOnlyAt(m, root, v, leaves, 3, page / 512);
    assert SafeWrite(m, m', root, t, 4, page, Entry(7, frame), None);
    forall e: nat, r: nat | IsPath(e, r)
      ensures Walk(m', root, e, r) == if e == 4 && r == page then Table(frame) else Walk(m, root, e, r)
    {
      WriteChangesOnePath(m, m', root, t, 4, page, Entry(7, frame), None, e, r);
    }
    GoodAfterWrite(m, m', root, v, leaves, s, s, 4, page, frame);
  }

  // ---------------------------------------------------------------------------
  // The whole walk
  // ---------------------------------------------------------------------------

  /** Walks change only along the path to `page`, and only where there was nothing. */
  ghost predicate GrowsAlong(m: Memory, m': Memory, root: nat, page: nat) {
    forall e: nat, r: nat | IsPath(e, r) ::
      Walk(m', root, e, r) == Walk(m, root, e, r) || (Walk(m, root, e, r) == Absent && r == Prefix(page, e))
  }

  /** What mapping `page` to `frame` from depth d has done. */
  ghost predicate MappedPage(m: Memory, s: Supply, root: nat, v: set<nat>, leaves: bool, page: nat, d: nat,
        frame: nat, r: Mapped)
    requires d <= 3
  {
    && Good(r.mem, root, v, leaves, r.supply)
    && GrowsAlong(m, r.mem, root, page)
    && r.supply.Bump? == s.Bump? && (forall f: nat :: Holds(r.supply, f) ==> Holds(s, f))
    && (if Walk(m, root, 4, page).Table? then r == Mapped(m, s, 1)
        else if Reserve(s) < Missing(m, root, page, d) then
          r.result == -1 && Walk(r.mem, root, 4, page) == Walk(m, root, 4, page) == Absent
        else
          && r.result == 0 && Walk(r.mem, root, 4, page) == Table(frame)
          && Reserve(r.supply) == Reserve(s) - Missing(m, root, page, d))
    && (r.result >= 0 ==> forall e | d <= e <= 3 :: Walk(r.mem, root, e, Prefix(page, e)).Table?)
  }

  lemma MissingSame(m: Memory, m': Memory, root: nat, page: nat, d: nat)
    requires d <= 3 && forall e | d < e <= 3 :: Walk(m', root, e, Prefix(page, e)) == Walk(m, root, e, Prefix(page, e))
    ensures Missing(m', root, page, d) == Missing(m, root, page, d)
    decreases 3 - d
  {
    if d < 3 {
      MissingSame(m, m', root, page, d + 1);
    }
  }

  lemma AbsentBelow(m: Memory, root: nat, page: nat, d: nat)
    requires d <= 4 && Walk(m, root, d, Prefix(page, d)) == Absent
    ensures Walk(m, root, 4, page) == Absent
    decreases 4 - d
  {
    if d < 4 {
      assert Prefix(page, d) == Prefix(page, d + 1) / 512;
      AbsentBelow(m, root, page, d + 1);
    }
  }

  lemma NextAt(m: Memory, root: nat, v: set<nat>, page: nat, t: nat, d: nat, t': nat)
    requires At(m, root, v, page, t, d) && d < 3 && page < PAGES && Managed(v, 4, page)
    requires Walk(m, root, d + 1, Prefix(page, d + 1)) == Table(t')
    ensures At(m, root, v, page, t', d + 1)
  {
    PrefixIsPath(page, d + 2);
    ManagedPrefix(v, page, d + 2);
  }

  lemma ManagedPrefix(v: set<nat>, page: nat, d: nat)
    requires d <= 4 && Managed(v, 4, page)
    ensures Managed(v, d, Prefix(page, d))
    decreases 4 - d
  {
    if d < 4 {
      ManagedPrefix(v, page, d + 1);
      assert Prefix(page, d) == Prefix(page, d + 1) / 512;
      ParentManaged(v, d + 1, Prefix(page, d + 1));
    }
  }

  lemma MappedAfterInstall(m: Memory, s: Supply, m': Memory, s': Supply, root: nat, v: set<nat>, leaves: bool,
        page: nat, d: nat, frame: nat, r: Mapped)
    requires d < 3 && page < PAGES
    requires GrowsAlong(m, m', root, page) && Walk(m, root, d + 1, Prefix(page, d + 1)) == Absent
    requires Walk(m', root, 4, page) == Walk(m, root, 4, page) == Absent && Walk(m', root, d, Prefix(page, d)).Table?
    requires Missing(m', root, page, d + 1) == Missing(m, root, page, d + 1)
    requires s'.Bump? == s.Bump? && (forall f: nat :: Holds(s', f) ==> Holds(s, f)) && Reserve(s') == Reserve(s) - 1
    requires MappedPage(m', s', root, v, leaves, page, d + 1, frame, r)
    ensures MappedPage(m, s, root, v, leaves, page, d, frame, r)
  {
    assert Missing(m, root, page, d) == Missing(m, root, page, d + 1) + 1;
    PrefixIsPath(page, d);
  }

  lemma MappedAfterPresent(m: Memory, s: Supply, root: nat, v: set<nat>, leaves: bool, page: nat, d: nat, frame: nat,
        r: Mapped)
    requires d < 3 && page < PAGES && Walk(m, root, d, Prefix(page, d)).Table? && Walk(m, root, d + 1, Prefix(page, d + 1)).Table?
    requires MappedPage(m, s, root, v, leaves, page, d + 1, frame, r)
    ensures MappedPage(m, s, root, v, leaves, page, d, frame, r)
  {
    assert Missing(m, root, page, d) == Missing(m, root, page, d + 1);
    PrefixIsPath(page, d);
  }

  lemma MappedLeaf(m: Memory, s: Supply, root: nat, v: set<nat>, leaves: bool, page: nat, t: nat, frame: nat)
    requires Good(m, root, v, leaves, s) && At(m, root, v, page, t, 3) && frame < 0x100_0000_0000
    requires leaves ==> Unreached(m, root, v, leaves, frame) && !Holds(s, frame)
    ensures MappedPage(m, s, root, v, leaves, page, 3, frame, MapFrom(m, s, t, 3, page, frame))
  {
    Child(m, root, v, leaves, s, page, t, 3);
    PrefixIsPath(page, 3);
    if !Present(Load(m, t, page % 512)) {
      LeafStep(m, root, v, leaves, s, page, t, frame);
    }
  }

  lemma MappedNoFrame(m: Memory, s: Supply, root: nat, v: set<nat>, leaves: bool, page: nat, d: nat, frame: nat)
    requires Good(m, root, v, leaves, s) && d < 3 && Draw(s).None?
    requires Walk(m, root, d + 1, Prefix(page, d + 1)) == Absent
    ensures MappedPage(m, s, root, v, leaves, page, d, frame, Mapped(m, s, -1))
  {
    AbsentBelow(m, root, page, d + 1);
    DrawFailsIff(s);
  }

  lemma {:induction false} MapFromIs(m: Memory, s: Supply, root: nat, v: set<nat>, leaves: bool, page: nat, t: nat,
        d: nat, frame: nat)
    requires Good(m, root, v, leaves, s) && At(m, root, v, page, t, d) && Managed(v, 4, page)
    requires frame < 0x100_0000_0000
    requires leaves ==> Unreached(m, root, v, leaves, frame) && !Holds(s, frame)
    requires s.Bump? ==> Missing(m, root, page, d) <= Reserve(s)
    ensures MappedPage(m, s, root, v, leaves, page, d, frame, MapFrom(m, s, t, d, page, frame))
    decreases 3 - d, 1
  {
    var x := Prefix(page, d + 1);
    var w := Load(m, t, x % 512);
    if d == 3 {
      MappedLeaf(m, s, root, v, leaves, page, t, frame);
    } else if Present(w) {
      Child(m, root, v, leaves, s, page, t, d);
      NextAt(m, root, v, page, t, d, FrameOf(w));
      MapFromIs(m, s, root, v, leaves, page, FrameOf(w), d + 1, frame);
      MappedAfterPresent(m, s, root, v, leaves, page, d, frame, MapFrom(m, s, t, d, page, frame));
    } else {
      Child(m, root, v, leaves, s, page, t, d);
      if Draw(s).None? {
        MappedNoFrame(m, s, root, v, leaves, page, d, frame);
      } else {
        MapFromInstall(m, s, root, v, leaves, page, t, d, frame);
      }
    }
  }

  lemma {:induction false} MapFromInstall(m: Memory, s: Supply, root: nat, v: set<nat>, leaves: bool, page: nat,
        t: nat, d: nat, frame: nat)
    requires Good(m, root, v, leaves, s) && At(m, root, v, page, t, d) && Managed(v, 4, page)
    requires frame < 0x100_0000_0000
    requires leaves ==> Unreached(m, root, v, leaves, frame) && !Holds(s, frame)
    requires s.Bump? ==> Missing(m, root, page, d) <= Reserve(s)
    requires d < 3 && Draw(s).Some? && !Present(Load(m, t, Prefix(page, d + 1) % 512))
    requires Walk(m, root, d + 1, Prefix(page, d + 1)) == Absent
    ensures MappedPage(m, s, root, v, leaves, page, d, frame, MapFrom(m, s, t, d, page, frame))
    decreases 3 - d, 0
  {
    assert Addressable(s) && page < PAGES;
    hide Good, Holds, Reserve, Addressable, Managed, Span, Unreached, Walk, Installed, Descend, MappedPage, At;
    var x := Prefix(page, d + 1);
    var (z, s') := Draw(s).value;
    var m' := Installed(m, s, t, x % 512, d + 1, z);
    AbsentBelow(m, root, page, d + 1);
    DrawFailsIff(s);
    DrawIs(s);
    InstallStep(m, root, v, leaves, s, page, t, d);
    AfterInstall(m, m', s, root, v, leaves, page, t, d, z, frame);
    MapFromIs(m', s', root, v, leaves, page, z, d + 1, frame);
    MappedAfterInstall(m, s, m', s', root, v, leaves, page, d, frame, MapFrom(m, s, t, d, page, frame));
  }

  lemma AfterInstall(m: Memory, m': Memory, s: Supply, root: nat, v: set<nat>, leaves: bool, page: nat, t: nat,
        d: nat, z: nat, frame: nat)
    requires d < 3 && At(m, root, v, page, t, d) && Managed(v, 4, page) && Walk(m, root, d + 1, Prefix(page, d + 1)) == Absent
    requires Holds(s, z) && (leaves ==> Unreached(m, root, v, leaves, frame) && !Holds(s, frame))
    requires forall e: nat, r: nat | IsPath(e, r) ::
               Walk(m', root, e, r) == if e == d + 1 && r == Prefix(page, d + 1) then Table(z) else Walk(m, root, e, r)
    ensures At(m', root, v, page, z, d + 1) && GrowsAlong(m, m', root, page)
    ensures Missing(m', root, page, d + 1) == Missing(m, root, page, d + 1)
    ensures Walk(m', root, 4, page) == Walk(m, root, 4, page) && Walk(m', root, d, Prefix(page, d)).Table?
    ensures leaves ==> Unreached(m', root, v, leaves, frame)
  {
    forall e | d <= e <= 4 ensures IsPath(e, Prefix(page, e)) {
      PrefixIsPath(page, e);
    }
    hide Span, Managed, Walk;
    MissingSame(m, m', root, page, d + 1);
    NextAt(m', root, v, page, t, d, z);
  }

  // ---------------------------------------------------------------------------
  // Frames drawn
  // ---------------------------------------------------------------------------

  /** The supply after n draws, or after as many as succeed. */
  function DrawnTimes(s: Supply, n: nat): (r: Supply)
    ensures r.Bitmap? == s.Bitmap?
    decreases n
  {
    if n == 0 then s
    else
      match Draw(s)
      case None => s
      case Some((_, s')) => DrawnTimes(s', n - 1)
  }

  lemma {:induction false} DrawnMore(s: Supply, a: nat, b: nat)
    ensures DrawnTimes(s, a + b) == DrawnTimes(DrawnTimes(s, a), b)
    decreases a
  {
    if a > 0 {
      match Draw(s)
      case None =>
      case Some((_, s')) => DrawnMore(s', a - 1, b);
    }
  }

  /** A bitmap has that many rooms fewer, or none. */
  lemma {:induction false} DrawnRooms(s: Supply, n: nat)
    requires s.Bitmap?
    ensures Reserve(DrawnTimes(s, n)) == if n <= Reserve(s) then Reserve(s) - n else 0
    decreases n
  {
    DrawFailsIff(s);
    if n > 0 && Draw(s).Some? {
      FrameBitmap.TakeUsesOneRoom(s.words);
      DrawnRooms(Draw(s).value.1, n - 1);
    }
  }

  /** Whatever comes of it, mapping a page draws a frame for each missing table,
      or all there are, and no other. */
  lemma {:induction false} MapFromDraws(m: Memory, s: Supply, root: nat, v: set<nat>, page: nat, t: nat, d: nat, frame: nat)
    requires Good(m, root, v, false, s) && d <= 3 && page < PAGES && At(m, root, v, page, t, d) && Managed(v, 4, page)
    requires s.Bump? ==> Missing(m, root, page, d) <= Reserve(s)
    ensures MapFrom(m, s, t, d, page, frame).supply == DrawnTimes(s, Missing(m, root, page, d))
    decreases 3 - d
  {
    hide Good, Managed, Span, Walk, Installed, At, Holds, Reserve, Addressable, Unreached, Draw;
    if d < 3 {
      var w := Load(m, t, Prefix(page, d + 1) % 512);
      Child(m, root, v, false, s, page, t, d);
      if Present(w) {
        NextAt(m, root, v, page, t, d, FrameOf(w));
        MapFromDraws(m, s, root, v, page, FrameOf(w), d + 1, frame);
      } else if Draw(s).Some? {
        var (z, s') := Draw(s).value;
        DrawnNext(m, s, root, v, page, t, d);
        MapFromDraws(Installed(m, s, t, Prefix(page, d + 1) % 512, d + 1, z), s', root, v, page, z, d + 1, frame);
      }
    }
  }

  lemma DrawnNext(m: Memory, s: Supply, root: nat, v: set<nat>, page: nat, t: nat, d: nat)
    requires Good(m, root, v, false, s) && d < 3 && page < PAGES && At(m, root, v, page, t, d) && Managed(v, 4, page)
    requires s.Bump? ==> Missing(m, root, page, d) <= Reserve(s)
    requires Draw(s).Some? && !Present(Load(m, t, Prefix(page, d + 1) % 512))
    ensures var (z, s') := Draw(s).value;
            var m' := Installed(m, s, t, Prefix(page, d + 1) % 512, d + 1, z);
            && Good(m', root, v, false, s') && At(m', root, v, page, z, d + 1)
            && Missing(m, root, page, d) == 1 + Missing(m', root, page, d + 1)
            && (s'.Bump? ==> Missing(m', root, page, d + 1) <= Reserve(s'))
  {
    assert Addressable(s);
    hide Good, Managed, Span, Walk, Installed, At, Holds, Reserve, Addressable, Unreached;
    var (z, s') := Draw(s).value;
    Child(m, root, v, false, s, page, t, d);
    DrawFailsIff(s);
    DrawIs(s);
    InstallStep(m, root, v, false, s, page, t, d);
    AfterInstall(m, Installed(m, s, t, Prefix(page, d + 1) % 512, d + 1, z), s, root, v, false, page, t, d, z, 0);
  }
}
