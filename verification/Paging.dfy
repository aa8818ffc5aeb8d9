/**
 The kernel's page mapper. A physical address p is read and written both as p
 and as offset + p, so a table is named by its frame number throughout.
 */
module Paging {
  import opened Options
  import opened Words
  import opened Addresses
  import opened PageTables
  import opened Mapping
  import FrameBitmap

  /** page_map. */
  function MapPage(m: Memory, s: Supply, root: nat, va: nat, phys: nat): Mapped {
    MapFrom(m, s, root, 0, Page(va), FrameOf(phys))
  }

  /** page_unmap, past its range check: three entries are read without looking
      at their present bits, and the present bit of a fourth is cleared. */
  function LastTable(m: Memory, root: nat, page: nat): nat {
    var l3 := FrameOf(Load(m, root, page / 512 / 512 / 512 % 512));
    var l2 := FrameOf(Load(m, l3, page / 512 / 512 % 512));
    FrameOf(Load(m, l2, page / 512 % 512))
  }

  function Unmapped(m: Memory, root: nat, page: nat): Memory {
    var t := LastTable(m, root, page);
    var w := Load(m, t, page % 512);
    Store(m, t, page % 512, w - w % 2)
  }

  /** The check by which page_unmap refuses an address. */
  predicate Refused(offset: nat, va: nat) {
    offset <= va <= 0x0000_FF80_0000_0000
  }

  // ---------------------------------------------------------------------------
  // page_map refines a point update of the translation
  // ---------------------------------------------------------------------------

  lemma RootAt(m: Memory, root: nat, v: set<nat>, page: nat)
    requires page < PAGES && Managed(v, 4, page)
    ensures At(m, root, v, page, root, 0)
  {
    PrefixIsPath(page, 1);
    ManagedPrefix(v, page, 1);
  }

  lemma ManagedPage(v: set<nat>, va: nat)
    ensures Page(va) < PAGES
    ensures Managed(v, 4, Page(va)) <==> Pml4Index(va) in v
  {
    PageDigits(va);
    assert Managed(v, 4, Page(va)) == Managed(v, 3, Page(va) / 512) == Managed(v, 2, Page(va) / 512 / 512);
  }

  /** For every memory with a private walk: 0 means that exactly the page of
      `va` changed, from unmapped to the masked frame; 1, returned just when the
      page is mapped already, leaves memory and frames untouched; -1, returned
      just when the page is unmapped and fewer frames can be drawn than tables
      are missing, leaves every translation as it was. */
  lemma MapPageRefines(m: Memory, s: Supply, root: nat, v: set<nat>, va: nat, phys: nat)
    requires Good(m, root, v, false, s) && Pml4Index(va) in v
    requires s.Bump? ==> Missing(m, root, Page(va), 0) <= Reserve(s)
    ensures var r := MapPage(m, s, root, va, phys);
            && Good(r.mem, root, v, false, r.supply) && r.supply.Bump? == s.Bump? && -1 <= r.result <= 1
            && (r.result == 1 <==> Translate(m, root, Page(va)).Some?)
            && (r.result == -1 <==> Translate(m, root, Page(va)).None? && Reserve(s) < Missing(m, root, Page(va), 0))
            && (r.result == 1 ==> r.mem == m && r.supply == s)
            && (r.result == 0 ==> Reserve(r.supply) == Reserve(s) - Missing(m, root, Page(va), 0))
            && (forall p: nat | p < PAGES :: Translate(r.mem, root, p) ==
                  if r.result == 0 && p == Page(va) then Some(FrameOf(phys)) else Translate(m, root, p))
  {
    var page := Page(va);
    ManagedPage(v, va);
    RootAt(m, root, v, page);
    MapFromIs(m, s, root, v, false, page, root, 0, FrameOf(phys));
    TranslationsAfter(m, s, root, v, false, page, FrameOf(phys), MapPage(m, s, root, va, phys));
  }

  lemma TranslationsAfter(m: Memory, s: Supply, root: nat, v: set<nat>, leaves: bool, page: nat, frame: nat, r: Mapped)
    requires page < PAGES && Managed(v, 4, page) && NoHuge(m, root, v)
    requires MappedPage(m, s, root, v, leaves, page, 0, frame, r)
    ensures -1 <= r.result <= 1 && (r.result == 1 <==> Translate(m, root, page).Some?)
    ensures r.result == -1 <==> Translate(m, root, page).None? && Reserve(s) < Missing(m, root, page, 0)
    ensures forall p: nat | p < PAGES :: Translate(r.mem, root, p) ==
              if r.result == 0 && p == page then Some(frame) else Translate(m, root, p)
  {
    PrefixIsPath(page, 4);
    assert !Walk(m, root, 4, page).Huge?;
    forall p: nat | p < PAGES
      ensures Translate(r.mem, root, p) == if r.result == 0 && p == page then Some(frame) else Translate(m, root, p)
    {
      PrefixIsPath(p, 4);
      assert Prefix(page, 4) == page;
    }
  }

  // ---------------------------------------------------------------------------
  // page_unmap
  // ---------------------------------------------------------------------------

  lemma LastTableIs(m: Memory, root: nat, v: set<nat>, leaves: bool, s: Supply, page: nat)
    requires Good(m, root, v, leaves, s) && page < PAGES && Managed(v, 4, page)
    requires Walk(m, root, 3, page / 512).Table?
    ensures Walk(m, root, 3, page / 512) == Table(LastTable(m, root, page))
  {
    assert Walk(m, root, 3, page / 512) == Descend(m, Walk(m, root, 2, page / 512 / 512), page / 512 % 512, 3);
    assert Walk(m, root, 2, page / 512 / 512) == Descend(m, Walk(m, root, 1, page / 512 / 512 / 512), page / 512 / 512 % 512, 2);
    assert Walk(m, root, 1, page / 512 / 512 / 512) == Descend(m, Table(root), page / 512 / 512 / 512 % 512, 1);
  }

  /** The walk reaches a last-level table; or the word that the code clears
      instead, following the address fields of absent entries, is not present. */
  ghost predicate Erasable(m: Memory, root: nat, page: nat) {
    Walk(m, root, 3, page / 512).Table? || !Present(Load(m, LastTable(m, root, page), page % 512))
  }

  /** Then exactly the given page becomes unmapped, and the invariant is kept. */
  lemma UnmapIs(m: Memory, root: nat, v: set<nat>, leaves: bool, s: Supply, page: nat)
    requires Good(m, root, v, leaves, s) && page < PAGES && Managed(v, 4, page) && Erasable(m, root, page)
    ensures var m' := Unmapped(m, root, page);
            && Good(m', root, v, leaves, s)
            && (forall e: nat, r: nat | IsPath(e, r) ::
                  Walk(m', root, e, r) == if e == 4 && r == page then Absent else Walk(m, root, e, r))
            && (forall p: nat | p < PAGES :: Translate(m', root, p) == if p == page then None else Translate(m, root, p))
  {
    var m' := Unmapped(m, root, page);
    if Walk(m, root, 3, page / 512).Table? {
      UnmapWalks(m, root, v, leaves, s, page);
    } else {
      UnmapNothing(m, root, v, leaves, s, page);
    }
    hide Unmapped;
    GoodAfterErase(m, m', root, v, leaves, s, page);
    TranslationsAfterErase(m, m', root, page);
  }

  /** Unmapping one page leaves the others erasable. */
  lemma ErasableStays(m: Memory, root: nat, q: nat, page: nat)
    requires Erasable(m, root, page)
    requires Walk(Unmapped(m, root, q), root, 3, page / 512) == Walk(m, root, 3, page / 512)
    ensures Erasable(Unmapped(m, root, q), root, page)
  {
    hide Unmapped, Walk;
    var m' := Unmapped(m, root, q);
    forall f: nat, j: nat
      ensures FrameOf(Load(m', f, j)) == FrameOf(Load(m, f, j)) && (Present(Load(m', f, j)) ==> Present(Load(m, f, j)))
    {
      UnmapTouchesOneWord(m, root, q, f, j);
      ClearedField(Load(m, f, j));
    }
  }

  lemma ClearedField(w: nat)
    ensures FrameOf(w - w % 2) == FrameOf(w) && !Present(w - w % 2)
  {
    HalvedTwice(w);
    HalvedTwice(w - w % 2);
    assert (w - w % 2) / 2 == w / 2;
  }

  lemma HalvedTwice(x: nat)
    ensures x / 0x1000 == x / 2 / 0x800
  {
  }

  /** What page_unmap does in any case: it clears the present bit of one word,
      wherever the address fields it follows have led. */
  lemma UnmapTouchesOneWord(m: Memory, root: nat, page: nat, f: nat, j: nat)
    ensures Load(Unmapped(m, root, page), f, j) ==
              if f == LastTable(m, root, page) && j == page % 512 then Load(m, f, j) - Load(m, f, j) % 2 else Load(m, f, j)
  {
  }

  /** The word whose present bit is cleared, from the address itself. */
  lemma UnmapWord(m: Memory, root: nat, va: nat, f: nat, j: nat)
    ensures var l3 := Load(m, root, va / 0x80_0000_0000 % 512) / 0x1000 % 0x100_0000_0000;
            var l2 := Load(m, l3, va / 0x4000_0000 % 512) / 0x1000 % 0x100_0000_0000;
            var l1 := Load(m, l2, va / 0x20_0000 % 512) / 0x1000 % 0x100_0000_0000;
            Load(Unmapped(m, root, Page(va)), f, j) ==
              if f == l1 && j == va / 0x1000 % 512 then Load(m, f, j) - Load(m, f, j) % 2 else Load(m, f, j)
  {
    hide Page, Unmapped;
    PageDigits(va);
    UnmapTouchesOneWord(m, root, Page(va), f, j);
  }

  /** Under a PML4 entry that is zero the tables are looked for in frame 0, so
      unmapping a page of an unused slot can clear a word that maps another. */
  lemma UnmapAstray(m: Memory, root: nat, page: nat)
    requires Load(m, root, page / 512 / 512 / 512 % 512) == 0
    requires Load(m, 0, page / 512 / 512 % 512) == 0 && Load(m, 0, page / 512 % 512) == 0
    ensures LastTable(m, root, page) == 0
    ensures Load(Unmapped(m, root, page), 0, page % 512) != Load(m, 0, page % 512) <==> Present(Load(m, 0, page % 512))
  {
    assert FrameOf(0) == 0;
    UnmapTouchesOneWord(m, root, page, 0, page % 512);
  }

  /** Exactly the page comes to be unmapped. */
  ghost predicate OnlyErases(m: Memory, m': Memory, root: nat, page: nat) {
    forall e: nat, r: nat | IsPath(e, r) ::
      Walk(m', root, e, r) == if e == 4 && r == page then Absent else Walk(m, root, e, r)
  }

  /** Another path leads through the word that page_unmap clears. */
  ghost predicate LeadsThrough(m: Memory, root: nat, page: nat, d: nat, q: nat) {
    && 1 <= d && IsPath(d, q) && (d != 4 || q != page)
    && Walk(m, root, d - 1, q / 512) == Table(LastTable(m, root, page)) && q % 512 == page % 512
  }

  /** page_unmap does what it should exactly if the page is erasable, or no path
      leads through the word that is cleared in its place. */
  lemma UnmapExactIff(m: Memory, root: nat, v: set<nat>, leaves: bool, s: Supply, page: nat)
    requires Good(m, root, v, leaves, s) && page < PAGES && Managed(v, 4, page)
    ensures OnlyErases(m, Unmapped(m, root, page), root, page) <==>
              Erasable(m, root, page) || forall d: nat, q: nat :: !LeadsThrough(m, root, page, d, q)
  {
    hide Good, Unmapped, Walk, LastTable;
    if Erasable(m, root, page) {
      UnmapIs(m, root, v, leaves, s, page);
    } else if exists d: nat, q: nat :: LeadsThrough(m, root, page, d, q) {
      var d: nat, q: nat :| LeadsThrough(m, root, page, d, q);
      ParentIsPath(d, q);
      if OnlyErases(m, Unmapped(m, root, page), root, page) {
        LedAstray(m, root, page, d, q);
      }
    } else {
      NotMappedAnyway(m, root, v, leaves, s, page);
      forall e: nat, r: nat | IsPath(e, r) ensures Walk(Unmapped(m, root, page), root, e, r) == Walk(m, root, e, r) {
        NobodyLed(m, root, page, e, r);
      }
    }
  }

  lemma NotMappedAnyway(m: Memory, root: nat, v: set<nat>, leaves: bool, s: Supply, page: nat)
    requires Good(m, root, v, leaves, s) && page < PAGES && Managed(v, 4, page) && !Walk(m, root, 3, page / 512).Table?
    ensures Walk(m, root, 4, page) == Absent
  {
    PrefixIsPath(page, 4);
    ParentIsPath(4, page);
    ParentManaged(v, 4, page);
    assert !Walk(m, root, 3, page / 512).Huge?;
  }

  /** What leads through that word is cut off. */
  lemma LedAstray(m: Memory, root: nat, page: nat, d: nat, q: nat)
    requires LeadsThrough(m, root, page, d, q) && !Erasable(m, root, page)
    requires Walk(Unmapped(m, root, page), root, d - 1, q / 512) == Walk(m, root, d - 1, q / 512)
    ensures Walk(Unmapped(m, root, page), root, d, q) == Absent != Walk(m, root, d, q)
  {
    hide Unmapped, LastTable, FrameOf;
    var t := LastTable(m, root, page);
    UnmapTouchesOneWord(m, root, page, t, page % 512);
    ClearedField(Load(m, t, page % 512));
  }

  lemma {:induction false} NobodyLed(m: Memory, root: nat, page: nat, e: nat, r: nat)
    requires IsPath(e, r) && !Erasable(m, root, page) && forall d: nat, q: nat :: !LeadsThrough(m, root, page, d, q)
    ensures Walk(Unmapped(m, root, page), root, e, r) == Walk(m, root, e, r)
    decreases e
  {
    hide Unmapped, LastTable, FrameOf;
    if e > 0 {
      ParentIsPath(e, r);
      NobodyLed(m, root, page, e - 1, r / 512);
      var p := Walk(m, root, e - 1, r / 512);
      if p.Table? {
        UnmapTouchesOneWord(m, root, page, p.frame, r % 512);
        assert !LeadsThrough(m, root, page, e, r);
      }
    }
  }

  /** Tables in which frame 0 is the last-level table of page 7. */
  function Astray(): Memory {
    map[Slot(1, 0) := Entry(7, 2), Slot(2, 0) := Entry(7, 3), Slot(3, 0) := Entry(7, 0), Slot(0, 7) := Entry(7, 9)]
  }

  lemma AstrayWalks()
    ensures Load(Astray(), 1, 0) == Entry(7, 2) && Load(Astray(), 2, 0) == Entry(7, 3) && Load(Astray(), 3, 0) == Entry(7, 0)
    ensures Load(Astray(), 0, 7) == Entry(7, 9) && Load(Astray(), 0, 1) == 0 && Load(Astray(), 1, 5) == 0
  {
  }

  /** Page 7 is mapped, and unmapping a page under the empty slot 5 unmaps it. */
  lemma AnotherPageUnmapped()
    ensures var m, other := Astray(), 5 * 0x800_0000 + 1 * 0x4_0000 + 1 * 512 + 7;
            && other < PAGES && Load(m, 1, 5) == 0
            && Translate(m, 1, 7) == Some(9) && Translate(Unmapped(m, 1, other), 1, 7) == None
  {
    var m, other := Astray(), 5 * 0x800_0000 + 1 * 0x4_0000 + 1 * 512 + 7;
    hide Astray, Load, FrameOf, Present, Large, Unmapped;
    AstrayWalks();
    EntryIs(7, 2, 1);
    EntryIs(7, 3, 2);
    EntryIs(7, 0, 3);
    EntryIs(7, 9, 4);
    UnmapAstray(m, 1, other);
    SevenWalks(m);
    forall f: nat, j: nat
      ensures Load(Unmapped(m, 1, other), f, j) ==
                if f == 0 && j == 7 then Entry(7, 9) - Entry(7, 9) % 2 else Load(m, f, j)
    {
      UnmapTouchesOneWord(m, 1, other, f, j);
    }
    SevenWalks(Unmapped(m, 1, other));
    ClearedEntry(Entry(7, 9));
  }

  lemma SevenWalks(m: Memory)
    requires Load(m, 1, 0) == Entry(7, 2) && Load(m, 2, 0) == Entry(7, 3) && Load(m, 3, 0) == Entry(7, 0)
    ensures Walk(m, 1, 4, 7) == Follow(Load(m, 0, 7), 4)
  {
    hide FrameOf, Present, Large, Follow;
    EntryIs(7, 2, 1);
    EntryIs(7, 3, 2);
    EntryIs(7, 0, 3);
    assert Walk(m, 1, 0, 0) == Table(1);
    assert Walk(m, 1, 1, 0) == Table(2);
    assert Walk(m, 1, 2, 0) == Table(3);
    assert Walk(m, 1, 3, 0) == Table(0);
  }

  lemma UnmapNothing(m: Memory, root: nat, v: set<nat>, leaves: bool, s: Supply, page: nat)
    requires Good(m, root, v, leaves, s) && page < PAGES && Managed(v, 4, page)
    requires !Walk(m, root, 3, page / 512).Table? && !Present(Load(m, LastTable(m, root, page), page % 512))
    ensures forall e: nat, r: nat | IsPath(e, r) ::
              Walk(Unmapped(m, root, page), root, e, r) == if e == 4 && r == page then Absent else Walk(m, root, e, r)
  {
    hide Private, Reserved, Unmapped;
    PrefixIsPath(page, 4);
    ParentIsPath(4, page);
    ParentManaged(v, 4, page);
    assert !Walk(m, root, 3, page / 512).Huge?;
    forall f: nat, j: nat ensures Load(Unmapped(m, root, page), f, j) == Load(m, f, j) {
      UnmapTouchesOneWord(m, root, page, f, j);
    }
    forall e: nat, r: nat | IsPath(e, r) ensures Walk(Unmapped(m, root, page), root, e, r) == Walk(m, root, e, r) {
      SameLoadsSameWalk(m, Unmapped(m, root, page), root, e, r);
    }
  }

  lemma {:induction false} SameLoadsSameWalk(m: Memory, m': Memory, root: nat, d: nat, q: nat)
    requires forall f: nat, j: nat :: Load(m', f, j) == Load(m, f, j)
    ensures Walk(m', root, d, q) == Walk(m, root, d, q)
    decreases d
  {
    if d > 0 {
      SameLoadsSameWalk(m, m', root, d - 1, q / 512);
    }
  }

  lemma UnmapWalks(m: Memory, root: nat, v: set<nat>, leaves: bool, s: Supply, page: nat)
    requires Good(m, root, v, leaves, s) && page < PAGES && Managed(v, 4, page)
    requires Walk(m, root, 3, page / 512).Table?
    ensures forall e: nat, r: nat | IsPath(e, r) ::
              Walk(Unmapped(m, root, page), root, e, r) == if e == 4 && r == page then Absent else Walk(m, root, e, r)
  {
    UnmapSafe(m, root, v, leaves, s, page);
    hide *;
    var m' := Unmapped(m, root, page);
    var t := LastTable(m, root, page);
    var w := Load(m, t, page % 512);
    ClearedEntry(w);
    forall e: nat, r: nat | IsPath(e, r)
      ensures Walk(m', root, e, r) == if e == 4 && r == page then Absent else Walk(m, root, e, r)
    {
      WriteChangesOnePath(m, m', root, t, 4, page, w - w % 2, None, e, r);
    }
  }

  lemma ClearedEntry(w: nat)
    ensures Follow(w - w % 2, 4) == Absent
  {
  }

  lemma UnmapSafe(m: Memory, root: nat, v: set<nat>, leaves: bool, s: Supply, page: nat)
    requires Good(m, root, v, leaves, s) && page < PAGES && Managed(v, 4, page)
    requires Walk(m, root, 3, page / 512).Table?
    ensures var t := LastTable(m, root, page);
            var w := Load(m, t, page % 512);
            SafeWrite(m, Unmapped(m, root, page), root, t, 4, page, w - w % 2, None)
  {
    LastTableIs(m, root, v, leaves, s, page);
    PrefixIsPath(page, 4);
    ParentIsPath(4, page);
    ParentManaged(v, 4, page);
    PrivateTableOnlyAt(m, root, v, leaves, 3, page / 512);
  }

  lemma TranslationsAfterErase(m: Memory, m': Memory, root: nat, page: nat)
    requires forall e: nat, r: nat | IsPath(e, r) :: Walk(m', root, e, r) == if e == 4 && r == page then Absent else Walk(m, root, e, r)
    ensures forall p: nat | p < PAGES :: Translate(m', root, p) == if p == page then None else Translate(m, root, p)
  {
    forall p: nat | p < PAGES ensures Translate(m', root, p) == if p == page then None else Translate(m, root, p) {
      PrefixIsPath(p, 4);
    }
  }

  lemma GoodAfterErase(m: Memory, m': Memory, root: nat, v: set<nat>, leaves: bool, s: Supply, page: nat)
    requires Good(m, root, v, leaves, s)
    requires forall e: nat, r: nat | IsPath(e, r) :: Walk(m', root, e, r) == if e == 4 && r == page then Absent else Walk(m, root, e, r)
    ensures Good(m', root, v, leaves, s)
  {
    forall e, r | Counted(v, leaves, e, r) && Managed(v, e, r)
      ensures Unique(m', root, v, leaves, e, r)
    {
      assert Unique(m, root, v, leaves, e, r);
    }
  }

  /** A page whose walk has all its tables. */
  ghost predicate HasTables(m: Memory, root: nat, page: nat) {
    forall e | 0 <= e <= 3 :: Walk(m, root, e, Prefix(page, e)).Table?
  }

  /** A page with all its tables needs no frame: mapping it cannot fail for want of one. */
  lemma TablesSuffice(m: Memory, s: Supply, root: nat, va: nat, phys: nat)
    requires HasTables(m, root, Page(va))
    ensures Missing(m, root, Page(va), 0) == 0
    ensures MapPage(m, s, root, va, phys).supply == s
  {
    NothingMissing(m, root, Page(va), 0);
    RemapUsesNoFrame(m, s, root, Page(va), root, 0, FrameOf(phys));
  }

  lemma MappedHasTables(m: Memory, s: Supply, root: nat, v: set<nat>, va: nat, phys: nat)
    requires Good(m, root, v, false, s) && Pml4Index(va) in v
    requires s.Bump? ==> Missing(m, root, Page(va), 0) <= Reserve(s)
    requires MapPage(m, s, root, va, phys).result >= 0
    ensures HasTables(MapPage(m, s, root, va, phys).mem, root, Page(va))
  {
    ManagedPage(v, va);
    RootAt(m, root, v, Page(va));
    MapFromIs(m, s, root, v, false, Page(va), root, 0, FrameOf(phys));
  }

  lemma UnmapKeepsTables(m: Memory, root: nat, v: set<nat>, leaves: bool, s: Supply, page: nat)
    requires Good(m, root, v, leaves, s) && page < PAGES && Managed(v, 4, page) && HasTables(m, root, page)
    ensures HasTables(Unmapped(m, root, page), root, page) && Walk(m, root, 3, page / 512).Table?
  {
    hide Good, Managed;
    PrefixIs(page);
    assert Walk(m, root, 3, Prefix(page, 3)).Table?;
    UnmapIs(m, root, v, leaves, s, page);
    forall e | 0 <= e <= 3 ensures Walk(Unmapped(m, root, page), root, e, Prefix(page, e)).Table? {
      PrefixIsPath(page, e);
    }
  }

  /** Mapping a page and unmapping it again restores every translation; the
      tables stay, so mapping it once more needs no frame and cannot fail. */
  lemma MapUnmapRemap(m: Memory, s: Supply, root: nat, v: set<nat>, va: nat, phys: nat, phys': nat)
    requires Good(m, root, v, false, s) && Pml4Index(va) in v
    requires s.Bump? ==> Missing(m, root, Page(va), 0) <= Reserve(s)
    requires MapPage(m, s, root, va, phys).result == 0
    ensures var r := MapPage(m, s, root, va, phys);
            var m2 := Unmapped(r.mem, root, Page(va));
            && (forall p: nat | p < PAGES :: Translate(m2, root, p) == Translate(m, root, p))
            && MapPage(m2, r.supply, root, va, phys').result == 0
            && MapPage(m2, r.supply, root, va, phys').supply == r.supply
  {
    hide Good, Managed, HasTables, Translate, MapPage, Unmapped, Missing, Walk;
    var page := Page(va);
    var r := MapPage(m, s, root, va, phys);
    ManagedPage(v, va);
    MapPageRefines(m, s, root, v, va, phys);
    MappedHasTables(m, s, root, v, va, phys);
    UnmapKeepsTables(r.mem, root, v, false, r.supply, page);
    UnmapIs(r.mem, root, v, false, r.supply, page);
    var m2 := Unmapped(r.mem, root, page);
    TablesSuffice(m2, r.supply, root, va, phys');
    MapPageRefines(m2, r.supply, root, v, va, phys');
  }

  lemma NothingMissing(m: Memory, root: nat, page: nat, d: nat)
    requires d <= 3 && forall e | d < e <= 3 :: Walk(m, root, e, Prefix(page, e)).Table?
    ensures Missing(m, root, page, d) == 0
    decreases 3 - d
  {
    if d < 3 {
      NothingMissing(m, root, page, d + 1);
    }
  }

  lemma {:induction false} RemapUsesNoFrame(m: Memory, s: Supply, root: nat, page: nat, t: nat, d: nat,
        frame: nat)
    requires d <= 3 && page < PAGES
    requires forall e | d <= e <= 3 :: Walk(m, root, e, Prefix(page, e)).Table?
    requires Walk(m, root, d, Prefix(page, d)) == Table(t)
    ensures MapFrom(m, s, t, d, page, frame).supply == s
    decreases 3 - d
  {
    if d < 3 {
      var w := Load(m, t, Prefix(page, d + 1) % 512);
      assert Walk(m, root, d + 1, Prefix(page, d + 1)) == Follow(w, d + 1);
      RemapUsesNoFrame(m, s, root, page, FrameOf(w), d + 1, frame);
    }
  }

  // ---------------------------------------------------------------------------
  // page_map_multiple
  // ---------------------------------------------------------------------------

  /** `va + index << 12` is `(va + index) << 12`, in 64 bits. */
  function ShiftedAddress(va: nat, index: nat): nat {
    (va + index) * 0x1000 % 0x1_0000_0000_0000_0000
  }

  function MapMultiple(m: Memory, s: Supply, root: nat, va: nat, phys: seq<nat>, index: nat): Mapped
    requires index <= |phys|
    decreases |phys| - index
  {
    if index == |phys| then Mapped(m, s, 0)
    else
      var r := MapPage(m, s, root, ShiftedAddress(va, index), phys[index]);
      if r.result != 0 then Mapped(r.mem, r.supply, index + 1)
      else MapMultiple(r.mem, r.supply, root, va, phys, index + 1)
  }

  lemma ShiftedPage(va: nat, index: nat)
    ensures Page(ShiftedAddress(va, index)) == (va + index) % PAGES
  {
    var x := va + index;
    var h, l := x / 0x10_0000_0000_0000, x % 0x10_0000_0000_0000;
    Mod64(h, l * 0x1000);
    assert ShiftedAddress(va, index) == l * 0x1000;
    ModPages(h * 0x1_0000 + l / PAGES, l % PAGES);
  }

  lemma Mod64(k: nat, r: nat)
    requires r < 0x1_0000_0000_0000_0000
    ensures (0x1_0000_0000_0000_0000 * k + r) % 0x1_0000_0000_0000_0000 == r
  {
  }

  lemma ModPages(k: nat, r: nat)
    requires r < PAGES
    ensures (PAGES * k + r) % PAGES == r
  {
  }

  lemma ModAdd(x: nat, i: nat)
    requires x % PAGES + i < PAGES
    ensures (x + i) % PAGES == x % PAGES + i
  {
    ModPages(x / PAGES, x % PAGES + i);
  }

  /** The pages mapped are those numbered va, va + 1, ...; they are the pages
      at va, va + 4096, ... exactly when va and its page number agree. */
  lemma MultipleMeetsContractIff(va: nat, count: nat)
    requires count > 0 && Page(va) + count <= PAGES
    ensures (forall i: nat | i < count :: Page(ShiftedAddress(va, i)) == Page(va + i * 0x1000)) <==> va % PAGES == Page(va)
  {
    ShiftedPage(va, 0);
    if va % PAGES == Page(va) {
      forall i: nat | i < count ensures Page(ShiftedAddress(va, i)) == Page(va + i * 0x1000) {
        ShiftedPage(va, i);
        PageAfter(va, i);
        ModAdd(va, i);
      }
    } else {
      assert Page(ShiftedAddress(va, 0)) != Page(va + 0 * 0x1000);
    }
  }

  /** The page numbered by index i of the array. */
  function NthPage(va: nat, i: nat): nat { (va + i) % PAGES }

  /** Entries lo..hi of the array were unmapped and are mapped now; all other
      pages translate as before. */
  ghost predicate MappedRun(m: Memory, m': Memory, root: nat, va: nat, phys: seq<nat>, lo: nat, hi: nat)
    requires lo <= hi <= |phys|
  {
    && (forall i | lo <= i < hi :: Translate(m, root, NthPage(va, i)) == None
                                   && Translate(m', root, NthPage(va, i)) == Some(FrameOf(phys[i])))
    && (forall p: nat | p < PAGES && (forall i | lo <= i < hi :: NthPage(va, i) != p) ::
          Translate(m', root, p) == Translate(m, root, p))
  }

  /** Page k was mapped before, or, with the pages before it mapped, fewer frames
      are left than it needs tables. */
  ghost predicate StopsAt(m: Memory, s: Supply, root: nat, va: nat, phys: seq<nat>, index: nat, k: nat)
    requires index <= k < |phys|
  {
    var p := MapMultiple(m, s, root, va, phys[..k], index);
    && p.result == 0
    && (Translate(m, root, NthPage(va, k)).Some? || Reserve(p.supply) < Missing(p.mem, root, NthPage(va, k), 0))
  }

  /** Result 0: every page is mapped to its frame of the array. Result k + 1:
      exactly the first k pages are newly mapped, and page k was mapped before
      or there are not enough frames for its tables. */
  lemma {:induction false} MapMultipleIs(m: Memory, s: Supply, root: nat, v: set<nat>, va: nat, phys: seq<nat>,
        index: nat)
    requires Good(m, root, v, false, s) && s.Bitmap? && index <= |phys| <= PAGES
    requires forall i | index <= i < |phys| :: Pml4Index(ShiftedAddress(va, i)) in v
    ensures var r := MapMultiple(m, s, root, va, phys, index);
            var k := if r.result == 0 then |phys| else r.result - 1;
            && index <= k <= |phys| && (r.result != 0 ==> k < |phys| && StopsAt(m, s, root, va, phys, index, k))
            && Good(r.mem, root, v, false, r.supply)
            && MappedRun(m, r.mem, root, va, phys, index, k)
    decreases |phys| - index
  {
    hide Good, Translate, MapPage, ShiftedAddress, Pml4Index, Missing, Reserve, StopsAt, NthPage, Page;
    if index < |phys| {
      var r := MapPage(m, s, root, ShiftedAddress(va, index), phys[index]);
      ShiftedPage(va, index);
      NthIs(va, index);
      MapPageRefines(m, s, root, v, ShiftedAddress(va, index), phys[index]);
      if r.result == 0 {
        MapMultipleIs(r.mem, r.supply, root, v, va, phys, index + 1);
        var r' := MapMultiple(m, s, root, va, phys, index);
        OneMore(m, r.mem, r'.mem, root, va, phys, index, if r'.result == 0 then |phys| else r'.result - 1);
        if r'.result != 0 {
          StopsLater(m, s, r, root, va, phys, index, r'.result - 1);
        }
      } else {
        StopsHere(m, s, root, va, phys, index);
      }
    }
  }

  lemma NthIs(va: nat, i: nat)
    ensures NthPage(va, i) == (va + i) % PAGES < PAGES
  {
  }

  lemma StopsHere(m: Memory, s: Supply, root: nat, va: nat, phys: seq<nat>, index: nat)
    requires index < |phys|
    requires Translate(m, root, NthPage(va, index)).Some? || Reserve(s) < Missing(m, root, NthPage(va, index), 0)
    ensures StopsAt(m, s, root, va, phys, index, index)
  {
    hide Translate, Missing, Reserve, NthPage;
  }

  lemma StopsLater(m: Memory, s: Supply, r: Mapped, root: nat, va: nat, phys: seq<nat>, index: nat, k: nat)
    requires index < k < |phys| <= PAGES && r == MapPage(m, s, root, ShiftedAddress(va, index), phys[index]) && r.result == 0
    requires StopsAt(r.mem, r.supply, root, va, phys, index + 1, k)
    requires forall p: nat | p < PAGES :: Translate(r.mem, root, p) ==
               if p == NthPage(va, index) then Some(FrameOf(phys[index])) else Translate(m, root, p)
    ensures StopsAt(m, s, root, va, phys, index, k)
  {
    DistinctPages(va, index, k);
    NthIs(va, k);
    hide Translate, Missing, Reserve, NthPage, MapPage, ShiftedAddress;
    assert phys[..k][index] == phys[index];
  }

  lemma OneMore(m: Memory, m1: Memory, m2: Memory, root: nat, va: nat, phys: seq<nat>, lo: nat, hi: nat)
    requires lo < hi <= |phys| <= PAGES
    requires Translate(m, root, NthPage(va, lo)) == None
    requires forall p: nat | p < PAGES :: Translate(m1, root, p) ==
               if p == NthPage(va, lo) then Some(FrameOf(phys[lo])) else Translate(m, root, p)
    requires MappedRun(m1, m2, root, va, phys, lo + 1, hi)
    ensures MappedRun(m, m2, root, va, phys, lo, hi)
  {
    forall i | lo < i < hi ensures NthPage(va, i) != NthPage(va, lo) {
      DistinctPages(va, lo, i);
    }
  }

  lemma DistinctPages(va: nat, i: nat, j: nat)
    requires i < j < i + PAGES
    ensures NthPage(va, i) != NthPage(va, j)
  {
  }

  // ---------------------------------------------------------------------------
  // The code
  // ---------------------------------------------------------------------------

  class PageMapper {
    var mem: Memory
    var root: nat    // current_pml4, as a frame number
    var offset: nat
    const frames: FrameBitmap.FrameAllocator

    /** page_mapper_init. */
    constructor (mem: Memory, memoryOffset: nat, root: nat, frames: FrameBitmap.FrameAllocator)
      ensures this.mem == mem && this.root == root && offset == memoryOffset && this.frames == frames
    {
      this.mem, this.root, this.offset, this.frames := mem, root, memoryOffset, frames;
    }

    /** The zeroing loop. */
    method Clear(z: nat)
      modifies `mem
      ensures mem == Cleared(old(mem), z, 512)
    {
      var i := 0;
      while i < 512
        invariant i <= 512 && mem == Cleared(old(mem), z, i)
      {
        mem := Store(mem, z, i, 0);
        i := i + 1;
      }
    }

    /** The block repeated for the first three levels: make sure that entry
        `index` of table t leads to a table, and find that table. */
    method EnterOrInstall(t: nat, index: nat) returns (result: int, next: nat)
      requires frames.words.Length < 0x1_0000
      modifies `mem, frames.words
      ensures root == old(root) && offset == old(offset)
      ensures var w, s := Load(old(mem), t, index), Bitmap(old(frames.words[..]));
              if Present(w) then
                result == 0 && next == FrameOf(w) && mem == old(mem) && frames.words[..] == old(frames.words[..])
              else if Draw(s).None? then
                result == -1 && mem == old(mem) && frames.words[..] == old(frames.words[..])
              else
                result == 0 && next == Draw(s).value.0 && mem == Installed(old(mem), s, t, index, 2, next)
                && Bitmap(frames.words[..]) == Draw(s).value.1
    {
      next := 0;
      if !Present(Load(mem, t, index)) {
        var status, frame := frames.Alloc();
        if status == -1 {
          return -1, next;
        }
        next := frame / 4096;
        Clear(next);
        mem := Store(mem, t, index, Entry(7, next));
        PickedBound(old(frames.words[..]));
      }
      return 0, FrameOf(Load(mem, t, index));
    }

    /** page_map. */
    method PageMap(va: nat, phys: nat) returns (result: int)
      requires frames.words.Length < 0x1_0000
      modifies `mem, frames.words
      ensures root == old(root) && offset == old(offset)
      ensures Mapped(mem, Bitmap(frames.words[..]), result) ==
              MapPage(old(mem), Bitmap(old(frames.words[..])), root, va, phys)
    {
      PageDigits(va);
      PrefixIs(Page(va));
      ghost var page, frame := Page(va), FrameOf(phys);
      assert Pml4Index(va) == Prefix(page, 1) % 512;
      label start:
      var pdp;
      result, pdp := EnterOrInstall(root, Pml4Index(va));
      if result == -1 {
        return;
      }
      ghost var s1 := Bitmap(frames.words[..]);
      assert MapFrom(old(mem), Bitmap(old(frames.words[..])), root, 0, page, frame) == MapFrom(mem, s1, pdp, 1, page, frame);
      var pd;
      result, pd := EnterOrInstall(pdp, PdpIndex(va));
      if result == -1 {
        return;
      }
      ghost var s2 := Bitmap(frames.words[..]);
      assert MapFrom(old@start(mem), Bitmap(old@start(frames.words[..])), root, 0, page, frame) == MapFrom(mem, s2, pd, 2, page, frame);
      var pt;
      result, pt := EnterOrInstall(pd, PdIndex(va));
      if result == -1 {
        return;
      }
      assert MapFrom(old@start(mem), Bitmap(old@start(frames.words[..])), root, 0, page, frame)
          == MapFrom(mem, Bitmap(frames.words[..]), pt, 3, page, frame);
      if !Present(Load(mem, pt, PtIndex(va))) {
        mem := Store(mem, pt, PtIndex(va), Entry(7, FrameOf(phys)));
      } else {
        return 1;
      }
      return 0;
    }

    /** page_map_multiple. */
    method PageMapMultiple(va: nat, phys: seq<nat>) returns (result: int)
      requires frames.words.Length < 0x1_0000
      modifies `mem, frames.words
      ensures root == old(root) && offset == old(offset)
      ensures Mapped(mem, Bitmap(frames.words[..]), result) ==
              MapMultiple(old(mem), Bitmap(old(frames.words[..])), root, va, phys, 0)
    {
      var index := 0;
      while index < |phys|
        invariant index <= |phys| && root == old(root) && offset == old(offset)
        invariant MapMultiple(old(mem), Bitmap(old(frames.words[..])), root, va, phys, 0)
               == MapMultiple(mem, Bitmap(frames.words[..]), root, va, phys, index)
      {
        var status := PageMap(ShiftedAddress(va, index), phys[index]);
        if status != 0 {
          return index + 1;
        }
        index := index + 1;
      }
      return 0;
    }

    /** page_unmap. Past the range check the code ends without a result and
        without setting its output, so neither has a value here. */
    method PageUnmap(va: nat) returns (refused: bool)
      modifies `mem
      ensures root == old(root) && offset == old(offset)
      ensures refused <==> offset <= va <= 0x0000_FF80_0000_0000
      ensures mem == if Refused(offset, va) then old(mem) else Unmapped(old(mem), root, Page(va))
    {
      if offset <= va <= 0x0000_FF80_0000_0000 {
        return true;
      }
      PageDigits(va);
      var l3 := FrameOf(Load(mem, root, Pml4Index(va)));
      var l2 := FrameOf(Load(mem, l3, PdpIndex(va)));
      var l1 := FrameOf(Load(mem, l2, PdIndex(va)));
      var w := Load(mem, l1, PtIndex(va));
      mem := Store(mem, l1, PtIndex(va), w - w % 2);
      return false;
    }
  }

  lemma PickedBound(ws: seq<Word64>)
    requires FrameBitmap.CanTake(ws) && |ws| < 0x1_0000
    ensures FrameOf(Entry(7, FrameBitmap.Picked(ws))) == FrameBitmap.Picked(ws)
  {
    FrameBitmap.PickedIs(ws);
    hide *;
    EntryIs(7, FrameBitmap.Picked(ws), 1);
  }
}
