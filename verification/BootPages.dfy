/**
 `map_pages` of the bootloader over its bump allocator: how many pages it uses
 up, and what it maps.
 */
module BootPages {
  import opened Options
  import opened Addresses
  import opened PageTables
  import opened Mapping
  import opened Paging
  import opened TableCounts

  /** map_pages ignores the results of map_page. */
  function MapPages(m: Memory, s: Supply, root: nat, phys: nat, va: nat, n: nat): (Memory, Supply) {
    if n == 0 then (m, s)
    else
      var (m1, s1) := MapPages(m, s, root, phys, va, n - 1);
      var r := MapPage(m1, s1, root, va + (n - 1) * 0x1000, phys + (n - 1) * 0x1000);
      (r.mem, r.supply)
  }

  // ---------------------------------------------------------------------------
  // The counters
  // ---------------------------------------------------------------------------

  /** The pages left after k more have been handed out, in 64 bits. */
  function Spent(left: nat, k: nat): int {
    if k <= left then left - k else left - k + UINT64_MAX + 1
  }

  /** Whatever map_page finds, the two counters move together. */
  lemma {:induction false} CountersAgree(m: Memory, s: Supply, t: nat, d: nat, page: nat, frame: nat)
    requires d <= 3 && s.Bump? && s.left <= UINT64_MAX
    ensures var s' := MapFrom(m, s, t, d, page, frame).supply;
            && s'.Bump? && s.next <= s'.next <= s.next + 3 - d
            && s'.left == Spent(s.left, s'.next - s.next) && s'.left <= UINT64_MAX
    decreases 3 - d
  {
    hide Installed, Present, Load, Store, Prefix, FrameOf;
    var i := Prefix(page, d + 1) % 512;
    if d < 3 {
      if Present(Load(m, t, i)) {
        CountersAgree(m, s, FrameOf(Load(m, t, i)), d + 1, page, frame);
      } else {
        var (z, s') := Draw(s).value;
        CountersAgree(Installed(m, s, t, i, d + 1, z), s', z, d + 1, page, frame);
      }
    }
  }

  // ---------------------------------------------------------------------------
  // What map_pages does
  // ---------------------------------------------------------------------------

  /** n consecutive pages from `first`, all under the slots v, with room for their tables. */
  ghost predicate PagesFit(m: Memory, s: Supply, root: nat, v: set<nat>, va: nat, n: nat) {
    && Good(m, root, v, false, s) && s.Bump?
    && Page(va) + n <= PAGES && (forall i: nat | i < n :: Pml4Index(va + i * 0x1000) in v)
    && Needed(m, root, Page(va), n) <= s.left
  }

  /** Pages: those of the n that were unmapped are mapped to the frames in
      order; every other page, of the n or not, translates as before. */
  ghost predicate PagesThere(m: Memory, m': Memory, root: nat, first: nat, phys: nat, n: nat) {
    forall p: nat | p < PAGES :: Translate(m', root, p) ==
      if first <= p < first + n && Translate(m, root, p) == None then Some(FrameOf(phys + (p - first) * 0x1000)) else Translate(m, root, p)
  }

  ghost predicate MappedPages(m: Memory, s: Supply, m': Memory, s': Supply, root: nat, v: set<nat>, first: nat,
        phys: nat, n: nat)
    requires s.Bump?
  {
    && Good(m', root, v, false, s') && s'.Bump?
    && s'.left == s.left - Needed(m, root, first, n) && s'.next + s'.left == s.next + s.left
    && TablesThere(m, m', root, first, n) && PagesThere(m, m', root, first, phys, n)
  }

  /** One page. */
  lemma MapNext(m1: Memory, s1: Supply, root: nat, v: set<nat>, va: nat, phys: nat)
    requires Good(m1, root, v, false, s1) && s1.Bump? && Pml4Index(va) in v && Missing(m1, root, Page(va), 0) <= s1.left
    ensures var r := MapPage(m1, s1, root, va, phys);
            && Good(r.mem, root, v, false, r.supply) && r.supply.Bump? && Page(va) < PAGES
            && GrowsAlong(m1, r.mem, root, Page(va)) && HasTables(r.mem, root, Page(va))
            && r.supply.left == s1.left - Missing(m1, root, Page(va), 0) && r.supply.next + r.supply.left == s1.next + s1.left
            && (forall p: nat | p < PAGES :: Translate(r.mem, root, p) ==
                  if p == Page(va) && Translate(m1, root, p) == None then Some(FrameOf(phys)) else Translate(m1, root, p))
  {
    var r := MapPage(m1, s1, root, va, phys);
    assert s1.left <= 0x100_0000_0000;
    hide Good, HasTables, Translate, Walk, GrowsAlong, MapPage;
    ManagedPage(v, va);
    MapPageRefines(m1, s1, root, v, va, phys);
    MappedHasTables(m1, s1, root, v, va, phys);
    MapPageGrows(m1, s1, root, v, va, phys);
    MapPageCounters(m1, s1, root, va, phys);
    if r.result == 1 {
      TablesSuffice(m1, s1, root, va, phys);
    }
  }

  lemma MapPageGrows(m: Memory, s: Supply, root: nat, v: set<nat>, va: nat, phys: nat)
    requires Good(m, root, v, false, s) && s.Bump? && Pml4Index(va) in v && Missing(m, root, Page(va), 0) <= s.left
    ensures GrowsAlong(m, MapPage(m, s, root, va, phys).mem, root, Page(va))
  {
    ManagedPage(v, va);
    RootAt(m, root, v, Page(va));
    MapFromIs(m, s, root, v, false, Page(va), root, 0, FrameOf(phys));
  }

  lemma MapPageCounters(m: Memory, s: Supply, root: nat, va: nat, phys: nat)
    requires s.Bump? && s.left <= UINT64_MAX
    ensures var s' := MapPage(m, s, root, va, phys).supply;
            s'.Bump? && s.next <= s'.next <= s.next + 3 && s'.left == Spent(s.left, s'.next - s.next)
  {
    CountersAgree(m, s, root, 0, Page(va), FrameOf(phys));
  }

  lemma PagesNext(m: Memory, m1: Memory, m2: Memory, root: nat, first: nat, phys: nat, n: nat)
    requires PagesThere(m, m1, root, first, phys, n)
    requires forall p: nat | p < PAGES :: Translate(m2, root, p) ==
               if p == first + n && Translate(m1, root, p) == None then Some(FrameOf(phys + n * 0x1000)) else Translate(m1, root, p)
    ensures PagesThere(m, m2, root, first, phys, n + 1)
  {
    hide Translate, FrameOf;
  }

  lemma NoPages(m: Memory, s: Supply, root: nat, v: set<nat>, phys: nat, first: nat)
    requires Good(m, root, v, false, s) && s.Bump?
    ensures MappedPages(m, s, m, s, root, v, first, phys, 0)
  {
    hide Good, Walk, Translate;
  }

  lemma FewerPages(m: Memory, s: Supply, root: nat, v: set<nat>, va: nat, n: nat)
    requires n > 0 && PagesFit(m, s, root, v, va, n)
    ensures PagesFit(m, s, root, v, va, n - 1)
    ensures Page(va) + n - 1 < PAGES && Pml4Index(va + (n - 1) * 0x1000) in v && Needed(m, root, Page(va), n) <= s.left && s.Bump?
  {
    hide Good, Needed, Page, Pml4Index;
    NeededGrows(m, root, Page(va), n - 1, n);
  }

  /** map_pages uses exactly one page of the region for each table that is
      missing on the way to some page, keeps used and available pages together
      the size they were, maps the pages that were unmapped to their frames, and
      leaves every other translation alone. */
  lemma {:induction false} MapPagesIs(m: Memory, s: Supply, root: nat, v: set<nat>, phys: nat, va: nat, n: nat)
    requires PagesFit(m, s, root, v, va, n)
    ensures var (m', s') := MapPages(m, s, root, phys, va, n);
            s.Bump? && MappedPages(m, s, m', s', root, v, Page(va), phys, n)
  {
    hide Good, MappedPages, MapPage, Walk, Translate, AbsentTables, Needed, Page;
    if n == 0 {
      NoPages(m, s, root, v, phys, Page(va));
    } else {
      FewerPages(m, s, root, v, va, n);
      MapPagesIs(m, s, root, v, phys, va, n - 1);
      var (m1, s1) := MapPages(m, s, root, phys, va, n - 1);
      MapPagesStep(m, s, m1, s1, root, v, phys, va, n - 1);
    }
  }

  lemma MapPagesStep(m: Memory, s: Supply, m1: Memory, s1: Supply, root: nat, v: set<nat>, phys: nat, va: nat, n: nat)
    requires s.Bump? && MappedPages(m, s, m1, s1, root, v, Page(va), phys, n)
    requires Page(va) + n < PAGES && Pml4Index(va + n * 0x1000) in v && Needed(m, root, Page(va), n + 1) <= s.left
    ensures var r := MapPage(m1, s1, root, va + n * 0x1000, phys + n * 0x1000);
            MappedPages(m, s, r.mem, r.supply, root, v, Page(va), phys, n + 1)
  {
    hide Good, MapPage, Walk, Translate, AbsentTables, Needed, TablesThere, PagesThere, GrowsAlong, HasTables,
      Pml4Index, FrameOf, Missing;
    var r := MapPage(m1, s1, root, va + n * 0x1000, phys + n * 0x1000);
    PageAfter(va, n);
    MissingNext(m, m1, root, Page(va), n);
    MapNext(m1, s1, root, v, va + n * 0x1000, phys + n * 0x1000);
    TablesNext(m, m1, r.mem, root, Page(va), n);
    PagesNext(m, m1, r.mem, root, Page(va), phys, n);
  }

  // ---------------------------------------------------------------------------
  // One call after the other
  // ---------------------------------------------------------------------------

  /** What one call of map_pages is given. */
  datatype Segment = Segment(phys: nat, va: nat, pages: nat) {
    function First(): nat { Page(va) }

    predicate Has(p: nat) { First() <= p < First() + pages }
  }

  /** The calls of map_pages, one for each segment of the kernel. */
  function MapSegments(m: Memory, s: Supply, root: nat, segs: seq<Segment>): (Memory, Supply) {
    if segs == [] then (m, s)
    else
      var (m1, s1) := MapSegments(m, s, root, segs[..|segs| - 1]);
      var g := segs[|segs| - 1];
      MapPages(m1, s1, root, g.phys, g.va, g.pages)
  }

  /** kernel_start_pointer and kernel_page_count after the loop: both are set as
      long as they are zero. */
  function KernelStart(segs: seq<Segment>): nat {
    if segs == [] then 0
    else
      var start := KernelStart(segs[..|segs| - 1]);
      if start == 0 then segs[|segs| - 1].va else start
  }

  function KernelPages(segs: seq<Segment>): nat {
    if segs == [] then 0
    else
      var pages := KernelPages(segs[..|segs| - 1]);
      if pages == 0 then segs[|segs| - 1].pages else pages
  }

  /** They tell the first segment with an address, and the first with pages; as
      every segment has pages, not those that follow. */
  lemma {:induction false} KernelIsFirst(segs: seq<Segment>, j: nat)
    requires j < |segs|
    ensures segs[j].va != 0 && (forall i | 0 <= i < j :: segs[i].va == 0) ==> KernelStart(segs) == segs[j].va
    ensures segs[j].pages != 0 && (forall i | 0 <= i < j :: segs[i].pages == 0) ==> KernelPages(segs) == segs[j].pages
    decreases |segs|
  {
    var before := segs[..|segs| - 1];
    if j < |before| {
      KernelIsFirst(before, j);
    } else {
      AllZero(before);
    }
  }

  lemma {:induction false} AllZero(segs: seq<Segment>)
    ensures (forall i | 0 <= i < |segs| :: segs[i].va == 0) ==> KernelStart(segs) == 0
    ensures (forall i | 0 <= i < |segs| :: segs[i].pages == 0) ==> KernelPages(segs) == 0
  {
    if segs != [] {
      AllZero(segs[..|segs| - 1]);
    }
  }

  /** The tables of depth d that some page of some segment needs and does not have. */
  ghost function MissingTables(m: Memory, root: nat, segs: seq<Segment>, d: nat): set<nat>
    requires 1 <= d <= 3
  {
    if segs == [] then {}
    else
      var g := segs[|segs| - 1];
      MissingTables(m, root, segs[..|segs| - 1], d) + AbsentTables(m, root, g.First(), g.pages, d)
  }

  ghost function NeededBy(m: Memory, root: nat, segs: seq<Segment>): nat {
    |MissingTables(m, root, segs, 1)| + |MissingTables(m, root, segs, 2)| + |MissingTables(m, root, segs, 3)|
  }

  /** The frame that the first segment that has the page gives it. */
  function FrameIn(segs: seq<Segment>, p: nat): Option<nat> {
    if segs == [] then None
    else
      var g := segs[|segs| - 1];
      match FrameIn(segs[..|segs| - 1], p)
      case Some(f) => Some(f)
      case None => if g.Has(p) then Some(FrameOf(g.phys + (p - g.First()) * 0x1000)) else None
  }

  lemma {:induction false} FrameInIff(segs: seq<Segment>, p: nat)
    ensures FrameIn(segs, p).Some? <==> exists g :: g in segs && g.Has(p)
  {
    if segs != [] {
      var before, last := segs[..|segs| - 1], segs[|segs| - 1];
      FrameInIff(before, p);
      assert segs == before + [last];
    }
  }

  lemma {:induction false} FirstFrame(segs: seq<Segment>, p: nat, j: nat)
    requires j < |segs| && segs[j].Has(p) && forall i: nat | i < j :: !segs[i].Has(p)
    ensures FrameIn(segs, p) == Some(FrameOf(segs[j].phys + (p - segs[j].First()) * 0x1000))
    decreases |segs|
  {
    var before := segs[..|segs| - 1];
    if j < |before| {
      FirstFrame(before, p, j);
    } else {
      FrameInIff(before, p);
      forall g | g in before ensures !g.Has(p) {
        var i: nat :| i < |before| && before[i] == g;
        assert segs[i] == g;
      }
    }
  }

  /** All pages under the slots v, with room for their tables. */
  ghost predicate SegmentsFit(m: Memory, s: Supply, root: nat, v: set<nat>, segs: seq<Segment>) {
    && Good(m, root, v, false, s) && s.Bump? && NeededBy(m, root, segs) <= s.left && SegmentsIn(v, segs)
  }

  ghost predicate SegmentsIn(v: set<nat>, segs: seq<Segment>) {
    forall g | g in segs :: g.First() + g.pages <= PAGES && forall i: nat | i < g.pages :: Pml4Index(g.va + i * 0x1000) in v
  }

  /** Tables: those missing are there, and nothing else changed. */
  ghost predicate SegmentTables(m: Memory, m': Memory, root: nat, segs: seq<Segment>) {
    forall d: nat, q: nat | 1 <= d <= 3 && IsPath(d, q) ::
      if q in MissingTables(m, root, segs, d) then Walk(m', root, d, q).Table? else Walk(m', root, d, q) == Walk(m, root, d, q)
  }

  /** Pages: what was unmapped comes to be mapped as the segments say. */
  ghost predicate SegmentsThere(m: Memory, m': Memory, root: nat, segs: seq<Segment>) {
    forall p: nat | p < PAGES ::
      Translate(m', root, p) == if Translate(m, root, p) == None then FrameIn(segs, p) else Translate(m, root, p)
  }

  ghost predicate MappedSegments(m: Memory, s: Supply, m': Memory, s': Supply, root: nat, v: set<nat>, segs: seq<Segment>)
    requires s.Bump?
  {
    && Good(m', root, v, false, s') && s'.Bump?
    && s'.left == s.left - NeededBy(m, root, segs) && s'.next + s'.left == s.next + s.left
    && SegmentTables(m, m', root, segs) && SegmentsThere(m, m', root, segs)
  }

  /** The tables that a further segment finds missing are those no segment before it needed. */
  lemma AbsentNext(m: Memory, m1: Memory, root: nat, segs: seq<Segment>, first: nat, n: nat, d: nat)
    requires 1 <= d <= 3 && SegmentTables(m, m1, root, segs) && first + n <= PAGES
    ensures AbsentTables(m1, root, first, n, d) == AbsentTables(m, root, first, n, d) - MissingTables(m, root, segs, d)
  {
    hide Walk, MissingTables, Prefix;
    forall q | q in AbsentTables(m, root, first, n, d) || q in AbsentTables(m1, root, first, n, d) ensures IsPath(d, q) {
      assert n > 0 && q <= Prefix(first + n - 1, d);
      PrefixIsPath(first + n - 1, d);
    }
  }

  lemma UnionSize(a: set<nat>, b: set<nat>)
    ensures |a + b| == |a| + |b - a|
  {
    assert a + b == a + (b - a);
  }

  lemma NeededNext(m: Memory, m1: Memory, root: nat, segs: seq<Segment>)
    requires segs != [] && SegmentTables(m, m1, root, segs[..|segs| - 1])
    requires var g := segs[|segs| - 1]; g.First() + g.pages <= PAGES
    ensures var g := segs[|segs| - 1];
            NeededBy(m, root, segs) == NeededBy(m, root, segs[..|segs| - 1]) + Needed(m1, root, g.First(), g.pages)
  {
    hide AbsentTables, SegmentTables;
    var g, before := segs[|segs| - 1], segs[..|segs| - 1];
    forall d | 1 <= d <= 3
      ensures |MissingTables(m, root, segs, d)|
           == |MissingTables(m, root, before, d)| + |AbsentTables(m1, root, g.First(), g.pages, d)|
    {
      AbsentNext(m, m1, root, before, g.First(), g.pages, d);
      UnionSize(MissingTables(m, root, before, d), AbsentTables(m, root, g.First(), g.pages, d));
    }
  }

  lemma TablesAfterSegment(m: Memory, m1: Memory, m2: Memory, root: nat, segs: seq<Segment>)
    requires segs != [] && SegmentTables(m, m1, root, segs[..|segs| - 1])
    requires var g := segs[|segs| - 1]; g.First() + g.pages <= PAGES && TablesThere(m1, m2, root, g.First(), g.pages)
    ensures SegmentTables(m, m2, root, segs)
  {
    hide Walk, Prefix;
    var g, before := segs[|segs| - 1], segs[..|segs| - 1];
    forall d: nat, q: nat | 1 <= d <= 3 && IsPath(d, q)
      ensures if q in MissingTables(m, root, segs, d) then Walk(m2, root, d, q).Table?
              else Walk(m2, root, d, q) == Walk(m, root, d, q)
    {
      assert q in AbsentTables(m, root, g.First(), g.pages, d) <==>
        OnTheWay(g.First(), g.pages, d, q) && Walk(m, root, d, q) == Absent;
    }
  }

  lemma PagesAfterSegment(m: Memory, m1: Memory, m2: Memory, root: nat, segs: seq<Segment>)
    requires segs != [] && SegmentsThere(m, m1, root, segs[..|segs| - 1])
    requires var g := segs[|segs| - 1]; PagesThere(m1, m2, root, g.First(), g.phys, g.pages)
    ensures SegmentsThere(m, m2, root, segs)
  {
    hide Translate, FrameOf;
  }

  lemma NoSegments(m: Memory, s: Supply, root: nat, v: set<nat>)
    requires Good(m, root, v, false, s) && s.Bump?
    ensures MappedSegments(m, s, m, s, root, v, [])
  {
    hide Good, Walk, Translate;
  }

  lemma FewerSegments(m: Memory, s: Supply, root: nat, v: set<nat>, segs: seq<Segment>)
    requires segs != [] && SegmentsFit(m, s, root, v, segs)
    ensures SegmentsFit(m, s, root, v, segs[..|segs| - 1])
  {
    hide Good, AbsentTables, Page, Pml4Index;
    forall d | 1 <= d <= 3
      ensures |MissingTables(m, root, segs[..|segs| - 1], d)| <= |MissingTables(m, root, segs, d)|
    {
      var g := segs[|segs| - 1];
      UnionSize(MissingTables(m, root, segs[..|segs| - 1], d), AbsentTables(m, root, g.First(), g.pages, d));
    }
  }

  /** All the calls together use exactly one page of the region for each table
      that is missing on the way to some page of some segment; a page that
      several segments have is mapped as the first of them says. */
  lemma {:induction false} MapSegmentsIs(m: Memory, s: Supply, root: nat, v: set<nat>, segs: seq<Segment>)
    requires SegmentsFit(m, s, root, v, segs)
    ensures var (m', s') := MapSegments(m, s, root, segs);
            s.Bump? && MappedSegments(m, s, m', s', root, v, segs)
  {
    hide Good, MappedSegments, SegmentsFit, MapPages;
    if segs == [] {
      FitsNow(m, s, root, v, segs);
      NoSegments(m, s, root, v);
    } else {
      FitsNow(m, s, root, v, segs);
      FewerSegments(m, s, root, v, segs);
      MapSegmentsIs(m, s, root, v, segs[..|segs| - 1]);
      var (m1, s1) := MapSegments(m, s, root, segs[..|segs| - 1]);
      OneMoreSegment(m, s, m1, s1, root, v, segs);
    }
  }

  lemma FitsNow(m: Memory, s: Supply, root: nat, v: set<nat>, segs: seq<Segment>)
    requires SegmentsFit(m, s, root, v, segs)
    ensures Good(m, root, v, false, s) && s.Bump?
  {
  }

  lemma OneMoreSegment(m: Memory, s: Supply, m1: Memory, s1: Supply, root: nat, v: set<nat>, segs: seq<Segment>)
    requires segs != [] && SegmentsFit(m, s, root, v, segs)
    requires s.Bump? && MappedSegments(m, s, m1, s1, root, v, segs[..|segs| - 1])
    ensures var g := segs[|segs| - 1];
            var (m2, s2) := MapPages(m1, s1, root, g.phys, g.va, g.pages);
            MappedSegments(m, s, m2, s2, root, v, segs)
  {
    hide Good, MapPages, Walk, Translate, AbsentTables, MissingTables, Needed, NeededBy, SegmentTables, SegmentsThere,
      TablesThere, PagesThere,
      Pml4Index, FrameIn, Page;
    var g := segs[|segs| - 1];
    assert g in segs;
    NeededNext(m, m1, root, segs);
    MapPagesIs(m1, s1, root, v, g.phys, g.va, g.pages);
    var m2 := MapPages(m1, s1, root, g.phys, g.va, g.pages).0;
    TablesAfterSegment(m, m1, m2, root, segs);
    PagesAfterSegment(m, m1, m2, root, segs);
  }

  // ---------------------------------------------------------------------------
  // Where new tables come from
  // ---------------------------------------------------------------------------

  /** Every table that is new lies in a frame that the supply held. */
  ghost predicate TablesFrom(m: Memory, m': Memory, root: nat, s: Supply) {
    forall e: nat, r: nat | e <= 3 && IsPath(e, r) && Walk(m', root, e, r) != Walk(m, root, e, r) ::
      Walk(m', root, e, r).Table? && Holds(s, Walk(m', root, e, r).frame)
  }

  lemma NothingNew(m: Memory, root: nat, s: Supply)
    ensures TablesFrom(m, m, root, s)
  {
    hide Walk;
  }

  lemma TablesFromBoth(m: Memory, m1: Memory, m2: Memory, root: nat, s: Supply, s1: Supply)
    requires TablesFrom(m, m1, root, s) && TablesFrom(m1, m2, root, s1) && forall f: nat :: Holds(s1, f) ==> Holds(s, f)
    ensures TablesFrom(m, m2, root, s)
  {
    hide Walk, Holds;
  }

  lemma {:induction false} NewFromSupply(m: Memory, s: Supply, root: nat, v: set<nat>, page: nat, t: nat, d: nat, frame: nat)
    requires Good(m, root, v, false, s) && Mapping.At(m, root, v, page, t, d) && Managed(v, 4, page)
    requires d <= 3 && page < PAGES && frame < 0x100_0000_0000 && s.Bump? && Missing(m, root, page, d) <= Reserve(s)
    ensures TablesFrom(m, MapFrom(m, s, t, d, page, frame).mem, root, s)
    decreases 3 - d
  {
    hide Good, Managed, Span, Walk, Installed, Mapping.At, TablesFrom, Holds;
    var x := Prefix(page, d + 1);
    var w := Load(m, t, x % 512);
    NothingNew(m, root, s);
    if d == 3 {
      if !Present(w) {
        LeafStep(m, root, v, false, s, page, t, frame);
        LeafIsNoTable(m, Store(m, t, page % 512, Entry(7, frame)), root, page, frame, s);
      }
    } else if Present(w) {
      Child(m, root, v, false, s, page, t, d);
      NextAt(m, root, v, page, t, d, FrameOf(w));
      NewFromSupply(m, s, root, v, page, FrameOf(w), d + 1, frame);
    } else {
      Child(m, root, v, false, s, page, t, d);
      var (z, s') := Draw(s).value;
      var m' := Installed(m, s, t, x % 512, d + 1, z);
      IsAddressable(m, root, v, s);
      DrawIs(s);
      InstallStep(m, root, v, false, s, page, t, d);
      AfterInstall(m, m', s, root, v, false, page, t, d, z, frame);
      NewFromSupply(m', s', root, v, page, z, d + 1, frame);
      OneNewTable(m, m', root, s, d + 1, x, z);
      TablesFromBoth(m, m', MapFrom(m', s', z, d + 1, page, frame).mem, root, s, s');
    }
  }

  lemma IsAddressable(m: Memory, root: nat, v: set<nat>, s: Supply)
    requires Good(m, root, v, false, s)
    ensures Addressable(s)
  {
  }

  lemma LeafIsNoTable(m: Memory, m': Memory, root: nat, page: nat, frame: nat, s: Supply)
    requires forall e: nat, r: nat | IsPath(e, r) ::
               Walk(m', root, e, r) == if e == 4 && r == page then Table(frame) else Walk(m, root, e, r)
    ensures TablesFrom(m, m', root, s)
  {
    hide Walk;
  }

  lemma OneNewTable(m: Memory, m': Memory, root: nat, s: Supply, d: nat, x: nat, z: nat)
    requires Holds(s, z)
    requires forall e: nat, r: nat | IsPath(e, r) ::
               Walk(m', root, e, r) == if e == d && r == x then Table(z) else Walk(m, root, e, r)
    ensures TablesFrom(m, m', root, s)
  {
    hide Walk;
  }

  lemma PageFromSupply(m: Memory, s: Supply, root: nat, v: set<nat>, va: nat, phys: nat)
    requires Good(m, root, v, false, s) && s.Bump? && Pml4Index(va) in v && Missing(m, root, Page(va), 0) <= s.left
    ensures TablesFrom(m, MapPage(m, s, root, va, phys).mem, root, s)
  {
    hide TablesFrom;
    ManagedPage(v, va);
    RootAt(m, root, v, Page(va));
    NewFromSupply(m, s, root, v, Page(va), root, 0, FrameOf(phys));
  }

  /** What is left is what was there before, less the first frames of it. */
  lemma LeftIsPart(s: Supply, s': Supply)
    requires s.Bump? && s'.Bump? && s'.next + s'.left == s.next + s.left && s'.left <= s.left
    ensures forall f: nat :: Holds(s', f) ==> Holds(s, f)
  {
  }

  lemma {:induction false} PagesFromSupply(m: Memory, s: Supply, root: nat, v: set<nat>, phys: nat, va: nat, n: nat)
    requires PagesFit(m, s, root, v, va, n)
    ensures TablesFrom(m, MapPages(m, s, root, phys, va, n).0, root, s)
  {
    hide Good, MapPage, Walk, AbsentTables, Needed, Page, TablesFrom, TablesThere, PagesThere;
    if n == 0 {
      NothingNew(m, root, s);
    } else {
      FewerPages(m, s, root, v, va, n);
      PagesFromSupply(m, s, root, v, phys, va, n - 1);
      MapPagesIs(m, s, root, v, phys, va, n - 1);
      var (m1, s1) := MapPages(m, s, root, phys, va, n - 1);
      PageAfter(va, n - 1);
      MissingNext(m, m1, root, Page(va), n - 1);
      PageFromSupply(m1, s1, root, v, va + (n - 1) * 0x1000, phys + (n - 1) * 0x1000);
      LeftIsPart(s, s1);
      TablesFromBoth(m, m1, MapPages(m, s, root, phys, va, n).0, root, s, s1);
    }
  }

  /** The tables that the calls install all lie in the region. */
  lemma {:induction false} SegmentsFromSupply(m: Memory, s: Supply, root: nat, v: set<nat>, segs: seq<Segment>)
    requires SegmentsFit(m, s, root, v, segs)
    ensures TablesFrom(m, MapSegments(m, s, root, segs).0, root, s)
  {
    hide Good, MapPages, Walk, AbsentTables, MissingTables, Needed, NeededBy, TablesFrom, SegmentTables, SegmentsThere, Pml4Index;
    if segs == [] {
      NothingNew(m, root, s);
    } else {
      var g := segs[|segs| - 1];
      FewerSegments(m, s, root, v, segs);
      SegmentsFromSupply(m, s, root, v, segs[..|segs| - 1]);
      MapSegmentsIs(m, s, root, v, segs[..|segs| - 1]);
      var (m1, s1) := MapSegments(m, s, root, segs[..|segs| - 1]);
      assert g in segs;
      NeededNext(m, m1, root, segs);
      PagesFromSupply(m1, s1, root, v, g.phys, g.va, g.pages);
      LeftIsPart(s, s1);
      TablesFromBoth(m, m1, MapSegments(m, s, root, segs).0, root, s, s1);
    }
  }
}
