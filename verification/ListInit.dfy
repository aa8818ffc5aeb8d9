/**
 The end of `page_allocator_init`: two frames are mapped behind the image of the
 kernel, one for the nodes of the list of ranges and one for the bitmap of their
 slots, and the list gets its first entry.
 */
module ListInit {
  import opened Options
  import opened Words
  import opened Addresses
  import opened PageTables
  import opened Mapping
  import opened Paging
  import opened VirtualRanges
  import opened RangeSets
  import opened TableCounts
  import opened Kernel
  import FrameBitmap
  import RangeFrees
  import PageRequests
  import RangeSlots
  import Links = VirtualMap

  /** `kernel_start_pointer + (n << 12)`, in 64 bits. */
  function ImageAddress(start: nat, n: int): nat { Wrap(start + n * 0x1000) }

  /** The loop after a first call of page_map: while the page asked for is
      mapped, ask for the next one, in at most limit - i rounds. */
  function Probed(r: Mapped, root: nat, start: nat, count: nat, i: nat, phys: nat, limit: nat): (p: (Mapped, nat))
    requires r.supply.Bitmap?
    ensures p.0.supply.Bitmap?
    decreases limit - i
  {
    if r.result != 1 || i >= limit then (r, i)
    else
      var va := ImageAddress(start, count + i);
      MapKeepsSupply(r.mem, r.supply, root, 0, Page(va), FrameOf(phys));
      Probed(MapPage(r.mem, r.supply, root, va, phys), root, start, count, i + 1, phys, limit)
  }

  /** The first call asks for the page behind the image, and the loop then
      goes on at the i-th page behind it. */
  function Settled(m: Memory, bits: seq<Word64>, root: nat, start: nat, count: nat, i: nat, phys: nat,
        limit: nat): (p: (Mapped, nat))
    ensures p.0.supply.Bitmap?
  {
    var va := ImageAddress(start, count);
    MapKeepsSupply(m, Bitmap(bits), root, 0, Page(va), FrameOf(phys));
    Probed(MapPage(m, Bitmap(bits), root, va, phys), root, start, count, i, phys, limit)
  }

  /** With a frame just taken. */
  function MappedBehind(m: Memory, bits: seq<Word64>, root: nat, start: nat, count: nat, i: nat, limit: nat): (p: (Mapped, nat))
    requires FrameBitmap.CanTake(bits)
    ensures p.0.supply.Bitmap?
  {
    Settled(m, FrameBitmap.Taken(bits), root, start, count, i, 0x1000 * FrameBitmap.Picked(bits), limit)
  }

  /** Memory, frame bitmap, and the list if there is one. */
  datatype Started = Started(mem: Memory, bits: seq<Word64>, list: Option<VMap>)

  /** page_unmap sets no output: `garbage` is what page_physical_free is given. */
  function GivenUp(m: Memory, bits: seq<Word64>, root: nat, base: nat, nodes: nat, garbage: nat): Started {
    Started(if Refused(base, nodes) then m else Unmapped(m, root, Page(nodes)), FrameBitmap.Released(bits, garbage / 4096), None)
  }

  /** The address that the nodes are stored at, after i rounds. */
  function NodesAt(start: nat, count: nat, i: nat): nat { ImageAddress(start, count + i - 1) }

  /** One entry, from the mirror up to the page of the nodes. `words` is what
      the page of the slot bitmap happens to hold, `atNull` what is read as the
      base of a null entry. */
  function FirstList(words: seq<Word64>, atNull: nat, base: nat, nodes: nat): VMap
    requires |words| > 0
  {
    var w: Word64 := words[0][63 := true];
    VMap([Range(0, base, Wrap(nodes + 0x1000 - base))], words[0 := w], 2, atNull)
  }

  function Init(m: Memory, bits: seq<Word64>, root: nat, base: nat, start: nat, count: nat, words: seq<Word64>, atNull: nat,
        garbage: nat, limit: nat): Started
    requires |words| > 0
  {
    if !FrameBitmap.CanTake(bits) then Started(m, bits, None)
    else
      var (r1, i) := MappedBehind(m, bits, root, start, count, 0, limit);
      var bits1 := r1.supply.words;
      if r1.result == -1 then Started(r1.mem, FrameBitmap.Released(bits1, FrameBitmap.Picked(bits)), None)
      else
        var nodes := NodesAt(start, count, i);
        if !FrameBitmap.CanTake(bits1) then GivenUp(r1.mem, bits1, root, base, nodes, garbage)
        else
          var (r2, _) := MappedBehind(r1.mem, bits1, root, start, count, i, limit);
          if r2.result == -1 then
            var g := GivenUp(r2.mem, r2.supply.words, root, base, nodes, garbage);
            g.(bits := FrameBitmap.Released(g.bits, FrameBitmap.Picked(bits1)))
          else Started(r2.mem, r2.supply.words, Some(FirstList(words, atNull, base, nodes)))
  }

  // ---------------------------------------------------------------------------
  // Pages behind the image
  // ---------------------------------------------------------------------------

  /** The j-th page behind the image. */
  function Behind(start: nat, count: nat, j: nat): nat { Page(start + (count + j) * 0x1000) }

  /** The image lies above the mirror, and so, below 2^64 and under the managed
      slots, do the pages behind it up to the b-th. */
  ghost predicate Image(slots: set<nat>, base: nat, start: nat, count: nat, b: nat) {
    && 0xFFFF_8000_0000_0000 <= base <= start && base % 0x1000 == 0
    && start + (count + b) * 0x1000 < WORD
    && forall j: nat | j <= b :: Managed(slots, 4, Behind(start, count, j))
  }

  lemma BehindIs(slots: set<nat>, base: nat, start: nat, count: nat, b: nat, j: nat)
    requires Image(slots, base, start, count, b) && j <= b
    ensures ImageAddress(start, count + j) == start + (count + j) * 0x1000
    ensures Behind(start, count, j) == (start - HIGH_HALF) / 0x1000 + count + j < PAGES
    ensures Pml4Index(start + (count + j) * 0x1000) in slots && Managed(slots, 4, Behind(start, count, j))
  {
    hide Wrap, Pml4Index, Managed, Page;
    var x := start + (count + j) * 0x1000;
    RangeFrees.SmallWrap(x);
    HighPage(x);
    PagesOn(start - HIGH_HALF, count + j);
    ManagedPage(slots, x);
  }

  /** All pages behind the image before the c-th are mapped, and the c-th is not. */
  ghost predicate MappedUpTo(m: Memory, root: nat, start: nat, count: nat, c: nat) {
    && (forall j: nat | j < c :: Walk(m, root, 4, Behind(start, count, j)).Table?)
    && !Walk(m, root, 4, Behind(start, count, c)).Table?
  }

  lemma {:induction false} ProbedIs(m: Memory, bits: seq<Word64>, root: nat, slots: set<nat>, base: nat, start: nat,
        count: nat, b: nat, i: nat, c: nat, phys: nat, limit: nat)
    requires Good(m, root, slots, true, Bitmap(bits)) && NewFrame(m, root, slots, bits, phys)
    requires Image(slots, base, start, count, b) && MappedUpTo(m, root, start, count, c) && i <= c <= b && c < limit
    ensures Probed(Mapped(m, Bitmap(bits), 1), root, start, count, i, 0x1000 * phys, limit) ==
              (MapPage(m, Bitmap(bits), root, start + (count + c) * 0x1000, 0x1000 * phys), c + 1)
    decreases c - i
  {
    hide Good, NewFrame, Walk, MapPage, Image, Behind, Page, Pml4Index, FrameOf;
    BehindIs(slots, base, start, count, b, i);
    PageBehind(start, count, i);
    if i < c {
      MapMapped(m, bits, root, slots, start + (count + i) * 0x1000, phys);
      ProbedIs(m, bits, root, slots, base, start, count, b, i + 1, c, phys, limit);
    } else {
      MapNewFrame(m, bits, root, slots, start + (count + c) * 0x1000, phys);
    }
  }

  lemma PageBehind(start: nat, count: nat, j: nat)
    ensures Behind(start, count, j) == Page(start + (count + j) * 0x1000)
  {
  }

  /** The loop amounts to one call of page_map for the first unmapped page. */
  lemma SettledIs(m: Memory, bits: seq<Word64>, root: nat, slots: set<nat>, base: nat, start: nat, count: nat, b: nat,
        i: nat, c: nat, phys: nat, limit: nat)
    requires Good(m, root, slots, true, Bitmap(bits)) && NewFrame(m, root, slots, bits, phys)
    requires Image(slots, base, start, count, b) && MappedUpTo(m, root, start, count, c) && c <= b && c < limit
    requires c == 0 || i <= c
    ensures Settled(m, bits, root, start, count, i, 0x1000 * phys, limit) ==
              (MapPage(m, Bitmap(bits), root, start + (count + c) * 0x1000, 0x1000 * phys), if c == 0 then i else c + 1)
  {
    hide Good, NewFrame, Walk, MapPage, Image, Behind, Page, Pml4Index, FrameOf;
    BehindIs(slots, base, start, count, b, 0);
    PageBehind(start, count, 0);
    if c == 0 {
      MapNewFrame(m, bits, root, slots, start + count * 0x1000, phys);
    } else {
      MapMapped(m, bits, root, slots, start + count * 0x1000, phys);
      ProbedIs(m, bits, root, slots, base, start, count, b, i, c, phys, limit);
    }
  }

  /** A frame is taken and mapped at the c-th page behind the image, the first
      that is unmapped; this fails exactly if there are too few frames for the
      page and for the tables it needs. */
  ghost predicate MappedAt(m: Memory, bits: seq<Word64>, root: nat, slots: set<nat>, page: nat, r: Mapped)
    requires FrameBitmap.CanTake(bits)
  {
    var f := FrameBitmap.Picked(bits);
    && r.supply.Bitmap? && Good(r.mem, root, slots, true, r.supply)
    && r.result == (if FrameBitmap.Rooms(bits) <= Missing(m, root, page, 0) then -1 else 0)
    && (r.result == 0 ==> FrameBitmap.Rooms(r.supply.words) == FrameBitmap.Rooms(bits) - 1 - Missing(m, root, page, 0))
    && FrameBitmap.IsFree(bits, f) && FrameBitmap.Released(r.supply.words, f) == r.supply.words
    && StaysTaken(bits, r.supply.words) && !FrameBitmap.IsFree(r.supply.words, f)
    && GrowsAlong(m, r.mem, root, page) && (r.result == 0 ==> HasTables(r.mem, root, page))
    && Retranslated(m, r.mem, root, page, if r.result == 0 then Some(f) else None)
    && (forall p: nat | p < PAGES ::
          Walk(r.mem, root, 4, p).Table? <==> Walk(m, root, 4, p).Table? || (r.result == 0 && p == page))
  }

  lemma MappedBehindIs(m: Memory, bits: seq<Word64>, root: nat, slots: set<nat>, base: nat, start: nat, count: nat, b: nat,
        i: nat, c: nat, limit: nat)
    requires Good(m, root, slots, true, Bitmap(bits)) && FrameBitmap.CanTake(bits)
    requires Image(slots, base, start, count, b) && MappedUpTo(m, root, start, count, c) && c <= b && c < limit
    requires c == 0 || i <= c
    ensures var (r, i') := MappedBehind(m, bits, root, start, count, i, limit);
            i' == (if c == 0 then i else c + 1) && MappedAt(m, bits, root, slots, Behind(start, count, c), r)
  {
    hide Good, NewFrame, Walk, MapPage, Image, Behind, Page, Pml4Index, Settled, Retranslated, GrowsAlong, HasTables, StaysTaken,
      FrameBitmap.Taken, FrameBitmap.Picked, FrameBitmap.Rooms, Missing, MappedAt, FrameBitmap.CanTake;
    var f, bits1, va := FrameBitmap.Picked(bits), FrameBitmap.Taken(bits), start + (count + c) * 0x1000;
    TakenIsNew(m, root, slots, bits);
    SettledIs(m, bits1, root, slots, base, start, count, b, i, c, f, limit);
    BehindIs(slots, base, start, count, b, c);
    PageBehind(start, count, c);
    NotMappedBehind(m, root, start, count, c);
    TakenMappedAt(m, bits, root, slots, va);
  }

  lemma NotMappedBehind(m: Memory, root: nat, start: nat, count: nat, c: nat)
    requires MappedUpTo(m, root, start, count, c)
    ensures !Walk(m, root, 4, Behind(start, count, c)).Table?
  {
  }

  lemma TakenMappedAt(m: Memory, bits: seq<Word64>, root: nat, slots: set<nat>, va: nat)
    requires Good(m, root, slots, true, Bitmap(bits)) && FrameBitmap.CanTake(bits)
    requires Pml4Index(va) in slots && !Walk(m, root, 4, Page(va)).Table?
    ensures MappedAt(m, bits, root, slots, Page(va),
                     MapPage(m, Bitmap(FrameBitmap.Taken(bits)), root, va, 0x1000 * FrameBitmap.Picked(bits)))
  {
    hide Good, NewFrame, Walk, MapPage, Page, Pml4Index, Retranslated, GrowsAlong, HasTables,
      FrameBitmap.Taken, FrameBitmap.Picked, FrameBitmap.Rooms, Missing, FrameBitmap.CanTake, FrameBitmap.Released;
    var f, bits1 := FrameBitmap.Picked(bits), FrameBitmap.Taken(bits);
    FrameBitmap.TakeIs(bits);
    FrameBitmap.TakeUsesOneRoom(bits);
    TakenIsNew(m, root, slots, bits);
    MapNewFrame(m, bits1, root, slots, va, f);
    var s := MapPage(m, Bitmap(bits1), root, va, 0x1000 * f).supply;
    NewIsMarked(m, root, slots, bits1, f);
    ReleaseIsNoOp(bits1, s, f);
    assert !Holds(s, f);
    StillTaken(bits, bits1, s);
  }

  lemma NewIsMarked(m: Memory, root: nat, slots: set<nat>, bits: seq<Word64>, f: nat)
    requires NewFrame(m, root, slots, bits, f)
    ensures FrameBitmap.IsMarked(bits, f) && !FrameBitmap.IsFree(bits, f)
  {
  }

  lemma StillTaken(bits: seq<Word64>, bits1: seq<Word64>, s: Supply)
    requires StaysTaken(bits, bits1) && s.Bitmap? && forall f: nat :: Holds(s, f) ==> FrameBitmap.IsFree(bits1, f)
    ensures StaysTaken(bits, s.words)
  {
    hide FrameBitmap.IsFree;
    forall f: nat | FrameBitmap.IsFree(s.words, f) ensures FrameBitmap.IsFree(bits, f) {
      assert Holds(s, f);
    }
  }

  // ---------------------------------------------------------------------------
  // What the end of page_allocator_init does
  // ---------------------------------------------------------------------------

  /** The a-th and the b-th page are the first two behind the image that are not mapped. */
  ghost predicate Gaps(m: Memory, root: nat, start: nat, count: nat, a: nat, b: nat) {
    && a < b && MappedUpTo(m, root, start, count, a) && !Walk(m, root, 4, Behind(start, count, b)).Table?
    && forall j: nat | a < j < b :: Walk(m, root, 4, Behind(start, count, j)).Table?
  }

  /** The tables that page q needs and does not have, once those of page p are there. */
  ghost function MissingAfter(m: Memory, root: nat, p: nat, q: nat): nat {
    (if Walk(m, root, 1, Prefix(q, 1)) == Absent && Prefix(q, 1) != Prefix(p, 1) then 1 else 0)
    + (if Walk(m, root, 2, Prefix(q, 2)) == Absent && Prefix(q, 2) != Prefix(p, 2) then 1 else 0)
    + (if Walk(m, root, 3, Prefix(q, 3)) == Absent && Prefix(q, 3) != Prefix(p, 3) then 1 else 0)
  }

  /** How many frames two pages need, with their tables. */
  ghost function FramesFor(m: Memory, root: nat, p: nat, q: nat): nat {
    2 + Missing(m, root, p, 0) + MissingAfter(m, root, p, q)
  }

  lemma MissingOnceMapped(m: Memory, m1: Memory, root: nat, p: nat, q: nat)
    requires GrowsAlong(m, m1, root, p) && HasTables(m1, root, p) && q < PAGES
    ensures Missing(m1, root, q, 0) == MissingAfter(m, root, p, q)
  {
    hide Walk, Span, Prefix;
    MissingIs(m1, root, q);
    forall d | 1 <= d <= 3
      ensures Walk(m1, root, d, Prefix(q, d)) == Absent <==>
                Walk(m, root, d, Prefix(q, d)) == Absent && Prefix(q, d) != Prefix(p, d)
    {
      PrefixIsPath(q, d);
      assert Walk(m1, root, d, Prefix(p, d)).Table?;
    }
  }

  lemma NextGap(m: Memory, bits: seq<Word64>, root: nat, slots: set<nat>, base: nat, start: nat, count: nat, a: nat, b: nat,
        r: Mapped)
    requires Image(slots, base, start, count, b) && Gaps(m, root, start, count, a, b) && FrameBitmap.CanTake(bits)
    requires MappedAt(m, bits, root, slots, Behind(start, count, a), r) && r.result == 0
    ensures MappedUpTo(r.mem, root, start, count, b) && Behind(start, count, a) != Behind(start, count, b)
  {
    hide Walk, Behind, Good, Image, Retranslated, GrowsAlong, HasTables, Missing, FrameBitmap.Rooms, StaysTaken;
    BehindIs(slots, base, start, count, b, a);
    BehindIs(slots, base, start, count, b, b);
    forall j: nat | j < b ensures Walk(r.mem, root, 4, Behind(start, count, j)).Table? {
      BehindIs(slots, base, start, count, b, j);
    }
  }

  /** Where the list ends: at the first page behind the image, or at the one
      behind the page of the nodes. */
  function EndIndex(a: nat): nat { if a == 0 then 0 else a + 1 }

  ghost predicate NewlyMapped(bits: seq<Word64>, bits': seq<Word64>, m: Memory, root: nat, p: nat) {
    Translate(m, root, p).Some? && FrameBitmap.IsFree(bits, Translate(m, root, p).value)
    && !FrameBitmap.IsFree(bits', Translate(m, root, p).value)
  }

  /** The two pages are mapped to frames that were free, all others translate as
      before, and the tables stay fit for the kernel; the list has one entry,
      which ends at the page named. */
  ghost predicate SetUp(m: Memory, bits: seq<Word64>, root: nat, slots: set<nat>, base: nat, start: nat, count: nat, a: nat,
        b: nat, k: Started)
  {
    && k.list.Some? && Good(k.mem, root, slots, true, Bitmap(k.bits)) && StaysTaken(bits, k.bits)
    && NewlyMapped(bits, k.bits, k.mem, root, Behind(start, count, a))
    && NewlyMapped(bits, k.bits, k.mem, root, Behind(start, count, b))
    && (forall p: nat | p < PAGES && p != Behind(start, count, a) && p != Behind(start, count, b) ::
          Translate(k.mem, root, p) == Translate(m, root, p))
    && (forall p: nat | p < PAGES :: Walk(k.mem, root, 4, p).Table? <==>
          Walk(m, root, 4, p).Table? || p == Behind(start, count, a) || p == Behind(start, count, b))
    && RangeSlots.SlotSafe(k.list.value) && k.list.value.limit == 2 && base <= start
    && k.list.value.list == [Range(0, base, start + (count + EndIndex(a)) * 0x1000 - base)]
  }

  /** It succeeds exactly if there are frames for two pages and their tables. */
  lemma InitIs(m: Memory, bits: seq<Word64>, root: nat, slots: set<nat>, base: nat, start: nat, count: nat, a: nat, b: nat,
        words: seq<Word64>, atNull: nat, garbage: nat, limit: nat)
    requires Good(m, root, slots, true, Bitmap(bits)) && Image(slots, base, start, count, b)
    requires Gaps(m, root, start, count, a, b) && b < limit && |words| >= 8
    ensures var k := Init(m, bits, root, base, start, count, words, atNull, garbage, limit);
            && (k.list.Some? <==> FramesFor(m, root, Behind(start, count, a), Behind(start, count, b)) <= FrameBitmap.Rooms(bits))
            && (k.list.Some? ==> SetUp(m, bits, root, slots, base, start, count, a, b, k))
  {
    hide Good, Walk, Behind, Image, Missing, MissingAfter, MappedAt, MappedBehind, FrameBitmap.CanTake, FrameBitmap.Rooms,
      FrameBitmap.Released, FrameBitmap.Picked, FirstList, NodesAt, SetUp, Gaps, Unmapped, Refused;
    FrameBitmap.RoomsPositive(bits);
    if FrameBitmap.CanTake(bits) {
      var (r1, i) := MappedBehind(m, bits, root, start, count, 0, limit);
      FirstGap(m, root, start, count, a, b);
      MappedBehindIs(m, bits, root, slots, base, start, count, b, 0, a, limit);
      FramesAt(m, bits, root, slots, Behind(start, count, a), r1);
      if r1.result == 0 {
        SecondIs(m, bits, root, slots, base, start, count, a, b, words, atNull, r1, limit);
      }
    }
  }

  lemma FirstGap(m: Memory, root: nat, start: nat, count: nat, a: nat, b: nat)
    requires Gaps(m, root, start, count, a, b)
    ensures a < b && MappedUpTo(m, root, start, count, a)
  {
  }

  lemma FramesAt(m: Memory, bits: seq<Word64>, root: nat, slots: set<nat>, page: nat, r: Mapped)
    requires FrameBitmap.CanTake(bits) && MappedAt(m, bits, root, slots, page, r)
    ensures r.result == if FrameBitmap.Rooms(bits) <= Missing(m, root, page, 0) then -1 else 0
    ensures r.supply.Bitmap? && Good(r.mem, root, slots, true, r.supply)
    ensures r.result == 0 ==> FrameBitmap.Rooms(r.supply.words) == FrameBitmap.Rooms(bits) - 1 - Missing(m, root, page, 0)
    ensures r.result == 0 ==> GrowsAlong(m, r.mem, root, page) && HasTables(r.mem, root, page)
  {
  }

  lemma SecondIs(m: Memory, bits: seq<Word64>, root: nat, slots: set<nat>, base: nat, start: nat, count: nat, a: nat, b: nat,
        words: seq<Word64>, atNull: nat, r1: Mapped, limit: nat)
    requires Image(slots, base, start, count, b) && Gaps(m, root, start, count, a, b) && b < limit && |words| >= 8
    requires FrameBitmap.CanTake(bits) && MappedAt(m, bits, root, slots, Behind(start, count, a), r1) && r1.result == 0
    ensures r1.supply.Bitmap?
    ensures var bits1, pa, pb := r1.supply.words, Behind(start, count, a), Behind(start, count, b);
            if FrameBitmap.CanTake(bits1) then
              var r2 := MappedBehind(r1.mem, bits1, root, start, count, EndIndex(a), limit).0;
              var k := Started(r2.mem, r2.supply.words, Some(FirstList(words, atNull, base, NodesAt(start, count, EndIndex(a)))));
              && (r2.result != -1 <==> FramesFor(m, root, pa, pb) <= FrameBitmap.Rooms(bits))
              && (r2.result != -1 ==> SetUp(m, bits, root, slots, base, start, count, a, b, k))
            else FramesFor(m, root, pa, pb) > FrameBitmap.Rooms(bits)
  {
    hide Good, Walk, Behind, Image, Missing, MissingAfter, MappedAt, MappedBehind, FrameBitmap.CanTake, FrameBitmap.Rooms,
      FrameBitmap.Released, FrameBitmap.Picked, FirstList, NodesAt, SetUp, Gaps, GrowsAlong, HasTables;
    FramesAt(m, bits, root, slots, Behind(start, count, a), r1);
    var bits1, pa, pb := r1.supply.words, Behind(start, count, a), Behind(start, count, b);
    FirstGap(m, root, start, count, a, b);
    BehindIs(slots, base, start, count, b, b);
    NextGap(m, bits, root, slots, base, start, count, a, b, r1);
    MissingOnceMapped(m, r1.mem, root, pa, pb);
    FrameBitmap.RoomsPositive(bits1);
    if FrameBitmap.CanTake(bits1) {
      var r2 := MappedBehind(r1.mem, bits1, root, start, count, EndIndex(a), limit).0;
      MappedBehindIs(r1.mem, bits1, root, slots, base, start, count, b, EndIndex(a), b, limit);
      FramesAt(r1.mem, bits1, root, slots, pb, r2);
      if r2.result == 0 {
        BothMapped(m, bits, root, slots, base, start, count, a, b, words, atNull, r1, r2);
      }
    }
  }

  lemma BothMapped(m: Memory, bits: seq<Word64>, root: nat, slots: set<nat>, base: nat, start: nat, count: nat, a: nat, b: nat,
        words: seq<Word64>, atNull: nat, r1: Mapped, r2: Mapped)
    requires Image(slots, base, start, count, b) && a < b && |words| >= 8 && Behind(start, count, a) != Behind(start, count, b)
    requires FrameBitmap.CanTake(bits) && MappedAt(m, bits, root, slots, Behind(start, count, a), r1) && r1.result == 0
    requires FrameBitmap.CanTake(r1.supply.words) && MappedAt(r1.mem, r1.supply.words, root, slots, Behind(start, count, b), r2)
    requires r2.result == 0
    ensures SetUp(m, bits, root, slots, base, start, count, a, b,
                  Started(r2.mem, r2.supply.words, Some(FirstList(words, atNull, base, NodesAt(start, count, EndIndex(a))))))
  {
    hide Good, Walk, Behind, Missing, FrameBitmap.CanTake, FrameBitmap.Rooms, FrameBitmap.Released,
      FrameBitmap.Picked, FirstList, NodesAt, Translate, FrameBitmap.IsFree, GrowsAlong, HasTables, RangeSlots.SlotSafe;
    FirstListIs(slots, base, start, count, a, b, words, atNull);
    BehindIs(slots, base, start, count, b, a);
    BehindIs(slots, base, start, count, b, b);
  }

  lemma FirstListIs(slots: set<nat>, base: nat, start: nat, count: nat, a: nat, b: nat, words: seq<Word64>, atNull: nat)
    requires Image(slots, base, start, count, b) && a < b && |words| >= 8
    ensures var v := FirstList(words, atNull, base, NodesAt(start, count, EndIndex(a)));
            && RangeSlots.SlotSafe(v) && v.limit == 2 && base <= start
            && v.list == [Range(0, base, start + (count + EndIndex(a)) * 0x1000 - base)]
  {
    hide Behind, Managed;
    var e := start + (count + EndIndex(a)) * 0x1000;
    assert start + (count + EndIndex(a) - 1) * 0x1000 == e - 0x1000;
    RangeFrees.SmallWrap(e - 0x1000);
    RangeFrees.SmallWrap(e - base);
  }

  /** In the page of the slot bitmap exactly bit 63 of the first word comes to be set. */
  lemma FirstListWords(m: Memory, bits: seq<Word64>, root: nat, base: nat, start: nat, count: nat, words: seq<Word64>, atNull: nat,
        garbage: nat, limit: nat)
    requires |words| > 0
    ensures var k := Init(m, bits, root, base, start, count, words, atNull, garbage, limit);
            k.list.Some? ==> RangeSlots.SetsFor(words, k.list.value.words, 63) && k.list.value.atNull == atNull
  {
    hide MappedBehind, FrameBitmap.CanTake, FrameBitmap.Released, FrameBitmap.Picked, NodesAt, Unmapped, RangeSlots.SetsFor, FirstList;
    forall nodes: nat ensures var v := FirstList(words, atNull, base, nodes); RangeSlots.SetsFor(words, v.words, 63) && v.atNull == atNull {
      FirstListSets(words, atNull, base, nodes);
    }
  }

  lemma FirstListSets(words: seq<Word64>, atNull: nat, base: nat, nodes: nat)
    requires |words| > 0
    ensures var v := FirstList(words, atNull, base, nodes); RangeSlots.SetsFor(words, v.words, 63) && v.atNull == atNull
  {
    hide Wrap;
  }

  lemma MappedBehindDraws(m: Memory, bits: seq<Word64>, root: nat, slots: set<nat>, base: nat, start: nat, count: nat, b: nat,
        i: nat, c: nat, limit: nat)
    requires Good(m, root, slots, true, Bitmap(bits)) && FrameBitmap.CanTake(bits)
    requires Image(slots, base, start, count, b) && MappedUpTo(m, root, start, count, c) && c <= b && c < limit
    requires c == 0 || i <= c
    ensures MappedBehind(m, bits, root, start, count, i, limit).0.supply ==
              DrawnTimes(Bitmap(bits), 1 + Missing(m, root, Behind(start, count, c), 0))
  {
    hide Good, NewFrame, Walk, MapPage, Image, Behind, Page, Pml4Index, Settled, FrameBitmap.Taken, FrameBitmap.Picked, Missing,
      FrameBitmap.CanTake;
    var va := start + (count + c) * 0x1000;
    TakenIsNew(m, root, slots, bits);
    SettledIs(m, FrameBitmap.Taken(bits), root, slots, base, start, count, b, i, c, FrameBitmap.Picked(bits), limit);
    BehindIs(slots, base, start, count, b, c);
    PageBehind(start, count, c);
    PageRequests.MappingDraws(m, bits, root, slots, va);
    PageRequests.OneDrawn(bits, Missing(m, root, Page(va), 0));
  }

  /** The frames drawn, whether it succeeds or fails: two, and one for each table
      missing, or all there are. None comes back, and after a failure with the
      first page mapped a frame that nothing has chosen is marked as well. */
  lemma InitDraws(m: Memory, bits: seq<Word64>, root: nat, slots: set<nat>, base: nat, start: nat, count: nat, a: nat, b: nat,
        words: seq<Word64>, atNull: nat, garbage: nat, limit: nat)
    requires Good(m, root, slots, true, Bitmap(bits)) && Image(slots, base, start, count, b)
    requires Gaps(m, root, start, count, a, b) && b < limit && |words| >= 8
    ensures var k := Init(m, bits, root, base, start, count, words, atNull, garbage, limit);
            var drawn := DrawnTimes(Bitmap(bits), FramesFor(m, root, Behind(start, count, a), Behind(start, count, b))).words;
            k.bits == if k.list.Some? || FrameBitmap.Rooms(bits) <= Missing(m, root, Behind(start, count, a), 0) then drawn
                      else FrameBitmap.Released(drawn, garbage / 4096)
  {
    hide Good, Walk, Behind, Image, Missing, MissingAfter, MappedAt, MappedBehind, FrameBitmap.CanTake, FrameBitmap.Rooms,
      FrameBitmap.Released, FrameBitmap.Picked, FirstList, NodesAt, Gaps, Unmapped, Refused, DrawnTimes, GrowsAlong, HasTables;
    FrameBitmap.RoomsPositive(bits);
    var pa, pb := Behind(start, count, a), Behind(start, count, b);
    DrawnMore(Bitmap(bits), 1 + Missing(m, root, pa, 0), 1 + MissingAfter(m, root, pa, pb));
    if FrameBitmap.CanTake(bits) {
      var (r1, i) := MappedBehind(m, bits, root, start, count, 0, limit);
      FirstGap(m, root, start, count, a, b);
      MappedBehindIs(m, bits, root, slots, base, start, count, b, 0, a, limit);
      MappedBehindDraws(m, bits, root, slots, base, start, count, b, 0, a, limit);
      FramesAt(m, bits, root, slots, pa, r1);
      ReleasedAt(m, bits, root, slots, pa, r1);
      var bits1 := r1.supply.words;
      FrameBitmap.RoomsPositive(bits1);
      DrawnRooms(Bitmap(bits), 1 + Missing(m, root, pa, 0));
      if r1.result == 0 && FrameBitmap.CanTake(bits1) {
        NextGap(m, bits, root, slots, base, start, count, a, b, r1);
        BehindIs(slots, base, start, count, b, b);
        MissingOnceMapped(m, r1.mem, root, pa, pb);
        MappedBehindIs(r1.mem, bits1, root, slots, base, start, count, b, i, b, limit);
        MappedBehindDraws(r1.mem, bits1, root, slots, base, start, count, b, i, b, limit);
        var r2 := MappedBehind(r1.mem, bits1, root, start, count, i, limit).0;
        FramesAt(r1.mem, bits1, root, slots, pb, r2);
        ReleasedAt(r1.mem, bits1, root, slots, pb, r2);
        StillMarked(r2.supply.words, garbage / 4096, FrameBitmap.Picked(bits1));
      } else {
        PageRequests.NoneDrawn(bits1, 1 + MissingAfter(m, root, pa, pb));
      }
    } else {
      PageRequests.NoneDrawn(bits, FramesFor(m, root, pa, pb));
    }
  }

  lemma ReleasedAt(m: Memory, bits: seq<Word64>, root: nat, slots: set<nat>, page: nat, r: Mapped)
    requires FrameBitmap.CanTake(bits) && MappedAt(m, bits, root, slots, page, r)
    ensures FrameBitmap.Released(r.supply.words, FrameBitmap.Picked(bits)) == r.supply.words
  {
  }

  lemma StillMarked(bits: seq<Word64>, f: nat, g: nat)
    requires FrameBitmap.Released(bits, g) == bits
    ensures FrameBitmap.Released(FrameBitmap.Released(bits, f), g) == FrameBitmap.Released(bits, f)
  {
    if f / 64 < |bits| {
      FrameBitmap.FreeNeverFrees(bits, f);
    }
    if g / 64 < |bits| {
      FrameBitmap.FreeNeverFrees(bits, g);
    }
  }

  /** The last page of the image is mapped, under a managed slot. */
  ghost predicate ImageMapped(m: Memory, root: nat, slots: set<nat>, start: nat, count: nat) {
    && count > 0 && Managed(slots, 4, Page(start + (count - 1) * 0x1000))
    && Walk(m, root, 4, Page(start + (count - 1) * 0x1000)).Table?
  }

  /** The page that holds the nodes, as the code has it. */
  function NodesPage(start: nat, count: nat, a: nat): nat
    requires count > 0
  {
    if a == 0 then Page(start + (count - 1) * 0x1000) else Behind(start, count, a)
  }

  /** If it fails with the first page mapped, the page thought to hold the nodes is unmapped. */
  lemma InitFailsIs(m: Memory, bits: seq<Word64>, root: nat, slots: set<nat>, base: nat, start: nat, count: nat, a: nat,
        b: nat, words: seq<Word64>, atNull: nat, garbage: nat, limit: nat)
    requires Good(m, root, slots, true, Bitmap(bits)) && Image(slots, base, start, count, b)
    requires Gaps(m, root, start, count, a, b) && b < limit && |words| >= 8 && ImageMapped(m, root, slots, start, count)
    requires Init(m, bits, root, base, start, count, words, atNull, garbage, limit).list.None?
    ensures var k := Init(m, bits, root, base, start, count, words, atNull, garbage, limit);
            forall p: nat | p < PAGES :: Translate(k.mem, root, p) ==
              if FrameBitmap.Rooms(bits) <= Missing(m, root, Behind(start, count, a), 0) then Translate(m, root, p)
              else if p == NodesPage(start, count, a) then None
              else if p == Behind(start, count, a) && FrameBitmap.CanTake(bits) then Some(FrameBitmap.Picked(bits))
              else Translate(m, root, p)
  {
    hide Good, Walk, Behind, Image, Missing, MissingAfter, MappedAt, MappedBehind, FrameBitmap.CanTake, FrameBitmap.Rooms,
      FrameBitmap.Released, FrameBitmap.Picked, FirstList, NodesAt, NodesPage, Gaps, GivenUp, ImageMapped, Translate;
    FrameBitmap.RoomsPositive(bits);
    if FrameBitmap.CanTake(bits) {
      var pa := Behind(start, count, a);
      var (r1, i) := MappedBehind(m, bits, root, start, count, 0, limit);
      FirstGap(m, root, start, count, a, b);
      MappedBehindIs(m, bits, root, slots, base, start, count, b, 0, a, limit);
      FramesAt(m, bits, root, slots, pa, r1);
      RetranslatedAt(m, bits, root, slots, pa, r1);
      if r1.result == 0 {
        var bits1 := r1.supply.words;
        NextGap(m, bits, root, slots, base, start, count, a, b, r1);
        NodesMapped(m, bits, root, slots, base, start, count, a, b, r1);
        if FrameBitmap.CanTake(bits1) {
          var r2 := MappedBehind(r1.mem, bits1, root, start, count, i, limit).0;
          MappedBehindIs(r1.mem, bits1, root, slots, base, start, count, b, i, b, limit);
          FramesAt(r1.mem, bits1, root, slots, Behind(start, count, b), r2);
          RetranslatedAt(r1.mem, bits1, root, slots, Behind(start, count, b), r2);
          GivenUpIs(r2.mem, r2.supply, r2.supply.words, root, slots, base, start, count, a, garbage);
        } else {
          GivenUpIs(r1.mem, r1.supply, bits1, root, slots, base, start, count, a, garbage);
        }
      }
    }
  }

  lemma RetranslatedAt(m: Memory, bits: seq<Word64>, root: nat, slots: set<nat>, page: nat, r: Mapped)
    requires FrameBitmap.CanTake(bits) && MappedAt(m, bits, root, slots, page, r)
    ensures forall p: nat | p < PAGES :: Translate(r.mem, root, p) ==
              if r.result == 0 && p == page then Some(FrameBitmap.Picked(bits)) else Translate(m, root, p)
    ensures forall p: nat | p < PAGES && Walk(m, root, 4, p).Table? :: Walk(r.mem, root, 4, p).Table?
    ensures r.result == 0 && page < PAGES ==> Walk(r.mem, root, 4, page).Table?
  {
  }

  lemma NodesMapped(m: Memory, bits: seq<Word64>, root: nat, slots: set<nat>, base: nat, start: nat, count: nat, a: nat,
        b: nat, r: Mapped)
    requires Image(slots, base, start, count, b) && a < b && ImageMapped(m, root, slots, start, count)
    requires FrameBitmap.CanTake(bits) && MappedAt(m, bits, root, slots, Behind(start, count, a), r) && r.result == 0
    ensures count > 0 && !Refused(base, NodesAt(start, count, EndIndex(a)))
    ensures Page(NodesAt(start, count, EndIndex(a))) == NodesPage(start, count, a) < PAGES
    ensures Managed(slots, 4, NodesPage(start, count, a)) && Walk(r.mem, root, 4, NodesPage(start, count, a)).Table?
  {
    hide Good, Walk, Behind, Missing, MappedAt, FrameBitmap.CanTake, FrameBitmap.Picked, Translate, Managed, Page;
    RetranslatedAt(m, bits, root, slots, Behind(start, count, a), r);
    BehindIs(slots, base, start, count, b, a);
    PageBehind(start, count, a);
    var x := start + (count + EndIndex(a) - 1) * 0x1000;
    RangeFrees.SmallWrap(x);
    HighPage(x);
  }

  lemma GivenUpIs(m: Memory, s: Supply, bits: seq<Word64>, root: nat, slots: set<nat>, base: nat, start: nat, count: nat,
        a: nat, garbage: nat)
    requires Good(m, root, slots, true, s) && count > 0 && !Refused(base, NodesAt(start, count, EndIndex(a)))
    requires Page(NodesAt(start, count, EndIndex(a))) == NodesPage(start, count, a) < PAGES
    requires Managed(slots, 4, NodesPage(start, count, a)) && Walk(m, root, 4, NodesPage(start, count, a)).Table?
    ensures var g := GivenUp(m, bits, root, base, NodesAt(start, count, EndIndex(a)), garbage);
            forall p: nat | p < PAGES :: Translate(g.mem, root, p) ==
              if p == NodesPage(start, count, a) then None else Translate(m, root, p)
  {
    hide Good, NodesAt, NodesPage, Unmapped, Translate, LastTable;
    UnmapIs(m, root, slots, true, s, NodesPage(start, count, a));
  }

  /** A failure leaves every translation as it was exactly if no page was mapped,
      or the image was followed by a mapped page already. If it was not, the last
      page of the image gets unmapped, and the page behind it stays mapped. */
  lemma InitFailureRestoresIff(m: Memory, bits: seq<Word64>, root: nat, slots: set<nat>, base: nat, start: nat, count: nat,
        a: nat, b: nat, words: seq<Word64>, atNull: nat, garbage: nat, limit: nat)
    requires Good(m, root, slots, true, Bitmap(bits)) && Image(slots, base, start, count, b)
    requires Gaps(m, root, start, count, a, b) && b < limit && |words| >= 8 && ImageMapped(m, root, slots, start, count)
    requires Init(m, bits, root, base, start, count, words, atNull, garbage, limit).list.None?
    ensures var k := Init(m, bits, root, base, start, count, words, atNull, garbage, limit);
            (forall p: nat | p < PAGES :: Translate(k.mem, root, p) == Translate(m, root, p)) <==>
              a > 0 || FrameBitmap.Rooms(bits) <= Missing(m, root, Behind(start, count, a), 0)
  {
    InitFailsIs(m, bits, root, slots, base, start, count, a, b, words, atNull, garbage, limit);
    NodesBefore(m, bits, root, slots, base, start, count, a, b);
    hide Good, Walk, Behind, Image, Missing, FrameBitmap.CanTake, FrameBitmap.Rooms, FrameBitmap.Picked, NodesPage, Gaps,
      ImageMapped, Translate, Init;
    var k := Init(m, bits, root, base, start, count, words, atNull, garbage, limit);
    if a == 0 && FrameBitmap.Rooms(bits) > Missing(m, root, Behind(start, count, a), 0) {
      assert Translate(k.mem, root, NodesPage(start, count, a)) == None;
    }
  }

  lemma NodesBefore(m: Memory, bits: seq<Word64>, root: nat, slots: set<nat>, base: nat, start: nat, count: nat, a: nat, b: nat)
    requires Good(m, root, slots, true, Bitmap(bits)) && Image(slots, base, start, count, b)
    requires Gaps(m, root, start, count, a, b) && ImageMapped(m, root, slots, start, count)
    ensures count > 0 && NodesPage(start, count, a) < PAGES
    ensures Translate(m, root, NodesPage(start, count, a)).Some? <==> a == 0
    ensures a > 0 ==> NodesPage(start, count, a) == Behind(start, count, a)
  {
    hide Walk, Behind, Managed, Private, Reserved;
    BehindIs(slots, base, start, count, b, a);
    HighPage(start + (count - 1) * 0x1000);
    var p := NodesPage(start, count, a);
    PrefixIsPath(p, 4);
    assert Prefix(p, 4) == p;
    assert !Walk(m, root, 4, p).Huge?;
  }

  // ---------------------------------------------------------------------------
  // The state it leaves
  // ---------------------------------------------------------------------------

  /** The state that the first request finds. */
  function FirstState(k: Started): State
    requires k.list.Some?
  {
    State(k.mem, k.bits, k.list.value, false)
  }

  /** From tables fit for the kernel, consistent or not, one of the single-page
      allocations panics exactly if it gets a frame and a range whose page is mapped. */
  lemma AllocationPanicsIff(k: State, root: nat, slots: set<nat>, p: Policy)
    requires Good(k.mem, root, slots, true, Bitmap(k.bits)) && k.Shaped() && !k.panicked
    requires Pml4Index(Choose(k.v, p).frame) in slots
    ensures PageAlloc(k, root, p).0.panicked <==>
              && FrameBitmap.CanTake(k.bits) && Choose(k.v, p).result == 0
              && Walk(k.mem, root, 4, Page(Choose(k.v, p).frame)).Table?
  {
    hide Good, NewFrame, Walk, MapPage, Choose, Free, FrameBitmap.Released, VMap.Shaped, Page, Pml4Index, Retranslated;
    if FrameBitmap.CanTake(k.bits) && Choose(k.v, p).result == 0 {
      TakenIsNew(k.mem, root, slots, k.bits);
      var a, bits, f := Choose(k.v, p).frame, FrameBitmap.Taken(k.bits), FrameBitmap.Picked(k.bits);
      if Walk(k.mem, root, 4, Page(a)).Table? {
        MapMapped(k.mem, bits, root, slots, a, f);
      } else {
        MapNewFrame(k.mem, bits, root, slots, a, f);
      }
    }
  }

  /** The requests that a list of one entry, ending at `end`, answers with that address. */
  predicate AsksFor(p: Policy, end: nat) {
    match p
    case Lowest => true
    case At(f) => f == end
    case After(b) => b <= end
    case BeyondEx(b, j) => j == 0 && b <= end
  }

  lemma AnsweredAtEnd(v: VMap, p: Policy)
    requires v.Shaped() && |v.list| == 1 && 0 < v.list[0].End() < WORD && AsksFor(p, v.list[0].End())
    ensures Choose(v, p).result == 0 && Choose(v, p).frame == v.list[0].End()
  {
    RangeFrees.SmallWrap(v.list[0].End());
  }

  /** The page at which the list ends is mapped and not on it, so the state is
      not consistent, and each of these requests panics as soon as there is a
      frame; page_alloc is one of them. */
  lemma FirstRequestPanics(m: Memory, bits: seq<Word64>, root: nat, slots: set<nat>, base: nat, start: nat, count: nat,
        a: nat, b: nat, k: Started, p: Policy)
    requires Image(slots, base, start, count, b) && Gaps(m, root, start, count, a, b)
    requires SetUp(m, bits, root, slots, base, start, count, a, b, k)
    ensures !Inv(FirstState(k), root, slots) && FirstState(k).Shaped()
    ensures var end := start + (count + EndIndex(a)) * 0x1000;
            && k.list.value.list[0].End() == end && Translate(k.mem, root, Page(end)).Some?
            && (AsksFor(p, end) ==> (PageAlloc(FirstState(k), root, p).0.panicked <==> FrameBitmap.CanTake(k.bits)))
  {
    hide Good, Walk, Behind, Translate, Choose, PageAlloc, FrameBitmap.CanTake, RangeSlots.SlotSafe, Registered, NewlyMapped,
      StaysTaken, AsksFor, Pml4Index, Managed, Canonical, Page;
    var v, end := k.list.value, start + (count + EndIndex(a)) * 0x1000;
    EndMapped(m, root, slots, base, start, count, a, b, k.mem);
    SafeShape(v);
    NotConsistent(k.mem, k.bits, v, root, slots, base, end);
    if AsksFor(p, end) {
      AnsweredAtEnd(v, p);
      AllocationPanicsIff(FirstState(k), root, slots, p);
    }
  }

  lemma SafeShape(v: VMap)
    requires RangeSlots.SlotSafe(v)
    ensures v.Shaped() && v.list != []
  {
  }

  lemma EndMapped(m: Memory, root: nat, slots: set<nat>, base: nat, start: nat, count: nat, a: nat, b: nat, m': Memory)
    requires Image(slots, base, start, count, b) && Gaps(m, root, start, count, a, b)
    requires forall p: nat | p < PAGES :: Walk(m', root, 4, p).Table? <==>
               Walk(m, root, 4, p).Table? || p == Behind(start, count, a) || p == Behind(start, count, b)
    ensures var end := start + (count + EndIndex(a)) * 0x1000;
            && HIGH_HALF + 0x8000_0000_0000 <= end < WORD && Page(end) < PAGES
            && Pml4Index(end) in slots && Managed(slots, 4, Page(end))
            && Walk(m', root, 4, Page(end)).Table? && Translate(m', root, Page(end)).Some?
  {
    hide Walk, Behind, Managed, Pml4Index, Page;
    BehindIs(slots, base, start, count, b, EndIndex(a));
    PageBehind(start, count, EndIndex(a));
  }

  lemma NotConsistent(m: Memory, bits: seq<Word64>, v: VMap, root: nat, slots: set<nat>, base: nat, end: nat)
    requires base <= end && v.list == [Range(0, base, end - base)] && 0xFFFF_8000_0000_0000 <= end < WORD
    requires Managed(slots, 4, Page(end)) && Page(end) < PAGES && Walk(m, root, 4, Page(end)).Table?
    ensures !Inv(State(m, bits, v, false), root, slots)
  {
    hide Walk, Managed, Good, RangeSlots.SlotSafe;
    if Ordered(v.list) {
      AlignedEnd(v.list[0]);
      AddressOfPage(end);
      assert !Covers(v.list, end);
    }
  }

  lemma AlignedEnd(r: Range)
    requires Aligned(r)
    ensures r.End() % 0x1000 == 0
  {
  }

  /** The list that would have been right: up to and with the last page mapped. */
  function Repaired(v: VMap, bytes: nat): VMap
    requires |v.list| > 0
  {
    v.(list := [v.list[0].(length := bytes)])
  }

  /** With it the state is consistent, for an image that starts at a page and is
      all that was mapped under the managed slots. */
  lemma RepairedIsConsistent(m: Memory, bits: seq<Word64>, root: nat, slots: set<nat>, base: nat, start: nat, count: nat,
        a: nat, b: nat, k: Started)
    requires Image(slots, base, start, count, b) && Gaps(m, root, start, count, a, b)
    requires SetUp(m, bits, root, slots, base, start, count, a, b, k)
    requires start % 0x1000 == 0 && start + (count + b + 1) * 0x1000 < WORD
    requires forall p: nat | p < PAGES && Managed(slots, 4, p) && Walk(m, root, 4, p).Table? ::
               base <= AddressOf(p) < start + (count + b + 1) * 0x1000
    ensures |k.list.value.list| > 0
    ensures Inv(FirstState(k).(v := Repaired(k.list.value, start + (count + b + 1) * 0x1000 - base)), root, slots)
  {
    hide Good, Walk, Behind, Managed, StaysTaken, NewlyMapped, Translate, Page;
    var end := start + (count + b + 1) * 0x1000;
    var v := Repaired(k.list.value, end - base);
    BehindInside(slots, base, start, count, b, a);
    BehindInside(slots, base, start, count, b, b);
    forall p: nat | p < PAGES && Managed(slots, 4, p) && Walk(k.mem, root, 4, p).Table? ensures Covers(v.list, AddressOf(p)) {
      CoversOne(Range(0, base, end - base), AddressOf(p));
    }
    assert RangeSlots.SlotSafe(v);
    MultipleOfPage(start - base, count + b + 1);
    assert Ordered(v.list);
  }

  lemma MultipleOfPage(x: nat, n: nat)
    requires x % 0x1000 == 0
    ensures (x + n * 0x1000) % 0x1000 == 0
  {
  }

  lemma BehindInside(slots: set<nat>, base: nat, start: nat, count: nat, b: nat, j: nat)
    requires Image(slots, base, start, count, b) && j <= b && start % 0x1000 == 0
    ensures base <= AddressOf(Behind(start, count, j)) < start + (count + b + 1) * 0x1000
  {
    hide Managed, Page;
    var x := start + (count + j) * 0x1000;
    PageBehind(start, count, j);
    MultipleOfPage(start, count + j);
    AddressOfPage(x);
  }

  // ---------------------------------------------------------------------------
  // The code
  // ---------------------------------------------------------------------------

  /** Both loops come to an unmapped page, or run out of frames, within `limit` rounds. */
  predicate Settles(m: Memory, bits: seq<Word64>, root: nat, start: nat, count: nat, limit: nat) {
    FrameBitmap.CanTake(bits) ==>
      var (r1, i) := MappedBehind(m, bits, root, start, count, 0, limit);
      && r1.result != 1
      && (r1.result != -1 && FrameBitmap.CanTake(r1.supply.words) ==>
            MappedBehind(r1.mem, r1.supply.words, root, start, count, i, limit).0.result != 1)
  }

  lemma ImageSettles(m: Memory, bits: seq<Word64>, root: nat, slots: set<nat>, base: nat, start: nat, count: nat, a: nat,
        b: nat, limit: nat)
    requires Good(m, root, slots, true, Bitmap(bits)) && Image(slots, base, start, count, b)
    requires Gaps(m, root, start, count, a, b) && b < limit
    ensures Settles(m, bits, root, start, count, limit)
  {
    hide Good, Walk, Behind, Image, MappedAt, MappedBehind, FrameBitmap.CanTake, Gaps;
    if FrameBitmap.CanTake(bits) {
      var (r1, i) := MappedBehind(m, bits, root, start, count, 0, limit);
      FirstGap(m, root, start, count, a, b);
      MappedBehindIs(m, bits, root, slots, base, start, count, b, 0, a, limit);
      FramesAt(m, bits, root, slots, Behind(start, count, a), r1);
      if r1.result == 0 && FrameBitmap.CanTake(r1.supply.words) {
        NextGap(m, bits, root, slots, base, start, count, a, b, r1);
        MappedBehindIs(r1.mem, r1.supply.words, root, slots, base, start, count, b, i, b, limit);
        FramesAt(r1.mem, r1.supply.words, root, slots, Behind(start, count, b),
                 MappedBehind(r1.mem, r1.supply.words, root, start, count, i, limit).0);
      }
    }
  }

  /** A call of page_map and the loop after it. */
  method Settle(mapper: PageMapper, start: nat, count: nat, from: nat, phys: nat, ghost limit: nat)
    returns (result: int, i: nat)
    requires mapper.frames.words.Length < 0x1_0000
    requires Settled(mapper.mem, mapper.frames.words[..], mapper.root, start, count, from, phys, limit).0.result != 1
    modifies mapper`mem, mapper.frames.words
    ensures (Mapped(mapper.mem, Bitmap(mapper.frames.words[..]), result), i) ==
            Settled(old(mapper.mem), old(mapper.frames.words[..]), mapper.root, start, count, from, phys, limit)
  {
    hide MapPage, FrameOf, ImageAddress;
    ghost var before := Settled(mapper.mem, mapper.frames.words[..], mapper.root, start, count, from, phys, limit);
    i := from;
    result := mapper.PageMap(ImageAddress(start, count), phys);
    while result == 1
      invariant Probed(Mapped(mapper.mem, Bitmap(mapper.frames.words[..]), result), mapper.root, start, count, i, phys, limit)
             == before
      decreases limit - i
    {
      result := mapper.PageMap(ImageAddress(start, count + i), phys);
      i := i + 1;
    }
  }

  /** The two branches that give the page of the nodes up. */
  method GiveUp(mapper: PageMapper, nodes: nat, garbage: nat)
    modifies mapper`mem, mapper.frames.words
    ensures Started(mapper.mem, mapper.frames.words[..], None) ==
            GivenUp(old(mapper.mem), old(mapper.frames.words[..]), mapper.root, mapper.offset, nodes, garbage)
  {
    var refused := mapper.PageUnmap(nodes);
    mapper.frames.Free(garbage);
  }

  /** page_allocator_init from the first page_physical_alloc on, over the nodes
      and the slot bitmap that the two addresses lead to; null for failure. The
      mapper has just been given the base of the mirror. */
  method SetUpList(mapper: PageMapper, start: nat, count: nat, table: array<Links.Node>, words: array<Word64>,
      atNull: nat, garbage: nat, ghost limit: nat) returns (ranges: Links.VirtualMap?)
    requires mapper.frames.words.Length < 0x1_0000 && mapper.frames.words != words
    requires words.Length >= 8 && table.Length >= 128
    requires Settles(mapper.mem, mapper.frames.words[..], mapper.root, start, count, limit)
    modifies mapper`mem, mapper.frames.words, table, words
    ensures var k := Init(old(mapper.mem), old(mapper.frames.words[..]), mapper.root, mapper.offset, start, count,
                          old(words[..]), atNull, garbage, limit);
            && mapper.mem == k.mem && mapper.frames.words[..] == k.bits && (ranges == null <==> k.list.None?)
            && (ranges != null ==> ranges.Valid() && ranges.view == k.list.value)
  {
    hide Settled, GivenUp, FrameBitmap.CanTake, FrameBitmap.Picked, FrameBitmap.Taken, FrameBitmap.Released, ImageAddress;
    var status, frame := mapper.frames.Alloc();
    if status == -1 {
      return null;
    }
    var result, i := Settle(mapper, start, count, 0, frame, limit);
    if result == -1 {
      mapper.frames.Free(frame);
      return null;
    }
    var nodes := NodesAt(start, count, i);
    var slotFrame;
    status, slotFrame := mapper.frames.Alloc();
    if status == -1 {
      GiveUp(mapper, nodes, garbage);
      return null;
    }
    result, i := Settle(mapper, start, count, i, slotFrame, limit);
    if result == -1 {
      GiveUp(mapper, nodes, garbage);
      mapper.frames.Free(slotFrame);
      return null;
    }
    ranges := new Links.VirtualMap(table, words, 2, atNull, mapper.offset, Wrap(nodes + 0x1000 - mapper.offset));
  }
}
