/**
 How `page_allocator_init` builds the frame bitmap from the memory map of the
 firmware (UEFI Specification 2.x, section 7.2).
 */
module BitmapInit {
  import opened Options
  import opened Words
  import FrameBitmap

  /** type, physical_start, number_of_pages. */
  datatype Descriptor = Descriptor(kind: nat, start: nat, pages: nat) {
    function First(): nat { start / 0x1000 }
  }

  const REQUIRED: nat := 32
  const BITMAP_LENGTH: nat := 16384
  const FRAMES := 64 * BITMAP_LENGTH
  const PAGE_MAPS: nat := 0x10
  const BITMAP: nat := 0x11
  const UNLIMITED: nat := 0xFFFF_FFFF_FFFF_FFFF

  /** EfiLoaderCode, EfiLoaderData, EfiBootServicesCode, EfiBootServicesData, EfiConventionalMemory. */
  predicate Usable(kind: nat) { 1 <= kind <= 4 || kind == 7 }

  // ---------------------------------------------------------------------------
  // Choosing a region for the bitmap
  // ---------------------------------------------------------------------------

  /** The region chosen among the first n, and the number of pages to beat. */
  function Chosen(ds: seq<Descriptor>, n: nat): (Option<nat>, nat)
    requires n <= |ds|
  {
    if n == 0 then (None, UNLIMITED)
    else
      var (best, pages) := Chosen(ds, n - 1);
      var d := ds[n - 1];
      if Usable(d.kind) && d.pages >= REQUIRED && d.pages < pages then (Some(n - 1), d.pages) else (best, pages)
  }

  /** EfiLoaderCode, EfiLoaderData, EfiBootServicesCode, EfiBootServicesData and
      EfiConventionalMemory, by their numbers. */
  predicate FreeKind(kind: nat) { kind in {1, 2, 3, 4, 7} }

  predicate Candidate(d: Descriptor) { FreeKind(d.kind) && 32 <= d.pages < 0xFFFF_FFFF_FFFF_FFFF }

  /** The first of the smallest usable regions of at least 32 pages; none only
      if there is no such region. */
  lemma {:induction false} ChosenIsSmallest(ds: seq<Descriptor>, n: nat)
    requires n <= |ds|
    ensures var (best, pages) := Chosen(ds, n);
            match best
            case None => pages == UNLIMITED && forall k | 0 <= k < n :: !Candidate(ds[k])
            case Some(i) => && i < n && Candidate(ds[i]) && pages == ds[i].pages
                            && (forall k | 0 <= k < n && Candidate(ds[k]) :: ds[i].pages <= ds[k].pages)
                            && (forall k | 0 <= k < i && Candidate(ds[k]) :: ds[i].pages < ds[k].pages)
  {
    if n > 0 {
      ChosenIsSmallest(ds, n - 1);
    }
  }

  // ---------------------------------------------------------------------------
  // Clearing bits
  // ---------------------------------------------------------------------------

  /** The frames at the start of a region that stay marked; none for a region
      whose bits are not touched. */
  function Skipped(d: Descriptor, used: nat): Option<nat> {
    if d.kind == PAGE_MAPS then Some(used)
    else if d.kind == BITMAP then Some(REQUIRED)
    else if Usable(d.kind) then Some(0)
    else None
  }

  /** `x >> k`; where C leaves the shift undefined, for k of 64 and more, the quotient. */
  function ShiftRight(x: nat, k: nat): (r: nat)
    ensures r <= x && (k > 0 && x > 0 ==> r < x)
  {
    if k == 0 then x else ShiftRight(x, k - 1) / 2
  }

  /** A frame beyond the bitmap has no bit. */
  function ClearBit(ws: seq<Word64>, f: nat): seq<Word64> {
    if f / 64 < |ws| then
      var w: Word64 := ws[f / 64][f % 64 := false];
      ws[f / 64 := w]
    else ws
  }

  /** The frame that round i clears. The shift is by 12 + i: the sum binds more
      tightly. */
  function RoundFrame(start: nat, i: nat): nat { ShiftRight(start, 12 + i) }

  /** The clearing loop from lo up to n. */
  function ClearRun(ws: seq<Word64>, start: nat, lo: nat, n: nat): seq<Word64> {
    if n <= lo then ws else ClearBit(ClearRun(ws, start, lo, n - 1), RoundFrame(start, n - 1))
  }

  function ClearRegions(ws: seq<Word64>, ds: seq<Descriptor>, used: nat, n: nat): seq<Word64>
    requires n <= |ds|
  {
    if n == 0 then ws
    else
      var p := ClearRegions(ws, ds, used, n - 1);
      match Skipped(ds[n - 1], used)
      case None => p
      case Some(lo) => ClearRun(p, ds[n - 1].start, lo, ds[n - 1].pages)
  }

  function Full(): seq<Word64> { seq(BITMAP_LENGTH, _ => seq(64, _ => true)) }

  /** The bitmap after the loops, for the list in which the chosen region has
      got its own type. */
  function Built(ds: seq<Descriptor>, used: nat): seq<Word64> {
    ClearRegions(Full(), ds, used, |ds|)
  }

  lemma ClearBitIs(ws: seq<Word64>, g: nat)
    ensures |ClearBit(ws, g)| == |ws|
    ensures forall f: nat :: FrameBitmap.IsFree(ClearBit(ws, g), f) <==> FrameBitmap.IsFree(ws, f) || (f == g && f / 64 < |ws|)
  {
    forall f: nat ensures FrameBitmap.IsFree(ClearBit(ws, g), f) <==> FrameBitmap.IsFree(ws, f) || (f == g && f / 64 < |ws|) {
      assert f == 64 * (f / 64) + f % 64 && g == 64 * (g / 64) + g % 64;
    }
  }

  /** Page i of a region is there to be used: past the pages taken for tables in
      the region of type 0x10, past the 32 of the bitmap in that of type 0x11. */
  predicate Offered(kind: nat, used: nat, i: nat) {
    (kind == 0x10 && i >= used) || (kind == 0x11 && i >= 32) || FreeKind(kind)
  }

  lemma OfferedIff(d: Descriptor, used: nat, i: nat)
    ensures Offered(d.kind, used, i) <==> Skipped(d, used).Some? && Skipped(d, used).value <= i
  {
  }

  ghost predicate RunHits(start: nat, lo: nat, n: nat, f: nat) {
    exists i: nat :: lo <= i < n && RoundFrame(start, i) == f
  }

  /** What the loop for one region hits. */
  ghost predicate HitBy(d: Descriptor, used: nat, f: nat) {
    exists i: nat :: i < d.pages && Offered(d.kind, used, i) && RoundFrame(d.start, i) == f
  }

  lemma HitByLoop(d: Descriptor, used: nat, f: nat)
    ensures HitBy(d, used, f) <==> Skipped(d, used).Some? && RunHits(d.start, Skipped(d, used).value, d.pages, f)
  {
    hide ShiftRight, Skipped, Offered;
    forall i: nat ensures Offered(d.kind, used, i) <==> Skipped(d, used).Some? && Skipped(d, used).value <= i {
      OfferedIff(d, used, i);
    }
  }

  lemma {:induction false} ClearRunIs(ws: seq<Word64>, start: nat, lo: nat, n: nat)
    ensures |ClearRun(ws, start, lo, n)| == |ws|
    ensures forall f: nat :: FrameBitmap.IsFree(ClearRun(ws, start, lo, n), f) <==>
              FrameBitmap.IsFree(ws, f) || (RunHits(start, lo, n, f) && f / 64 < |ws|)
  {
    if n > lo {
      ClearRunIs(ws, start, lo, n - 1);
      var g := RoundFrame(start, n - 1);
      ClearBitIs(ClearRun(ws, start, lo, n - 1), g);
      forall f: nat ensures RunHits(start, lo, n, f) <==> RunHits(start, lo, n - 1, f) || f == g {
        RunMore(start, lo, n, f);
      }
      hide FrameBitmap.IsFree, RunHits, ClearBit, ShiftRight;
    }
  }

  lemma RunMore(start: nat, lo: nat, n: nat, f: nat)
    requires n > lo
    ensures RunHits(start, lo, n, f) <==> RunHits(start, lo, n - 1, f) || f == RoundFrame(start, n - 1)
  {
    hide ShiftRight;
    if RunHits(start, lo, n - 1, f) {
      var i: nat :| lo <= i < n - 1 && RoundFrame(start, i) == f;
      assert lo <= i < n;
    }
    assert RoundFrame(start, n - 1) == f ==> RunHits(start, lo, n, f);
  }

  ghost predicate Hit(ds: seq<Descriptor>, used: nat, n: nat, f: nat)
    requires n <= |ds|
  {
    exists k :: 0 <= k < n && HitBy(ds[k], used, f)
  }

  lemma {:induction false} ClearRegionsIs(ws: seq<Word64>, ds: seq<Descriptor>, used: nat, n: nat)
    requires n <= |ds|
    ensures |ClearRegions(ws, ds, used, n)| == |ws|
    ensures forall f: nat :: FrameBitmap.IsFree(ClearRegions(ws, ds, used, n), f) <==>
              FrameBitmap.IsFree(ws, f) || (Hit(ds, used, n, f) && f / 64 < |ws|)
  {
    if n > 0 {
      ClearRegionsIs(ws, ds, used, n - 1);
      var d := ds[n - 1];
      forall f: nat ensures HitBy(d, used, f) <==> Skipped(d, used).Some? && RunHits(d.start, Skipped(d, used).value, d.pages, f) {
        HitByLoop(d, used, f);
      }
      if Skipped(d, used).Some? {
        ClearRunIs(ClearRegions(ws, ds, used, n - 1), d.start, Skipped(d, used).value, d.pages);
      }
      forall f: nat ensures Hit(ds, used, n, f) <==> Hit(ds, used, n - 1, f) || HitBy(d, used, f) {
        if Hit(ds, used, n - 1, f) {
          var k :| 0 <= k < n - 1 && HitBy(ds[k], used, f);
          assert 0 <= k < n;
        }
      }
    }
  }

  /** Exactly which frames are free once the bitmap has been built. */
  lemma BuiltIs(ds: seq<Descriptor>, used: nat)
    ensures |Built(ds, used)| == BITMAP_LENGTH
    ensures forall f: nat :: FrameBitmap.IsFree(Built(ds, used), f) <==> Hit(ds, used, |ds|, f) && f / 64 < BITMAP_LENGTH
  {
    ClearRegionsIs(Full(), ds, used, |ds|);
  }

  // ---------------------------------------------------------------------------
  // The contract, and when it is met
  // ---------------------------------------------------------------------------

  predicate Within(d: Descriptor, used: nat, f: nat) {
    d.First() <= f < d.First() + d.pages && Offered(d.kind, used, f - d.First())
  }

  /** A frame is free iff it lies in a region that is to be used, past the part
      of it that is taken. */
  ghost predicate BitmapContract(ds: seq<Descriptor>, used: nat, bits: seq<Word64>) {
    forall f: nat | f / 64 < |bits| ::
      FrameBitmap.IsFree(bits, f) <==> exists k :: 0 <= k < |ds| && Within(ds[k], used, f)
  }

  /** Page-aligned regions that do not overlap; those that are to be used end
      where the bitmap does, at 4 GiB, or below. */
  ghost predicate MemoryMap(ds: seq<Descriptor>, used: nat) {
    && (forall k | 0 <= k < |ds| ::
          ds[k].start % 0x1000 == 0
          && (FreeKind(ds[k].kind) || ds[k].kind == 0x10 || ds[k].kind == 0x11 ==> ds[k].First() + ds[k].pages <= FRAMES))
    && (forall j, k | 0 <= j < k < |ds| && ds[j].pages > 0 && ds[k].pages > 0 ::
          ds[j].First() + ds[j].pages <= ds[k].First() || ds[k].First() + ds[k].pages <= ds[j].First())
  }

  /** A page of the region other than its first is there to be used. */
  predicate Misread(d: Descriptor, used: nat) { d.pages >= 2 && Offered(d.kind, used, d.pages - 1) }

  lemma FourBits(x: nat, k: nat)
    ensures ShiftRight(x, k + 4) == ShiftRight(x, k) / 16
  {
    assert ShiftRight(x, k + 1) == ShiftRight(x, k) / 2;
    assert ShiftRight(x, k + 2) == ShiftRight(x, k + 1) / 2;
    assert ShiftRight(x, k + 3) == ShiftRight(x, k + 2) / 2;
  }

  lemma {:induction false} ShiftTwelve(start: nat, i: nat)
    ensures RoundFrame(start, i) == ShiftRight(start / 0x1000, i)
  {
    if i > 0 {
      ShiftTwelve(start, i - 1);
    } else {
      FourBits(start, 0);
      FourBits(start, 4);
      FourBits(start, 8);
    }
  }

  /** A misread region that starts above all the others. */
  lemma {:induction false} HighestMisread(ds: seq<Descriptor>, used: nat, n: nat) returns (k: nat)
    requires n <= |ds| && exists j :: 0 <= j < n && Misread(ds[j], used)
    ensures k < n && Misread(ds[k], used)
    ensures forall j | 0 <= j < n && Misread(ds[j], used) :: ds[j].First() <= ds[k].First()
  {
    if exists j :: 0 <= j < n - 1 && Misread(ds[j], used) {
      k := HighestMisread(ds, used, n - 1);
      if Misread(ds[n - 1], used) && ds[n - 1].First() > ds[k].First() {
        k := n - 1;
      }
    } else {
      k := n - 1;
    }
  }

  /** Whatever a loop hits lies at or below the start of its own region. */
  lemma HitsBelow(d: Descriptor, used: nat, f: nat)
    requires HitBy(d, used, f)
    ensures f <= d.First() && d.pages > 0 && (f == d.First() || Misread(d, used))
  {
    var i: nat :| i < d.pages && Offered(d.kind, used, i) && RoundFrame(d.start, i) == f;
    ShiftTwelve(d.start, i);
  }

  /** So the last frame of the highest misread region, which ought to be free, is not. */
  lemma LastFrameMissed(ds: seq<Descriptor>, used: nat, k: nat)
    requires MemoryMap(ds, used) && k < |ds| && Misread(ds[k], used)
    requires forall j | 0 <= j < |ds| && Misread(ds[j], used) :: ds[j].First() <= ds[k].First()
    ensures !Hit(ds, used, |ds|, ds[k].First() + ds[k].pages - 1)
  {
    var f := ds[k].First() + ds[k].pages - 1;
    if Hit(ds, used, |ds|, f) {
      var e :| 0 <= e < |ds| && HitBy(ds[e], used, f);
      HitsBelow(ds[e], used, f);
      assert false;
    }
  }

  /** Construction meets its contract exactly when no loop over a region runs
      beyond a first page that is also the first of the region. */
  lemma BitmapContractIff(ds: seq<Descriptor>, used: nat)
    requires MemoryMap(ds, used)
    ensures BitmapContract(ds, used, Built(ds, used)) <==> forall k | 0 <= k < |ds| :: !Misread(ds[k], used)
  {
    BuiltIs(ds, used);
    hide Built;
    if forall k | 0 <= k < |ds| :: !Misread(ds[k], used) {
      forall f: nat | f / 64 < BITMAP_LENGTH
        ensures Hit(ds, used, |ds|, f) <==> exists k :: 0 <= k < |ds| && Within(ds[k], used, f)
      {
        forall k | 0 <= k < |ds| ensures HitBy(ds[k], used, f) <==> Within(ds[k], used, f) {
          SinglePage(ds[k], used, f);
        }
      }
    } else {
      var k := HighestMisread(ds, used, |ds|);
      var f := ds[k].First() + ds[k].pages - 1;
      LastFrameMissed(ds, used, k);
      assert Within(ds[k], used, f);
      assert f / 64 < BITMAP_LENGTH;
    }
  }

  lemma SinglePage(d: Descriptor, used: nat, f: nat)
    requires !Misread(d, used)
    ensures HitBy(d, used, f) <==> Within(d, used, f)
  {
    ShiftTwelve(d.start, 0);
    assert RoundFrame(d.start, 0) == d.First();
    if HitBy(d, used, f) {
      HitsBelow(d, used, f);
    }
  }

  /** The smallest example: a region of two pages, of which the second stays
      marked and the frame at half its number is freed instead. */
  lemma TwoPagesMisread(first: nat, used: nat)
    requires 2 <= first < FRAMES - 1
    ensures var bits := Built([Descriptor(7, 0x1000 * first, 2)], used);
            FrameBitmap.IsFree(bits, first) && FrameBitmap.IsFree(bits, first / 2) && !FrameBitmap.IsFree(bits, first + 1)
  {
    var d := Descriptor(7, 0x1000 * first, 2);
    BuiltIs([d], used);
    ShiftTwelve(d.start, 0);
    ShiftTwelve(d.start, 1);
    assert ShiftRight(first, 1) == first / 2;
    assert RoundFrame(d.start, 0) == first && RoundFrame(d.start, 1) == first / 2;
    assert [d][0] == d;
    assert HitBy(d, used, first) && HitBy(d, used, first / 2);
    if HitBy(d, used, first + 1) {
      HitsBelow(d, used, first + 1);
    }
  }

  // ---------------------------------------------------------------------------
  // Writes past the end of the bitmap
  // ---------------------------------------------------------------------------

  /** Some round of the loop from lo up to n clears a bit past the end. */
  ghost predicate RunPast(start: nat, lo: nat, n: nat) {
    exists i: nat :: lo <= i < n && RoundFrame(start, i) >= FRAMES
  }

  ghost predicate RegionPast(d: Descriptor, used: nat) {
    Skipped(d, used).Some? && RunPast(d.start, Skipped(d, used).value, d.pages)
  }

  ghost predicate WritesPast(ds: seq<Descriptor>, used: nat, n: nat)
    requires n <= |ds|
  {
    exists k :: 0 <= k < n && RegionPast(ds[k], used)
  }

  lemma {:induction false} ShiftAtLeast(x: nat, k: nat, l: nat)
    ensures ShiftRight(x, k) >= l <==> x >= l * Pow2(k)
  {
    if k > 0 {
      ShiftAtLeast(x, k - 1, 2 * l);
      assert 2 * l * Pow2(k - 1) == l * Pow2(k);
    }
  }

  lemma {:induction false} ShiftFalls(x: nat, k: nat, i: nat)
    requires k <= i
    ensures ShiftRight(x, i) <= ShiftRight(x, k)
    decreases i
  {
    if k < i {
      ShiftFalls(x, k, i - 1);
    }
  }

  /** Round i of the loop over this region clears the bit of frame f: halved i
      times, the first frame of the region is f. */
  ghost predicate Frees(d: Descriptor, used: nat, i: nat, f: nat) {
    i < d.pages && Offered(d.kind, used, i) && f * Pow2(i) <= d.First() < (f + 1) * Pow2(i)
  }

  lemma RoundFrees(d: Descriptor, used: nat, i: nat, f: nat)
    requires i < d.pages && Offered(d.kind, used, i)
    ensures Frees(d, used, i, f) <==> RoundFrame(d.start, i) == f
  {
    ShiftTwelve(d.start, i);
    ShiftAtLeast(d.First(), i, f);
    ShiftAtLeast(d.First(), i, f + 1);
  }

  lemma HitIff(ds: seq<Descriptor>, used: nat, f: nat)
    ensures Hit(ds, used, |ds|, f) <==> exists k: nat, i: nat :: k < |ds| && Frees(ds[k], used, i, f)
  {
    hide RoundFrame, Frees, Offered;
    if Hit(ds, used, |ds|, f) {
      var k :| 0 <= k < |ds| && HitBy(ds[k], used, f);
      var i: nat :| i < ds[k].pages && Offered(ds[k].kind, used, i) && RoundFrame(ds[k].start, i) == f;
      RoundFrees(ds[k], used, i, f);
    }
    if exists k: nat, i: nat :: k < |ds| && Frees(ds[k], used, i, f) {
      var k: nat, i: nat :| k < |ds| && Frees(ds[k], used, i, f);
      FreesInLoop(ds[k], used, i, f);
      RoundFrees(ds[k], used, i, f);
      assert HitBy(ds[k], used, f);
    }
  }

  lemma FreesInLoop(d: Descriptor, used: nat, i: nat, f: nat)
    requires Frees(d, used, i, f)
    ensures i < d.pages && Offered(d.kind, used, i)
  {
  }

  /** Exactly which frames are free: those that the first frame of some region
      is after being halved i times, for a round i that the type of the region
      admits. The bitmap ends at 4 GiB. */
  lemma FreeIff(ds: seq<Descriptor>, used: nat, f: nat)
    ensures FrameBitmap.IsFree(Built(ds, used), f) <==>
              f < 0x10_0000 && exists k: nat, i: nat ::
                && k < |ds| && i < ds[k].pages && f * Pow2(i) <= ds[k].start / 0x1000 < (f + 1) * Pow2(i)
                && ((ds[k].kind == 0x10 && i >= used) || (ds[k].kind == 0x11 && i >= 32) || ds[k].kind in {1, 2, 3, 4, 7})
  {
    hide Built, FrameBitmap.IsFree, Pow2, Hit, Frees;
    BuiltIs(ds, used);
    HitIff(ds, used, f);
    if Hit(ds, used, |ds|, f) {
      var k: nat, i: nat :| k < |ds| && Frees(ds[k], used, i, f);
      FreesIs(ds[k], used, i, f);
      assert k < |ds| && i < ds[k].pages;
    }
    if k: nat, i: nat :|
         && k < |ds| && i < ds[k].pages && f * Pow2(i) <= ds[k].start / 0x1000 < (f + 1) * Pow2(i)
         && ((ds[k].kind == 0x10 && i >= used) || (ds[k].kind == 0x11 && i >= 32) || ds[k].kind in {1, 2, 3, 4, 7}) {
      FreesIs(ds[k], used, i, f);
    }
  }

  lemma FreesIs(d: Descriptor, used: nat, i: nat, f: nat)
    ensures Frees(d, used, i, f) <==>
              && i < d.pages && f * Pow2(i) <= d.start / 0x1000 < (f + 1) * Pow2(i)
              && ((d.kind == 0x10 && i >= used) || (d.kind == 0x11 && i >= 32) || d.kind in {1, 2, 3, 4, 7})
  {
  }

  /** A region is written for past the end exactly if, in some round that its
      type admits, its first frame, halved so often, is past it. */
  lemma RegionPastIff(d: Descriptor, used: nat)
    ensures RegionPast(d, used) <==> exists i: nat :: i < d.pages && Offered(d.kind, used, i) && d.First() >= FRAMES * Pow2(i)
  {
    hide ShiftRight, Skipped, Offered, Pow2;
    forall i: nat
      ensures Offered(d.kind, used, i) <==> Skipped(d, used).Some? && Skipped(d, used).value <= i
      ensures RoundFrame(d.start, i) >= FRAMES <==> d.First() >= FRAMES * Pow2(i)
    {
      OfferedIff(d, used, i);
      ShiftTwelve(d.start, i);
      ShiftAtLeast(d.First(), i, FRAMES);
    }
  }

  /** Exactly the memory maps with such a region make the construction write past
      the bitmap: with usable memory from 4 GiB on, or page tables from
      4 GiB * 2^used on, of which pages are left. */
  lemma WritesPastIff(ds: seq<Descriptor>, used: nat)
    ensures WritesPast(ds, used, |ds|) <==>
              exists k: nat, i: nat ::
                k < |ds| && i < ds[k].pages && Offered(ds[k].kind, used, i) && ds[k].First() >= 0x10_0000 * Pow2(i)
  {
    hide Offered, Pow2, RegionPast;
    if WritesPast(ds, used, |ds|) {
      var k :| 0 <= k < |ds| && RegionPast(ds[k], used);
      RegionPastIff(ds[k], used);
      var i: nat :| i < ds[k].pages && Offered(ds[k].kind, used, i) && ds[k].First() >= FRAMES * Pow2(i);
      assert k < |ds| && i < ds[k].pages;
    }
    if k: nat, i: nat :| k < |ds| && i < ds[k].pages && Offered(ds[k].kind, used, i) && ds[k].First() >= 0x10_0000 * Pow2(i) {
      RegionPastIff(ds[k], used);
    }
  }

  // ---------------------------------------------------------------------------
  // The code
  // ---------------------------------------------------------------------------

  /** The part of page_allocator_init that builds the bitmap, which lives at the
      start of the region chosen. The two flags that would correct a type are
      never set. `past` says whether a word after the bitmap has been written. */
  method BuildBitmap(mmap: array<Descriptor>, words: array<Word64>, used: nat) returns (result: int, past: bool)
    requires words.Length == BITMAP_LENGTH
    modifies mmap, words
    ensures var best := Chosen(old(mmap[..]), mmap.Length).0;
            if best.None? then result == -1 && !past && mmap[..] == old(mmap[..]) && words[..] == old(words[..])
            else result == 0 && best.value < mmap.Length
                 && mmap[..] == old(mmap[..])[best.value := old(mmap[best.value]).(kind := BITMAP)]
                 && words[..] == Built(mmap[..], used) && (past <==> WritesPast(mmap[..], used, mmap.Length))
  {
    ghost var ds := mmap[..];
    ghost var before := words[..];
    var reservedPages, reservedIndex, i := UNLIMITED, 0, 0;
    while i < mmap.Length
      invariant i <= mmap.Length && mmap[..] == ds && words[..] == before
      invariant var (best, pages) := Chosen(ds, i);
                pages == reservedPages && (best == if reservedPages == UNLIMITED then None else Some(reservedIndex))
      invariant reservedPages <= UNLIMITED && (reservedPages < UNLIMITED ==> reservedIndex < i)
    {
      var d := mmap[i];
      if Usable(d.kind) && d.pages >= REQUIRED && d.pages < reservedPages {
        reservedPages, reservedIndex := d.pages, i;
      }
      i := i + 1;
    }
    if reservedPages == UNLIMITED {
      return -1, false;
    }
    mmap[reservedIndex] := mmap[reservedIndex].(kind := BITMAP);
    ghost var marked := mmap[..];
    FillWords(words);
    var index := 0;
    past := false;
    while index < mmap.Length
      invariant index <= mmap.Length && mmap[..] == marked && (past <==> WritesPast(marked, used, index))
      invariant words[..] == ClearRegions(Full(), marked, used, index)
    {
      var d := mmap[index];
      var outside := false;
      if d.kind == PAGE_MAPS {
        outside := ClearFrom(words, d.start, used, d.pages);
      } else if d.kind == BITMAP {
        outside := ClearFrom(words, d.start, REQUIRED, d.pages);
      } else if Usable(d.kind) {
        outside := ClearFrom(words, d.start, 0, d.pages);
      }
      OneMorePast(marked, used, index);
      past := past || outside;
      index := index + 1;
    }
    return 0, past;
  }

  method FillWords(words: array<Word64>)
    requires words.Length == BITMAP_LENGTH
    modifies words
    ensures words[..] == Full()
  {
    var i := 0;
    while i < words.Length
      invariant i <= words.Length && forall k | 0 <= k < i :: words[k] == seq(64, _ => true)
    {
      words[i] := seq(64, _ => true);
      i := i + 1;
    }
  }

  lemma OneMorePast(ds: seq<Descriptor>, used: nat, n: nat)
    requires n < |ds|
    ensures WritesPast(ds, used, n + 1) <==> WritesPast(ds, used, n) || RegionPast(ds[n], used)
  {
    hide RegionPast;
  }

  method ClearFrom(words: array<Word64>, start: nat, lo: nat, pages: nat) returns (outside: bool)
    requires words.Length == BITMAP_LENGTH
    modifies words
    ensures words[..] == ClearRun(old(words[..]), start, lo, pages)
    ensures outside <==> RunPast(start, lo, pages)
  {
    hide ShiftRight;
    outside := false;
    var i := lo;
    while i < pages
      invariant lo <= i && (i <= pages || i == lo) && words[..] == ClearRun(old(words[..]), start, lo, i)
      invariant outside <==> RunPast(start, lo, i)
    {
      var f := RoundFrame(start, i);
      PastNext(start, lo, i);
      if f / 64 < words.Length {
        words[f / 64] := words[f / 64][f % 64 := false];
      } else {
        outside := true;
      }
      i := i + 1;
    }
  }

  lemma PastNext(start: nat, lo: nat, i: nat)
    requires lo <= i
    ensures RunPast(start, lo, i + 1) <==> RunPast(start, lo, i) || RoundFrame(start, i) >= FRAMES
  {
    hide ShiftRight;
  }
}
