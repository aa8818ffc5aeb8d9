/**
 The allocation functions that look for room: the first-fit walks and the
 allocations of several pages.
 */
module RangeFits {
  import opened Words
  import opened VirtualRanges
  import opened RangeSets

  // ---------------------------------------------------------------------------
  // page_virtual_alloc_beyond_ex and page_virtual_alloc_multiple_beyond_ex
  // ---------------------------------------------------------------------------

  /** Address a lies after entry k, the last one that starts at or below it, at
      least `jump` pages past its end, with room for the block. */
  ghost predicate FitsAfter(list: seq<Range>, k: nat, a: nat, jump: nat, bytes: nat)
    requires k < |list|
  {
    list[k].End() + jump * 0x1000 <= a && (k + 1 < |list| ==> a + bytes <= list[k + 1].base)
  }

  ghost predicate Fits(list: seq<Range>, base: nat, a: nat, jump: nat, bytes: nat) {
    base <= a && exists k :: 0 <= k < |list| && FitsAfter(list, k, a, jump, bytes)
  }

  /** A fitting block is free, and stays clear of the preceding entry by the buffer. */
  lemma FitsIsFree(list: seq<Range>, base: nat, a: nat, jump: nat, bytes: nat)
    requires Ordered(list) && jump > 0 && bytes > 0 && Fits(list, base, a, jump, bytes)
    ensures !Overlaps(list, a, bytes)
    ensures forall k | 0 <= k < |list| && list[k].base <= a :: list[k].End() + jump * 0x1000 <= a
  {
    var k :| 0 <= k < |list| && FitsAfter(list, k, a, jump, bytes);
    hide Aligned;
    forall j | 0 <= j < |list|
      ensures j <= k ==> list[j].End() + jump * 0x1000 <= a
      ensures j > k ==> a + bytes <= list[j].base
    {
      if j < k { OrderedApart(list, j, k); }
      if j > k + 1 { OrderedApart(list, k + 1, j); }
    }
  }

  /** The walk stops at the least fitting address, whether the loop compares
      with one byte or with the whole block. */
  lemma {:induction false} HopIsLeast(list: seq<Range>, k: nat, frame: nat, base: nat, jump: nat, bytes: nat,
        reach: nat)
    requires Ordered(list) && k < |list| && jump > 0 && bytes > 0
    requires reach == bytes || (reach == 1 && bytes == PAGE && frame % 0x1000 == 0)
    requires list[k].End() + jump * 0x1000 <= frame && base <= frame
    requires forall j | k < j < |list| :: base <= list[j].base
    requires forall a: nat :: Fits(list, base, a, jump, bytes) ==> frame <= a && forall j | 0 <= j < k ::
                !FitsAfter(list, j, a, jump, bytes)
    ensures var (k', frame') := Hop(list, k, frame, jump, reach);
            && FitsAfter(list, k', frame', jump, bytes) && base <= frame' && (frame % 0x1000 == 0 ==> frame' % 0x1000 == 0)
            && (forall a: nat :: Fits(list, base, a, jump, bytes) ==> frame' <= a)
    decreases |list| - k
  {
    if k + 1 < |list| {
      var next := list[k + 1].End() + jump * 0x1000;
      NextAligned(list, k + 1, frame, jump);
      hide Ordered, Aligned;
      if list[k + 1].base < frame + reach {
        HopSkips(list, k, frame, base, jump, bytes, reach);
        HopIsLeast(list, k + 1, next, base, jump, bytes, reach);
      }
    }
  }

  lemma NextAligned(list: seq<Range>, k: nat, frame: nat, jump: nat)
    requires Ordered(list) && k < |list|
    ensures (list[k].End() + jump * 0x1000) % 0x1000 == 0
    ensures frame % 0x1000 == 0 && frame < list[k].base ==> frame + PAGE <= list[k].base
  {
    EntryAligned(list, k);
    hide Ordered, Aligned;
    AlignedJump(list[k].End(), jump);
    AlignedStep(list[k].base, frame);
  }

  lemma EntryAligned(list: seq<Range>, k: nat)
    requires Ordered(list) && k < |list|
    ensures list[k].base % 0x1000 == 0 && list[k].End() % 0x1000 == 0
  {
    AlignedGap(list, k);
  }

  /** Where the walk moves on, nothing fits after the entry it leaves. */
  lemma HopSkips(list: seq<Range>, k: nat, frame: nat, base: nat, jump: nat, bytes: nat, reach: nat)
    requires Ordered(list) && k + 1 < |list| && jump > 0 && bytes > 0 && 0 < reach <= bytes
    requires list[k + 1].base < frame + reach
    requires forall a: nat :: Fits(list, base, a, jump, bytes) ==> frame <= a && forall j | 0 <= j < k ::
                !FitsAfter(list, j, a, jump, bytes)
    ensures forall a: nat :: Fits(list, base, a, jump, bytes) ==>
              list[k + 1].End() + jump * 0x1000 <= a && forall j | 0 <= j < k + 1 :: !FitsAfter(list, j, a, jump, bytes)
  {
    hide Aligned;
    forall a: nat | Fits(list, base, a, jump, bytes)
      ensures list[k + 1].End() + jump * 0x1000 <= a && forall j | 0 <= j < k + 1 :: !FitsAfter(list, j, a, jump, bytes)
    {
      var j :| 0 <= j < |list| && FitsAfter(list, j, a, jump, bytes);
      assert !FitsAfter(list, k, a, jump, bytes);
      assert j > k;
      if j > k + 1 { OrderedApart(list, k + 1, j); }
    }
  }

  lemma AlignedStep(b: nat, frame: nat)
    requires b % 0x1000 == 0
    ensures frame % 0x1000 == 0 && frame < b ==> frame + PAGE <= b
  {
  }

  lemma AlignedJump(end: nat, jump: nat)
    requires end % 0x1000 == 0
    ensures (end + jump * 0x1000) % 0x1000 == 0
  {
  }

  /** No address below the first candidate fits, and none fits before the entry
      found. */
  lemma CandidateIsLeast(list: seq<Range>, base: nat, jump: nat, bytes: nat)
    requires Ordered(list) && list != [] && jump > 0 && bytes > 0
    ensures var k := Find(list, base, 0);
            var frame := FirstCandidate(list, base, jump);
            && list[k].End() + jump * 0x1000 <= frame && base <= frame
            && (forall j | k < j < |list| :: base <= list[j].base)
            && (forall a: nat :: Fits(list, base, a, jump, bytes) ==> frame <= a && forall j | 0 <= j < k ::
                  !FitsAfter(list, j, a, jump, bytes))
  {
    hide Aligned;
    var k := Find(list, base, 0);
    var frame := FirstCandidate(list, base, jump);
    forall j | k < j < |list| ensures base <= list[j].base {
      if j > k + 1 { OrderedApart(list, k + 1, j); }
    }
    forall a: nat | Fits(list, base, a, jump, bytes)
      ensures frame <= a && forall j | 0 <= j < k :: !FitsAfter(list, j, a, jump, bytes)
    {
      forall j | 0 <= j < k ensures !FitsAfter(list, j, a, jump, bytes) {
        if j + 1 < k { OrderedApart(list, j + 1, k); }
      }
      var j :| 0 <= j < |list| && FitsAfter(list, j, a, jump, bytes);
      if j > k { OrderedApart(list, k, j); }
    }
  }

  /** First fit with a buffer: the answer fits, no smaller address does, and
      exactly its block is added; -1 leaves everything as it was. */
  ghost predicate FirstFit(v: VMap, base: nat, jump: nat, bytes: nat, o: Outcome)
    requires v.Shaped()
  {
    && Fits(v.list, base, o.frame, jump, bytes)
    && (forall a: nat :: Fits(v.list, base, a, jump, bytes) ==> o.frame <= a)
    && (o.result == 0 || o.result == -1)
    && (o.result == 0 ==> Adds(v.list, o.v.list, o.frame, bytes))
    && (o.result == -1 ==> o.v == v && !v.HasSlot())
  }

  /** Where the walk stops. */
  lemma BeyondFits(list: seq<Range>, base: nat, jump: nat, bytes: nat, reach: nat)
    requires list != [] && Ordered(list) && jump > 0 && bytes > 0
    requires base % 0x1000 == 0 && (reach == bytes || (reach == 1 && bytes == PAGE))
    ensures var (k, frame) := Hop(list, Find(list, base, 0), FirstCandidate(list, base, jump), jump, reach);
            && FitsAfter(list, k, frame, jump, bytes) && base <= frame && frame % 0x1000 == 0
            && (forall a: nat :: Fits(list, base, a, jump, bytes) ==> frame <= a)
  {
    var k := Find(list, base, 0);
    var frame := FirstCandidate(list, base, jump);
    CandidateIsLeast(list, base, jump, bytes);
    assert Aligned(list[k]);
    AlignedJump(list[k].End(), jump);
    assert frame % 0x1000 == 0;
    HopIsLeast(list, k, frame, base, jump, bytes, reach);
  }

  lemma BeyondIsFirstFit(v: VMap, base: nat, jump: nat, bytes: nat, reach: nat)
    requires v.Shaped() && v.list != [] && Ordered(v.list) && jump > 0 && bytes > 0
    requires base % 0x1000 == 0 && (reach == bytes || (reach == 1 && bytes == PAGE))
    ensures FirstFit(v, base, jump, bytes, BeyondFrom(v, base, jump, bytes, reach))
    ensures BeyondFrom(v, base, jump, bytes, reach).frame == BeyondAddress(v.list, base, jump, reach)
  {
    BeyondFits(v.list, base, jump, bytes, reach);
    BeyondIsPlace(v, base, jump, bytes, reach);
    hide Ordered, Aligned, Fits, Find, FirstCandidate, Hop, BeyondFrom, Place, FirstFit;
    var r := Hop(v.list, Find(v.list, base, 0), FirstCandidate(v.list, base, jump), jump, reach);
    PlacedFirst(v, base, jump, bytes, r.0, r.1);
  }

  lemma PlacedFirst(v: VMap, base: nat, jump: nat, bytes: nat, k: nat, frame: nat)
    requires v.Shaped() && k < |v.list|
    requires FitsAfter(v.list, k, frame, jump, bytes) && base <= frame
    requires forall a: nat :: Fits(v.list, base, a, jump, bytes) ==> frame <= a
    ensures FirstFit(v, base, jump, bytes, Place(v, k, frame, bytes)) && Place(v, k, frame, bytes).frame == frame
  {
    PlaceAdds(v, k, frame, bytes);
    hide Place;
    FitsWitness(v.list, base, k, frame, jump, bytes);
  }

  lemma BeyondKeepsOrder(v: VMap, base: nat, jump: nat, bytes: nat, reach: nat)
    requires v.Shaped() && v.list != [] && Ordered(v.list) && jump > 0 && bytes > 0 && bytes % 0x1000 == 0
    requires base % 0x1000 == 0 && (reach == bytes || (reach == 1 && bytes == PAGE))
    requires BeyondAddress(v.list, base, jump, reach) + bytes < WORD
    ensures var o := BeyondFrom(v, base, jump, bytes, reach);
            Ordered(o.v.list) && o.v.list != [] && o.v.list[0].base == v.list[0].base && o.frame % 0x1000 == 0
  {
    hide Ordered, Fits, Find, FirstCandidate, Hop, BeyondFrom, Place, Adds, VMap.Shaped;
    BeyondFits(v.list, base, jump, bytes, reach);
    BeyondIsPlace(v, base, jump, bytes, reach);
    var r := Hop(v.list, Find(v.list, base, 0), FirstCandidate(v.list, base, jump), jump, reach);
    PlaceAdds(v, r.0, r.1, bytes);
    PlaceOrdered(v, r.0, r.1, bytes);
  }

  /** Entry k ends below the address, so extending it upwards is never due. */
  lemma BeyondIsPlace(v: VMap, base: nat, jump: nat, bytes: nat, reach: nat)
    requires v.Shaped() && v.list != []
    requires var (k, frame) := Hop(v.list, Find(v.list, base, 0), FirstCandidate(v.list, base, jump), jump, reach);
             v.list[k].End() < frame
    ensures var (k, frame) := Hop(v.list, Find(v.list, base, 0), FirstCandidate(v.list, base, jump), jump, reach);
            BeyondFrom(v, base, jump, bytes, reach) == Place(v, k, frame, bytes)
  {
  }

  lemma FitsWitness(list: seq<Range>, base: nat, k: nat, a: nat, jump: nat, bytes: nat)
    requires k < |list| && base <= a && FitsAfter(list, k, a, jump, bytes)
    ensures Fits(list, base, a, jump, bytes)
  {
  }

  /** page_virtual_alloc_beyond_ex, where the answer is an address: then no sum
      on the way, and not the shifted jump either, exceeds 64 bits. */
  lemma AllocBeyondExIsFirstFit(v: VMap, base: nat, jump: nat)
    requires v.Shaped() && v.list != [] && Ordered(v.list) && jump > 0 && base % 0x1000 == 0
    requires BeyondAddress(v.list, base, jump, 1) + PAGE < WORD
    ensures FirstFit(v, base, jump, PAGE, AllocBeyondEx(v, base, jump))
  {
    BeyondIsFirstFit(v, base, jump, PAGE, 1);
  }

  /** page_virtual_alloc_multiple_beyond_ex. */
  lemma AllocMultipleBeyondExIsFirstFit(v: VMap, base: nat, count: nat, jump: nat)
    requires v.Shaped() && v.list != [] && Ordered(v.list) && jump > 0 && count > 0 && base % 0x1000 == 0
    requires BeyondAddress(v.list, base, jump, count * 0x1000) + count * 0x1000 < WORD
    ensures FirstFit(v, base, jump, count * 0x1000, AllocMultipleBeyondEx(v, base, count, jump))
  {
    BeyondIsFirstFit(v, base, jump, count * 0x1000, count * 0x1000);
  }

  // ---------------------------------------------------------------------------
  // page_virtual_alloc
  // ---------------------------------------------------------------------------

  /** The length of the first entry grows by one byte, so of the page handed out
      exactly the first address is registered: the contract is never met. */
  lemma AllocRegistersOneByte(v: VMap)
    requires v.Shaped() && v.list != [] && Ordered(v.list)
    ensures var o := Alloc(v);
            && (o.result == 0 <==> v.list[0].End() != 0)
            && (o.result == 0 ==> o.frame == v.list[0].End() && Adds(v.list, o.v.list, o.frame, 1)
                                  && !Adds(v.list, o.v.list, o.frame, PAGE))
  {
    var end := v.list[0].End();
    assert Aligned(v.list[0]);
    ExtendAdds(v, 0, 1);
    FreeAtEnd(v.list, 0);
    if end != 0 {
      SecondByteFree(v.list, end);
    }
  }

  lemma SecondByteFree(list: seq<Range>, a: nat)
    requires Ordered(list) && a % 0x1000 == 0 && !Covers(list, a)
    ensures !Covers(list, a + 1)
  {
    forall k | 0 <= k < |list| ensures !(list[k].base <= a + 1 < list[k].End()) {
      assert !(list[k].base <= a < list[k].End());
      assert Aligned(list[k]);
      AlignedStep(list[k].base, a);
    }
  }

  // ---------------------------------------------------------------------------
  // Several pages
  // ---------------------------------------------------------------------------

  /** memory.h: 1 if a page of the block is allocated already, 0 and exactly the
      block added, -1 and nothing changed. */
  ghost predicate AllocMultipleAtContract(v: VMap, frame: nat, bytes: nat, o: Outcome) {
    && (o.result == 1 <==> Overlaps(v.list, frame, bytes))
    && (o.result == 0 ==> Adds(v.list, o.v.list, frame, bytes))
    && (o.result != 0 ==> o.v == v)
  }

  /** Either there is a successor, or what is read in its place leaves room. */
  predicate RoomRead(v: VMap, frame: nat, bytes: nat)
    requires v.list != []
  {
    v.HasNext(Find(v.list, frame, 0)) || frame + bytes <= v.atNull
  }

  /** For an occupied block the contract is always met; for a free one exactly
      when it does not lie below the first entry, no later entry, which then is
      an empty one, starts inside it, and behind the last entry the word read
      through the null link lies above it. */
  lemma AllocMultipleAtExact(v: VMap, frame: nat, count: nat)
    requires v.Shaped() && v.list != [] && Ordered(v.list) && count > 0
    requires frame + count * 0x1000 < WORD
    ensures AllocMultipleAtContract(v, frame, count * 0x1000, AllocMultipleAt(v, frame, count)) <==>
              Overlaps(v.list, frame, count * 0x1000)
              || (v.list[0].base <= frame && NoBaseIn(v.list, frame, count * 0x1000) && RoomRead(v, frame, count * 0x1000))
  {
    hide Aligned, Place;
    var k := Find(v.list, frame, 0);
    var bytes := count * 0x1000;
    FindIs(v.list, frame);
    if v.list[k].End() > frame {
      if v.list[0].base <= frame { assert Covers(v.list, frame); }
    } else if !v.HasNext(k) || frame + bytes <= v.list[k + 1].base {
      BlockFree(v.list, k, frame, bytes);
      PlaceAdds(v, k, frame, bytes);
    } else {
      assert !NoBaseIn(v.list, frame, bytes);
    }
  }

  lemma BlockFree(list: seq<Range>, k: nat, frame: nat, bytes: nat)
    requires Ordered(list) && k < |list| && list[k].End() <= frame
    requires k + 1 < |list| ==> frame + bytes <= list[k + 1].base
    ensures !Overlaps(list, frame, bytes) && (list[k].base <= frame && (k == 0 || list[k].base < frame) ==> NoBaseIn(list, frame, bytes))
  {
    hide Aligned;
    forall j | 0 <= j < |list|
      ensures j < k ==> list[j].End() < frame
      ensures j > k ==> frame + bytes <= list[j].base
    {
      if j < k { OrderedApart(list, j, k); }
      if j > k + 1 { OrderedApart(list, k + 1, j); }
    }
  }

  lemma AllocMultipleAtKeepsOrder(v: VMap, frame: nat, count: nat)
    requires v.Shaped() && v.list != [] && Ordered(v.list) && count > 0
    requires frame % 0x1000 == 0 && frame + count * 0x1000 < WORD
    ensures var o := AllocMultipleAt(v, frame, count);
            && Ordered(o.v.list) && o.v.list != [] && o.v.list[0].base == v.list[0].base
            && (o.result == 0 ==> !Overlaps(v.list, frame, count * 0x1000) && Adds(v.list, o.v.list, frame, count * 0x1000))
            && (o.result != 0 ==> o.v == v)
  {
    hide Place, Ordered, Adds, Overlaps;
    var k := Find(v.list, frame, 0);
    var bytes := count * 0x1000;
    if v.list[k].End() <= frame && frame + bytes <= NextBase(v, k) {
      BlockFree(v.list, k, frame, bytes);
      PlaceAdds(v, k, frame, bytes);
      PlaceOrdered(v, k, frame, bytes);
    }
  }

  /** memory.h: at the next free address after the base; 1 just if there is too
      little room there, that is, if an entry starts inside the block. */
  ghost predicate AllocMultipleAfterContract(v: VMap, base: nat, bytes: nat, o: Outcome)
    requires v.Shaped()
  {
    && -1 <= o.result <= 1
    && (o.result >= 0 ==> NextFree(v.list, base, o.frame) && (o.result == 1 <==> !NoBaseIn(v.list, o.frame, bytes)))
    && (o.result == 0 ==> Adds(v.list, o.v.list, o.frame, bytes))
    && (o.result != 0 ==> o.v == v)
    && (o.result == -1 ==> !v.HasSlot())
  }

  /** The room is checked only where the base lies in or right after an entry.
      The contract is met exactly for a base not below the first entry for which
      that check is made, or would have succeeded, or no slot is left. */
  lemma AllocMultipleAfterExact(v: VMap, base: nat, count: nat)
    requires v.Shaped() && v.list != [] && Ordered(v.list) && count > 0
    requires AfterAddress(v.list, base) + count * 0x1000 < WORD
    ensures var k := Find(v.list, base, 0);
            AllocMultipleAfterContract(v, base, count * 0x1000, AllocMultipleAfter(v, base, count)) <==>
              v.list[0].base <= base
              && (v.list[k].End() >= base || (v.HasNext(k) ==> base + count * 0x1000 <= v.list[k + 1].base) || !v.HasSlot())
  {
    hide AllocMultipleAfterContract, Ordered, Covers, Adds, NextFree, NoBaseIn, VMap.Shaped, VMap.HasSlot;
    var k, bytes := Find(v.list, base, 0), count * 0x1000;
    if v.list[k].End() >= base {
      CheckedBranch(v, base, k, bytes, AllocMultipleAfter(v, base, count));
    } else {
      UncheckedBranch(v, base, k, bytes, AllocMultipleAfter(v, base, count));
    }
  }

  /** Where the entry found reaches the base, the room after it is checked. */
  lemma CheckedBranch(v: VMap, base: nat, k: nat, bytes: nat, o: Outcome)
    requires v.Shaped() && v.list != [] && Ordered(v.list) && k == Find(v.list, base, 0) && v.list[k].End() >= base && bytes > 0
    requires o == if v.HasNext(k) && v.list[k + 1].base < v.list[k].End() + bytes then Outcome(v, 1, v.list[k].End())
                  else Outcome(Extended(v, k, bytes), 0, v.list[k].End())
    ensures AllocMultipleAfterContract(v, base, bytes, o) <==> v.list[0].base <= base
  {
    hide Ordered, Extended;
    var a := v.list[k].End();
    ExtendAdds(v, k, bytes);
    BasesAfter(v.list, k, bytes);
    NextFreeIs(v.list, base, k);
  }

  /** Right after an entry the room ends where the next one starts. */
  lemma BasesAfter(list: seq<Range>, k: nat, bytes: nat)
    requires Ordered(list) && k < |list| && bytes > 0 && (k > 0 ==> list[k].length > 0)
    ensures NoBaseIn(list, list[k].End(), bytes) <==> !(k + 1 < |list| && list[k + 1].base < list[k].End() + bytes)
  {
    hide Aligned;
    forall j | 1 <= j < |list| && j != k + 1
      ensures list[k].End() <= list[j].base < list[k].End() + bytes ==>
                k + 1 < |list| && list[k + 1].base < list[k].End() + bytes
    {
      if j < k { OrderedApart(list, j, k); }
      if j > k + 1 { OrderedApart(list, k + 1, j); }
    }
  }

  /** Where it does not, nothing is checked. */
  lemma UncheckedBranch(v: VMap, base: nat, k: nat, bytes: nat, o: Outcome)
    requires v.Shaped() && v.list != [] && Ordered(v.list) && k == Find(v.list, base, 0) && v.list[k].End() < base && bytes > 0
    requires o == Place(v, k, base, bytes)
    ensures AllocMultipleAfterContract(v, base, bytes, o) <==>
              v.list[0].base <= base && ((v.HasNext(k) ==> base + bytes <= v.list[k + 1].base) || !v.HasSlot())
  {
    hide Ordered, Adds, NoBaseIn, Covers, VMap.Shaped;
    PlaceAdds(v, k, base, bytes);
    GapIsFree(v.list, base, k, bytes);
    if v.HasNext(k) && v.list[k + 1].base < base + bytes {
      InsertsThere(v, k, base, bytes);
    }
  }

  lemma InsertsThere(v: VMap, k: nat, base: nat, bytes: nat)
    requires v.Shaped() && v.HasNext(k) && v.list[k].End() < base && v.list[k + 1].base < base + bytes
    ensures Place(v, k, base, bytes).result == if v.HasSlot() then 0 else -1
  {
  }

  /** Between the entry found and its successor. */
  lemma GapIsFree(list: seq<Range>, base: nat, k: nat, bytes: nat)
    requires Ordered(list) && list != [] && k == Find(list, base, 0) && list[k].End() < base && bytes > 0
    ensures list[0].base <= base
    ensures NextFree(list, base, base) <==> !Covers(list, base)
    ensures k + 1 < |list| ==> base <= list[k + 1].base
    ensures NoBaseIn(list, base, bytes) <==> !(k + 1 < |list| && list[k + 1].base < base + bytes)
    ensures NoBaseIn(list, base, bytes) ==> !Covers(list, base)
  {
    hide Aligned;
    FindIs(list, base);
    if k > 0 { OrderedApart(list, 0, k); }
    forall j | 1 <= j < |list| && j != k + 1
      ensures base <= list[j].base < base + bytes ==> k + 1 < |list| && list[k + 1].base < base + bytes
    {
      if j > k + 1 { OrderedApart(list, k + 1, j); }
    }
  }

  /** Without a buffer, page_virtual_alloc_beyond_ex is held to the contract of
      page_virtual_alloc_after, and meets it exactly where that does. */
  lemma AllocBeyondExNoJump(v: VMap, base: nat)
    requires v.Shaped() && v.list != [] && Ordered(v.list)
    ensures var o := AllocBeyondEx(v, base, 0);
            && (AllocAfterContract(v, base, o) <==> v.list[0].base <= base && (StartsLater(v.list, base) ==> !v.HasSlot()))
            && (o.result == -1 ==> !v.HasSlot())
  {
    hide AllocAfterContract, Ordered, StartsLater, Extended, VMap.HasSlot;
    AllocAfterExact(v, base);
    var k := Find(v.list, base, 0);
    PlaceAdds(v, k, base, PAGE);
  }

  /** And so for blocks, which are refused or placed as
      page_virtual_alloc_multiple_after does it. */
  lemma AllocMultipleBeyondExNoJump(v: VMap, base: nat, count: nat)
    requires v.Shaped() && v.list != [] && Ordered(v.list) && count > 0
    requires AfterAddress(v.list, base) + count * 0x1000 < WORD
    ensures var k := Find(v.list, base, 0);
            AllocMultipleAfterContract(v, base, count * 0x1000, AllocMultipleBeyondEx(v, base, count, 0)) <==>
              v.list[0].base <= base
              && (v.list[k].End() >= base || (v.HasNext(k) ==> base + count * 0x1000 <= v.list[k + 1].base) || !v.HasSlot())
  {
    hide AllocMultipleAfterContract, Ordered, VMap.Shaped, VMap.HasSlot;
    AllocMultipleAfterExact(v, base, count);
  }

  /** No pages at all are refused by every function that allocates blocks. */
  lemma EmptyBlockRefused(v: VMap, a: nat, jump: nat)
    requires v.Shaped() && v.list != []
    ensures AllocMultipleAt(v, a, 0).result == -1 && AllocMultipleAt(v, a, 0).v == v
    ensures AllocMultipleAfter(v, a, 0).result == -1 && AllocMultipleAfter(v, a, 0).v == v
    ensures AllocMultipleBeyondEx(v, a, 0, jump).result == -1 && AllocMultipleBeyondEx(v, a, 0, jump).v == v
    ensures AllocMultipleEx(v, 0, a).result == -1 && AllocMultipleEx(v, 0, a).v == v
  {
  }

  /** page_virtual_alloc_multiple_ex adds exactly a free block, the first at the
      end of an entry with room for it. Entries stay apart exactly when the
      block ends in the first gap or does not fill its gap: the join looks at
      the top of the first gap only. The caller is not told the address: its
      variable holds it afterwards exactly if it did before. */
  lemma AllocMultipleExExact(v: VMap, count: nat, frame: nat)
    requires v.Shaped() && v.list != [] && Ordered(v.list) && count > 0
    requires var k := RoomyEntry(v.list, count * 0x1000, 0); v.list[k].End() + count * 0x1000 < WORD
    ensures var o := AllocMultipleEx(v, count, frame);
            var k := RoomyEntry(v.list, count * 0x1000, 0);
            var a := v.list[k].End();
            && o.result == 0 && !Overlaps(v.list, a, count * 0x1000) && Adds(v.list, o.v.list, a, count * 0x1000)
            && (Adds(v.list, o.v.list, o.frame, count * 0x1000) <==> frame == a)
            && (Ordered(o.v.list) <==> k == 0 || !v.HasNext(k) || v.list[k + 1].base != a + count * 0x1000)
  {
    hide Overlaps, Adds, AllocMultipleEx, Extended, Grown, VMap.Shaped, Ordered;
    var bytes := count * 0x1000;
    var k := RoomyEntry(v.list, bytes, 0);
    ExShape(v, count, frame);
    BlockFree(v.list, k, v.list[k].End(), bytes);
    MultipleOfPage(count);
    if k == 0 {
      ExtendAdds(v, 0, bytes);
      ExtendOrdered(v, 0, bytes);
    } else {
      GrownAdds(v, k, bytes);
      GrownOrderedIff(v, k, bytes);
    }
    OneBlockAdded(v.list, AllocMultipleEx(v, count, frame).v.list, v.list[k].End(), frame, bytes);
  }

  lemma MultipleOfPage(count: nat)
    ensures count * 0x1000 % 0x1000 == 0
  {
  }

  /** Past the first entry the stale top never joins. */
  lemma ExShape(v: VMap, count: nat, frame: nat)
    requires v.Shaped() && v.list != [] && Ordered(v.list) && count > 0
    ensures var o, k := AllocMultipleEx(v, count, frame), RoomyEntry(v.list, count * 0x1000, 0);
            o.result == 0 && o.frame == frame && o.v == if k == 0 then Extended(v, 0, count * 0x1000) else Grown(v, k, count * 0x1000)
  {
    hide Aligned;
    var k := RoomyEntry(v.list, count * 0x1000, 0);
    if k > 0 { OrderedApart(v.list, 0, k); }
  }

  /** Only one block of the size has been added. */
  lemma OneBlockAdded(list: seq<Range>, list': seq<Range>, a: nat, b: nat, bytes: nat)
    requires Adds(list, list', a, bytes) && !Overlaps(list, a, bytes) && bytes > 0
    ensures Adds(list, list', b, bytes) <==> a == b
  {
    hide Covers;
    if Adds(list, list', b, bytes) {
      var last := a + bytes - 1;
      assert Covers(list', a) && Covers(list', last);
      assert !Covers(list, a) && !Covers(list, last);
    }
  }

  lemma GrownOrderedIff(v: VMap, k: nat, bytes: nat)
    requires v.Shaped() && k < |v.list| && Ordered(v.list)
    requires bytes % 0x1000 == 0 && v.list[k].End() + bytes < WORD
    requires v.HasNext(k) ==> v.list[k].End() + bytes <= v.list[k + 1].base
    ensures Ordered(Grown(v, k, bytes).list) <==> !v.HasNext(k) || v.list[k + 1].base != v.list[k].End() + bytes
  {
    var g := Grown(v, k, bytes);
    if v.HasNext(k) && v.list[k + 1].base == v.list[k].End() + bytes {
      assert g.list[k].End() == g.list[k + 1].base;
    } else {
      assert g == Extended(v, k, bytes);
      ExtendOrdered(v, k, bytes);
    }
  }
}
