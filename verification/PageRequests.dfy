/**
 What the single-page functions `page_alloc_at`, `page_alloc_after`,
 `page_alloc_beyond_ex`, `page_alloc` and `page_free` do to a consistent state:
 for which requests it stays consistent, and which make the kernel panic.
 */
module PageRequests {
  import opened Options
  import opened Words
  import opened Addresses
  import opened PageTables
  import opened Mapping
  import opened Paging
  import opened Rights
  import opened VirtualRanges
  import opened RangeSets
  import opened RangeFrees
  import opened Kernel
  import FrameBitmap
  import RangeFits
  import RangeSlots

  // ---------------------------------------------------------------------------
  // Choosing a range
  // ---------------------------------------------------------------------------

  /** The address that a policy is going to answer with. */
  function Target(v: VMap, p: Policy): nat
    requires |v.list| > 0
  {
    match p
    case Lowest => v.list[0].End()
    case At(f) => f
    case After(b) => AfterAddress(v.list, b)
    case BeyondEx(b, j) => if j == 0 then AfterAddress(v.list, b) else BeyondAddress(v.list, b, j, 1)
  }

  /** A page address under a managed slot. */
  ghost predicate PageTarget(slots: set<nat>, a: nat) {
    a % 0x1000 == 0 && Canonical(a) && a + PAGE < WORD && Pml4Index(a) in slots
  }

  /** What the arguments have to be: addresses of pages, and an answer under a
      managed slot. `page_alloc`, whose range is one byte long, is not among
      these requests. */
  ghost predicate Proper(v: VMap, slots: set<nat>, p: Policy)
    requires v.Shaped() && |v.list| > 0
  {
    && PageTarget(slots, Target(v, p))
    && match p
       case Lowest => false
       case At(_) => true
       case After(b) => b % 0x1000 == 0
       case BeyondEx(b, _) => b % 0x1000 == 0
  }

  /** The key of the list search, where the policy may insert at it. */
  function Key(p: Policy): Option<nat> {
    match p
    case At(f) => Some(f)
    case After(b) => Some(b)
    case BeyondEx(b, j) => if j == 0 then Some(b) else None
    case Lowest => None
  }

  /** A later entry, empty or not, starts at the key. */
  ghost predicate StartsAtKey(v: VMap, p: Policy) {
    Key(p).Some? && !NoBaseIn(v.list, Key(p).value, PAGE)
  }

  /** The page fits between entry e and its successor. */
  ghost predicate FitsBetween(v: VMap, e: nat, a: nat)
    requires v.Shaped()
  {
    e < |v.list| && v.list[e].End() <= a && (v.HasNext(e) ==> a + PAGE <= v.list[e + 1].base)
  }

  /** At a key where a later entry starts, the search stops before that entry,
      and a second one is inserted in front of it if a slot is left. */
  lemma KeyIsDoubled(v: VMap, slots: set<nat>, p: Policy)
    requires v.Shaped() && v.list != [] && Ordered(v.list) && Proper(v, slots, p) && StartsAtKey(v, p)
    ensures var a := Target(v, p);
            var e := Find(v.list, a, 0);
            && Key(p) == Some(a) && v.HasNext(e) && v.list[e].End() < a && v.list[e + 1].base == a
            && Choose(v, p) == Insert(v, e, a, PAGE)
  {
    var a := Key(p).value;
    DoubledAt(v, a);
    hide Ordered, NoBaseIn, Insert, VMap.Shaped;
  }

  lemma DoubledAt(v: VMap, a: nat)
    requires v.Shaped() && v.list != [] && Ordered(v.list) && a % 0x1000 == 0 && !NoBaseIn(v.list, a, PAGE)
    ensures var e := Find(v.list, a, 0);
            && v.HasNext(e) && v.list[e].End() < a && v.list[e + 1].base == a && AfterAddress(v.list, a) == a
            && AllocAt(v, a) == Insert(v, e, a, PAGE) && AllocAfter(v, a) == Insert(v, e, a, PAGE)
  {
    BaseFound(v.list, a);
    hide Ordered, NoBaseIn, Insert, VMap.Shaped;
  }

  /** Otherwise a page is placed where it fits, or page_alloc_at refuses it. */
  lemma ChoosePlaces(v: VMap, slots: set<nat>, p: Policy) returns (e: nat)
    requires v.Shaped() && v.list != [] && Ordered(v.list) && Proper(v, slots, p) && !StartsAtKey(v, p)
    requires Choose(v, p).result != 1
    ensures FitsBetween(v, e, Target(v, p)) && Choose(v, p) == Place(v, e, Target(v, p), PAGE)
  {
    hide Ordered, NoBaseIn, VMap.Shaped, FitsBetween, Place, Hop, FirstCandidate, BeyondFrom;
    match p
    case At(f) => e := AtPlaces(v, f);
    case After(b) => e := AfterPlaces(v, b);
    case BeyondEx(b, j) =>
      if j == 0 {
        e := AfterPlaces(v, b);
      } else {
        e := BeyondPlaces(v, b, j);
      }
  }

  lemma AtPlaces(v: VMap, a: nat) returns (e: nat)
    requires v.Shaped() && v.list != [] && a % 0x1000 == 0 && NoBaseIn(v.list, a, PAGE) && AllocAt(v, a).result != 1
    ensures FitsBetween(v, e, a) && AllocAt(v, a) == Place(v, e, a, PAGE)
  {
    e := Find(v.list, a, 0);
    NextBeyond(v.list, e, a, PAGE);
  }

  lemma BeyondPlaces(v: VMap, base: nat, jump: nat) returns (e: nat)
    requires v.Shaped() && v.list != [] && Ordered(v.list) && base % 0x1000 == 0 && jump > 0
    ensures var a := BeyondAddress(v.list, base, jump, 1);
            FitsBetween(v, e, a) && AllocBeyondEx(v, base, jump) == Place(v, e, a, PAGE)
  {
    RangeFits.BeyondFits(v.list, base, jump, PAGE, 1);
    RangeFits.BeyondIsPlace(v, base, jump, PAGE, 1);
    e := Hop(v.list, Find(v.list, base, 0), FirstCandidate(v.list, base, jump), jump, 1).0;
  }

  lemma AfterPlaces(v: VMap, base: nat) returns (e: nat)
    requires v.Shaped() && v.list != [] && Ordered(v.list) && base % 0x1000 == 0 && NoBaseIn(v.list, base, PAGE)
    ensures FitsBetween(v, e, AfterAddress(v.list, base)) && AllocAfter(v, base) == Place(v, e, AfterAddress(v.list, base), PAGE)
  {
    e := Find(v.list, base, 0);
    if v.list[e].End() >= base {
      AlignedGap(v.list, e);
    } else {
      NextBeyond(v.list, e, base, PAGE);
    }
  }

  lemma ChooseRefuses(v: VMap, slots: set<nat>, p: Policy)
    requires v.Shaped() && v.list != [] && Ordered(v.list) && Proper(v, slots, p) && Choose(v, p).result == 1
    ensures p.At? && Choose(v, p).v == v && (Covers(v.list, Target(v, p)) || Target(v, p) < v.list[0].base)
  {
    if p.At? {
      FindIs(v.list, p.frame);
    } else {
      OnlyAtRefuses(v, slots, p);
    }
  }

  /** The policies that look for a page never answer that it is allocated. */
  lemma OnlyAtRefuses(v: VMap, slots: set<nat>, p: Policy)
    requires v.Shaped() && v.list != [] && Ordered(v.list) && Proper(v, slots, p) && !p.At?
    ensures Choose(v, p).result != 1
  {
    hide Covers, Adds, RangeFits.Fits, Find, Hop, FirstCandidate, Place, VMap.Shaped, Ordered;
    match p
    case After(b) => AfterAnswers(v, b);
    case BeyondEx(b, j) =>
      if j == 0 {
        AfterAnswers(v, b);
      } else {
        RangeFits.BeyondIsFirstFit(v, b, j, PAGE, 1);
      }
  }

  lemma AfterAnswers(v: VMap, base: nat)
    requires v.Shaped() && v.list != []
    ensures AllocAfter(v, base).result <= 0
  {
    var k := Find(v.list, base, 0);
    PlaceAdds(v, k, base, PAGE);
  }

  /** What placing a page does, for the invariant. */
  lemma PlacedPage(v: VMap, e: nat, a: nat)
    requires RangeSlots.SlotSafe(v) && Ordered(v.list) && FitsBetween(v, e, a) && a % 0x1000 == 0 && a + PAGE < WORD
    ensures var o := Place(v, e, a, PAGE);
            && o.frame == a && (o.result == 0 || o.result == -1) && (o.result == -1 ==> o.v == v)
            && Ordered(o.v.list) && RangeSlots.SlotSafe(o.v) && o.v.list[0].base == v.list[0].base
            && !Covers(v.list, a) && v.list[0].base <= a
            && (o.result == 0 ==> Adds(v.list, o.v.list, a, PAGE))
  {
    PlaceAdds(v, e, a, PAGE);
    PlaceOrdered(v, e, a, PAGE);
    RangeSlots.PlaceSlots(v, e, a, PAGE);
    RangeFits.BlockFree(v.list, e, a, PAGE);
    if e > 0 {
      OrderedApart(v.list, 0, e);
    }
  }

  /** Clearing a bit takes no room away. */
  lemma GivenBackKeepsRoom(words: seq<Word64>, slot: nat, limit: nat)
    requires slot / 16 < |words| && limit <= |words| && FrameBitmap.CanTake(words[..limit])
    ensures FrameBitmap.CanTake(GivenBack(words, slot)[..limit])
  {
    var i := FrameBitmap.FirstRoom(words[..limit], 0);
    RoomIff(words[i]);
    RoomIff(GivenBack(words, slot)[i]);
    var k :| 0 <= k < 63 && !words[i][k];
    assert !GivenBack(words, slot)[i][k];
    assert HasRoom(GivenBack(words, slot)[..limit][i]);
  }

  // ---------------------------------------------------------------------------
  // Mapping what has been placed
  // ---------------------------------------------------------------------------

  /** Whether there are frames for the page and for the tables it needs. */
  predicate FramesSuffice(k: State, root: nat, a: nat) {
    Missing(k.mem, root, Page(a), 0) < FrameBitmap.Rooms(k.bits)
  }

  /** From a consistent state and with a new frame, mapping a page that has been
      placed does not panic. It fails if frames for tables are missing, and then
      the state stays consistent unless undoing the placement loses a page. */
  lemma FinishIs(k: State, root: nat, slots: set<nat>, phys: nat, e: nat, a: nat)
    requires Inv(k, root, slots) && NewFrame(k.mem, root, slots, k.bits, phys)
    requires FitsBetween(k.v, e, a) && PageTarget(slots, a)
    ensures var o := Place(k.v, e, a, PAGE);
            var (k', r) := Finish(k, root, phys, o);
            && !k'.panicked && StaysTaken(k.bits, k'.bits) && k'.Shaped() && k'.v.list[0].base == k.v.list[0].base
            && r == (if o.result == 0 && Missing(k.mem, root, Page(a), 0) <= FrameBitmap.Rooms(k.bits) then 0 else -1)
            && (r == 0 ==> FrameBitmap.Rooms(k'.bits) == FrameBitmap.Rooms(k.bits) - Missing(k.mem, root, Page(a), 0))
            && Retranslated(k.mem, k'.mem, root, Page(a), if r == 0 then Some(phys) else None)
            && (r == 0 ==> k'.v == o.v && Adds(k.v.list, k'.v.list, a, PAGE) && !Covers(k.v.list, a))
            && (Inv(k', root, slots) <==> !(o.result == 0 && r == -1 && LosesMapped(k.mem, root, slots, o.v, a, a + PAGE)))
  {
    hide Finish, Walk, Good, Ordered, RangeSlots.SlotSafe, MapPage, Place, Canonical, Pml4Index, Free, Missing,
      Covers, Registered,
      LosesMapped, Unreached, FitsBetween, StaysTaken, Retranslated, FrameBitmap.IsMarked, FrameBitmap.Rooms;
    InvShape(k, root, slots);
    FitsIndex(k.v, e, a);
    var o := Place(k.v, e, a, PAGE);
    PlacedPage(k.v, e, a);
    if o.result != 0 {
      FinishRefused(k, root, slots, phys, o, Page(a));
    } else {
      NotMappedThere(k, root, slots, a);
      MapNewFrame(k.mem, k.bits, root, slots, a, phys);
      if MapPage(k.mem, Bitmap(k.bits), root, a, 0x1000 * phys).result == 0 {
        FinishMapped(k, root, slots, phys, o, a);
      } else {
        FinishUndone(k, root, slots, phys, o, a);
      }
    }
  }

  lemma FinishRefused(k: State, root: nat, slots: set<nat>, phys: nat, o: Outcome, page: nat)
    requires Inv(k, root, slots) && k.Shaped() && NewFrame(k.mem, root, slots, k.bits, phys) && o.result == -1 && o.v == k.v
    ensures Finish(k, root, phys, o) == (k, -1) && StaysTaken(k.bits, k.bits) && Retranslated(k.mem, k.mem, root, page, None)
  {
    hide Good, Ordered, RangeSlots.SlotSafe, Registered, Unreached;
    FrameBitmap.FreeNeverFrees(k.bits, phys);
  }

  lemma FinishMapped(k: State, root: nat, slots: set<nat>, phys: nat, o: Outcome, a: nat)
    requires Inv(k, root, slots) && NewFrame(k.mem, root, slots, k.bits, phys) && PageTarget(slots, a)
    requires o.frame == a && o.result == 0 && RangeSlots.SlotSafe(o.v) && Ordered(o.v.list) && o.v.list != []
    requires Adds(k.v.list, o.v.list, a, PAGE) && !Walk(k.mem, root, 4, Page(a)).Table?
    requires MapPage(k.mem, Bitmap(k.bits), root, a, 0x1000 * phys).result == 0
    ensures var r := MapPage(k.mem, Bitmap(k.bits), root, a, 0x1000 * phys);
            && r.supply.Bitmap? && o.v.Shaped() && Finish(k, root, phys, o) == (State(r.mem, r.supply.words, o.v, false), 0)
            && Inv(Finish(k, root, phys, o).0, root, slots) && StaysTaken(k.bits, r.supply.words)
  {
    hide Walk, Good, Ordered, RangeSlots.SlotSafe, MapPage, Canonical, Pml4Index, Free, Missing, Covers, Unreached;
    MapNewFrame(k.mem, k.bits, root, slots, a, phys);
    var r := MapPage(k.mem, Bitmap(k.bits), root, a, 0x1000 * phys);
    SafeIsShaped(o.v);
    RegisteredAfterMap(k.mem, r.mem, k.v.list, o.v.list, root, slots, a);
    MarkedStays(k.bits, r.supply);
  }

  lemma SafeIsShaped(v: VMap)
    requires RangeSlots.SlotSafe(v)
    ensures v.Shaped()
  {
  }

  lemma FinishUndone(k: State, root: nat, slots: set<nat>, phys: nat, o: Outcome, a: nat)
    requires Inv(k, root, slots) && NewFrame(k.mem, root, slots, k.bits, phys) && PageTarget(slots, a)
    requires o.frame == a && o.result == 0 && RangeSlots.SlotSafe(o.v) && Ordered(o.v.list) && o.v.list != []
    requires Adds(k.v.list, o.v.list, a, PAGE) && !Walk(k.mem, root, 4, Page(a)).Table? && !Covers(k.v.list, a)
    requires o.v.list[0].base <= a
    requires MapPage(k.mem, Bitmap(k.bits), root, a, 0x1000 * phys).result == -1
    ensures var r := MapPage(k.mem, Bitmap(k.bits), root, a, 0x1000 * phys);
            && r.supply.Bitmap? && o.v.Shaped() && Finish(k, root, phys, o) == (State(r.mem, r.supply.words, Free(o.v, a).v, false), -1)
            && (Inv(Finish(k, root, phys, o).0, root, slots) <==> !LosesMapped(k.mem, root, slots, o.v, a, a + PAGE))
            && StaysTaken(k.bits, r.supply.words) && Finish(k, root, phys, o).0.Shaped()
            && Free(o.v, a).v.list[0].base == o.v.list[0].base
  {
    hide Walk, Good, Ordered, RangeSlots.SlotSafe, MapPage, Canonical, Pml4Index, Free, Missing, Covers, Unreached,
      Registered,
      LosesMapped, Adds;
    MapNewFrame(k.mem, k.bits, root, slots, a, phys);
    var r := MapPage(k.mem, Bitmap(k.bits), root, a, 0x1000 * phys);
    SafeIsShaped(o.v);
    ReleaseIsNoOp(k.bits, r.supply, phys);
    MarkedStays(k.bits, r.supply);
    UndoneList(o.v, a);
    UndoRegisteredIff(k.mem, r.mem, k.v, o.v, root, slots, a);
  }

  lemma MarkedStays(bits: seq<Word64>, s: Supply)
    requires s.Bitmap? && forall f: nat :: Holds(s, f) ==> FrameBitmap.IsFree(bits, f)
    ensures StaysTaken(bits, s.words)
  {
    forall f: nat | FrameBitmap.IsFree(s.words, f) ensures FrameBitmap.IsFree(bits, f) {
      assert Holds(s, f);
    }
  }

  lemma NotMappedThere(k: State, root: nat, slots: set<nat>, a: nat)
    requires Inv(k, root, slots) && PageTarget(slots, a) && !Covers(k.v.list, a)
    ensures !Walk(k.mem, root, 4, Page(a)).Table?
  {
    AddressOfPage(a);
    ManagedPage(slots, a);
  }

  /** After the page at `a` has been put on the list and taken off again. */
  lemma UndoRegisteredIff(m: Memory, m': Memory, v: VMap, v1: VMap, root: nat, slots: set<nat>, a: nat)
    requires Registered(m, v.list, root, slots) && Adds(v.list, v1.list, a, PAGE) && !Covers(v.list, a)
    requires v1.Shaped() && v1.list != [] && Ordered(v1.list) && Ordered(v.list) && v1.list[0].base <= a && a % 0x1000 == 0
    requires forall p: nat | p < PAGES :: Walk(m', root, 4, p).Table? <==> Walk(m, root, 4, p).Table?
    ensures Registered(m', Free(v1, a).v.list, root, slots) <==> !LosesMapped(m, root, slots, v1, a, a + PAGE)
  {
    hide Covers, Ordered, Free, VMap.HasSlot, VMap.Shaped, Managed, AddressOf, Walk;
    assert Registered(m', v1.list, root, slots);
    if MappedIn(m', root, slots, a, a + PAGE) {
      var p: nat :| p < PAGES && Managed(slots, 4, p) && Walk(m', root, 4, p).Table? && a <= AddressOf(p) < a + PAGE;
      PageUniform(v.list, a, AddressOf(p));
      assert false;
    }
    FreeRegisteredIff(m', v1, root, slots, a, a + PAGE);
  }

  // ---------------------------------------------------------------------------
  // page_alloc_at, page_alloc_after, page_alloc_beyond_ex
  // ---------------------------------------------------------------------------

  /** When one of these calls leaves the state inconsistent: with a frame and a
      slot left, a second entry is inserted where one starts; or the page is
      placed, there are no frames for its tables, and taking it off the list
      again drops mapped pages behind it for want of a slot. */
  ghost predicate Trouble(k: State, root: nat, slots: set<nat>, p: Policy)
    requires k.Shaped()
  {
    && FrameBitmap.CanTake(k.bits)
    && if StartsAtKey(k.v, p) then k.v.HasSlot()
       else
         var o := Choose(k.v, p);
         o.result == 0 && !FramesSuffice(k, root, o.frame) && LosesMapped(k.mem, root, slots, o.v, o.frame, o.frame + PAGE)
  }

  /** When it panics: the entry that starts there is not empty, and the page is mapped. */
  ghost predicate Panics(k: State, root: nat, p: Policy)
    requires k.Shaped()
  {
    && FrameBitmap.CanTake(k.bits) && Key(p).Some? && StartsLater(k.v.list, Key(p).value) && k.v.HasSlot()
    && Translate(k.mem, root, Page(Key(p).value)).Some?
  }

  /** The state stays consistent exactly if there is no trouble. */
  lemma PageAllocConsistentIff(k: State, root: nat, slots: set<nat>, p: Policy)
    requires Inv(k, root, slots) && k.Shaped() && Proper(k.v, slots, p)
    ensures Inv(PageAlloc(k, root, p).0, root, slots) <==> !Trouble(k, root, slots, p)
  {
    hide Inv, Good, Ordered, Covers, LosesMapped, StaysTaken, Retranslated, Missing, FrameBitmap.Rooms,
      FrameBitmap.CanTake, Choose,
      Place, Finish, Target;
    InvShape(k, root, slots);
    if FrameBitmap.CanTake(k.bits) {
      if StartsAtKey(k.v, p) {
        DoubledIs(k, root, slots, p);
      } else {
        OrdinaryIs(k, root, slots, p);
      }
    }
  }

  /** kernel_panic is called exactly in the case named. */
  lemma PageAllocPanicsIff(k: State, root: nat, slots: set<nat>, p: Policy)
    requires Inv(k, root, slots) && k.Shaped() && Proper(k.v, slots, p)
    ensures PageAlloc(k, root, p).0.panicked <==> Panics(k, root, p)
  {
    hide Good, Ordered, LosesMapped, StaysTaken, Retranslated, Missing, FrameBitmap.Rooms, FrameBitmap.CanTake, Choose,
      Place, Finish, Target, RangeSlots.SlotSafe, Registered, Translate, Walk;
    if FrameBitmap.CanTake(k.bits) {
      if StartsAtKey(k.v, p) {
        DoubledIs(k, root, slots, p);
      } else {
        OrdinaryIs(k, root, slots, p);
        if Key(p).Some? {
          LaterIsAtKey(k.v, p);
        }
      }
    }
  }

  lemma LaterIsAtKey(v: VMap, p: Policy)
    requires Key(p).Some? && !StartsAtKey(v, p)
    ensures !StartsLater(v.list, Key(p).value)
  {
  }

  lemma InvShape(k: State, root: nat, slots: set<nat>)
    requires Inv(k, root, slots)
    ensures k.Shaped() && k.v.list != [] && Ordered(k.v.list) && !k.panicked
  {
  }

  /** Where a later entry starts at the key. */
  lemma DoubledIs(k: State, root: nat, slots: set<nat>, p: Policy)
    requires Inv(k, root, slots) && k.Shaped() && Proper(k.v, slots, p) && FrameBitmap.CanTake(k.bits) && StartsAtKey(k.v, p)
    ensures var k' := PageAlloc(k, root, p).0;
            && (Inv(k', root, slots) <==> !k.v.HasSlot())
            && (k'.panicked <==> k.v.HasSlot() && StartsLater(k.v.list, Key(p).value)
                                 && Translate(k.mem, root, Page(Key(p).value)).Some?)
  {
    var a, phys := Target(k.v, p), FrameBitmap.Picked(k.bits);
    var e := Find(k.v.list, a, 0);
    KeyIsDoubled(k.v, slots, p);
    TakenIsNew(k.mem, root, slots, k.bits);
    var k1 := TakeFrame(k);
    if k.v.HasSlot() {
      DoubledList(k.v, e, a);
      MappedDecides(k, root, slots, a);
      DoubledFinish(k1, root, slots, phys, e, a);
    } else {
      DoubledRefused(k, k1, root, slots, phys, e, a);
    }
  }

  /** Without a slot nothing is inserted, and the frame stays taken. */
  lemma DoubledRefused(k: State, k1: State, root: nat, slots: set<nat>, phys: nat, e: nat, a: nat)
    requires Inv(k, root, slots) && FrameBitmap.CanTake(k.bits) && k1 == TakeFrame(k) && phys == FrameBitmap.Picked(k.bits)
    requires k.Shaped() && e < |k.v.list| && !k.v.HasSlot()
    requires Good(k1.mem, root, slots, true, Bitmap(k1.bits)) && NewFrame(k1.mem, root, slots, k1.bits, phys)
    ensures var o := Insert(k.v, e, a, PAGE);
            Inv(Finish(k1, root, phys, o).0, root, slots) && !Finish(k1, root, phys, o).0.panicked
  {
    hide Good, Unreached, Ordered, RangeSlots.SlotSafe, Registered;
    FrameBitmap.FreeNeverFrees(k1.bits, phys);
  }

  /** The list with a second entry at `a` is out of order, and freeing there
      does not mend it: the search stops before both. */
  lemma DoubledList(v: VMap, e: nat, a: nat)
    requires v.Shaped() && Ordered(v.list) && v.HasNext(e) && v.list[e].End() < a && v.list[e + 1].base == a && v.HasSlot()
    requires e == Find(v.list, a, 0)
    ensures var o := Insert(v, e, a, PAGE);
            o.result == 0 && o.frame == a && !Ordered(o.v.list) && Free(o.v, a).v == o.v
  {
    hide Ordered, VMap.HasSlot, FrameBitmap.Taken, FrameBitmap.Picked;
    InsertDisorders(v, e, a, PAGE);
    var l := Insert(v, e, a, PAGE).v.list;
    forall j | 0 < j <= e ensures l[j].base < a {
      assert l[j] == v.list[j];
    }
    FindAt(l, a, e, 0);
    assert l[e] == v.list[e];
  }

  /** With the second entry on the list the page is mapped, or not, or panicked about. */
  lemma DoubledFinish(k1: State, root: nat, slots: set<nat>, phys: nat, e: nat, a: nat)
    requires k1.Shaped() && !k1.panicked && e < |k1.v.list| && PageTarget(slots, a)
    requires Good(k1.mem, root, slots, true, Bitmap(k1.bits)) && NewFrame(k1.mem, root, slots, k1.bits, phys)
    requires var o := Insert(k1.v, e, a, PAGE);
             o.result == 0 && o.frame == a && !Ordered(o.v.list) && Free(o.v, a).v == o.v
    ensures var o := Insert(k1.v, e, a, PAGE);
            var k' := Finish(k1, root, phys, o).0;
            !Inv(k', root, slots) && (k'.panicked <==> Walk(k1.mem, root, 4, Page(a)).Table?)
  {
    hide Good, NewFrame, Walk, Ordered, Insert, Free, Canonical, Pml4Index, MapPage;
    if Walk(k1.mem, root, 4, Page(a)).Table? {
      MapMapped(k1.mem, k1.bits, root, slots, a, phys);
    } else {
      MapNewFrame(k1.mem, k1.bits, root, slots, a, phys);
    }
  }

  /** A mapped page is on the list, and translates. */
  lemma MappedDecides(k: State, root: nat, slots: set<nat>, a: nat)
    requires Inv(k, root, slots) && k.Shaped() && PageTarget(slots, a)
    requires k.v.HasNext(Find(k.v.list, a, 0)) && k.v.list[Find(k.v.list, a, 0)].End() < a
    ensures Walk(k.mem, root, 4, Page(a)).Table? <==> StartsLater(k.v.list, a) && Translate(k.mem, root, Page(a)).Some?
  {
    AddressOfPage(a);
    ManagedPage(slots, a);
    FindIs(k.v.list, a);
    PrefixIsPath(Page(a), 4);
    assert !Walk(k.mem, root, 4, Page(a)).Huge?;
  }

  /** Where none does, the page is placed or refused. */
  lemma OrdinaryIs(k: State, root: nat, slots: set<nat>, p: Policy)
    requires Inv(k, root, slots) && k.Shaped() && Proper(k.v, slots, p) && FrameBitmap.CanTake(k.bits) && !StartsAtKey(k.v, p)
    ensures PageAllocEffect(k, root, slots, p, PageAlloc(k, root, p).0, PageAlloc(k, root, p).1)
    ensures Inv(PageAlloc(k, root, p).0, root, slots) <==> !Trouble(k, root, slots, p)
  {
    hide Inv, Choose, PageAlloc, Trouble, PageAllocEffect, StartsAtKey, FrameBitmap.CanTake, Ordered;
    InvShape(k, root, slots);
    if Choose(k.v, p).result == 1 {
      RefusedIs(k, root, slots, p);
    } else {
      PlacedIs(k, root, slots, p);
    }
  }

  lemma RefusedIs(k: State, root: nat, slots: set<nat>, p: Policy)
    requires Inv(k, root, slots) && k.Shaped() && Proper(k.v, slots, p) && FrameBitmap.CanTake(k.bits) && !StartsAtKey(k.v, p)
    requires Choose(k.v, p).result == 1
    ensures PageAllocEffect(k, root, slots, p, PageAlloc(k, root, p).0, PageAlloc(k, root, p).1)
    ensures Inv(PageAlloc(k, root, p).0, root, slots) && !Trouble(k, root, slots, p)
  {
    hide Choose, Target, Proper, Covers, Adds, StartsAtKey, LosesMapped, Good, RangeSlots.SlotSafe, Registered,
      FrameBitmap.Picked, FrameBitmap.Taken, FrameBitmap.IsFree, FrameBitmap.CanTake, Ordered;
    ChooseRefuses(k.v, slots, p);
    RefusedPage(k, root, slots, FrameBitmap.Picked(k.bits));
  }

  lemma PlacedIs(k: State, root: nat, slots: set<nat>, p: Policy)
    requires Inv(k, root, slots) && k.Shaped() && Proper(k.v, slots, p) && FrameBitmap.CanTake(k.bits) && !StartsAtKey(k.v, p)
    requires Choose(k.v, p).result != 1
    ensures PageAllocEffect(k, root, slots, p, PageAlloc(k, root, p).0, PageAlloc(k, root, p).1)
    ensures Inv(PageAlloc(k, root, p).0, root, slots) <==> !Trouble(k, root, slots, p)
  {
    hide Inv, Finish, Choose, Target, Proper, Covers, Adds, Retranslated, StartsAtKey, LosesMapped, Missing, Place,
      Page, PageTarget,
      FrameBitmap.Picked, FrameBitmap.Taken, FrameBitmap.IsFree, FrameBitmap.CanTake, FrameBitmap.Rooms, NewFrame, Ordered, FitsBetween;
    var a, phys := Target(k.v, p), FrameBitmap.Picked(k.bits);
    InvShape(k, root, slots);
    ProperTarget(k.v, slots, p);
    TakenFrame(k, root, slots);
    var e := ChoosePlaces(k.v, slots, p);
    FitsIndex(k.v, e, a);
    FinishIs(TakeFrame(k), root, slots, phys, e, a);
    PlacedAt(k.v, e, a);
  }

  lemma FitsIndex(v: VMap, e: nat, a: nat)
    requires v.Shaped() && FitsBetween(v, e, a)
    ensures e < |v.list|
  {
  }

  lemma ProperTarget(v: VMap, slots: set<nat>, p: Policy)
    requires v.Shaped() && |v.list| > 0 && Proper(v, slots, p)
    ensures PageTarget(slots, Target(v, p))
  {
  }

  lemma PlacedAt(v: VMap, e: nat, a: nat)
    requires v.Shaped() && e < |v.list|
    ensures Place(v, e, a, PAGE).frame == a && -1 <= Place(v, e, a, PAGE).result <= 0
  {
    PlaceAdds(v, e, a, PAGE);
  }

  lemma TakenFrame(k: State, root: nat, slots: set<nat>)
    requires Inv(k, root, slots) && FrameBitmap.CanTake(k.bits)
    ensures var phys := FrameBitmap.Picked(k.bits);
            && Inv(TakeFrame(k), root, slots) && NewFrame(k.mem, root, slots, TakeFrame(k).bits, phys)
            && FrameBitmap.IsFree(k.bits, phys) && StaysTaken(k.bits, TakeFrame(k).bits)
            && FrameBitmap.Rooms(TakeFrame(k).bits) == FrameBitmap.Rooms(k.bits) - 1
  {
    FrameBitmap.TakeIs(k.bits);
    FrameBitmap.TakeUsesOneRoom(k.bits);
    TakenIsNew(k.mem, root, slots, k.bits);
  }

  lemma RefusedPage(k: State, root: nat, slots: set<nat>, phys: nat)
    requires Inv(k, root, slots) && FrameBitmap.CanTake(k.bits) && phys == FrameBitmap.Picked(k.bits)
    ensures var k' := TakeFrame(k).(bits := FrameBitmap.Released(TakeFrame(k).bits, phys));
            Inv(k', root, slots) && StaysTaken(k.bits, k'.bits)
  {
    FrameBitmap.TakeIs(k.bits);
    TakenIsNew(k.mem, root, slots, k.bits);
    FrameBitmap.FreeNeverFrees(TakeFrame(k).bits, phys);
  }

  /** What a call has done: success, which takes a range and frames for the page
      and the tables it needs, registers exactly the page answered with, free
      before, and maps it to a frame that was free; otherwise no translation
      changes; 1 says that the page is allocated, or lies below the first entry. */
  ghost predicate PageAllocEffect(k: State, root: nat, slots: set<nat>, p: Policy, k': State, r: int)
    requires k.Shaped()
  {
    var a := Target(k.v, p);
    && !k'.panicked && StaysTaken(k.bits, k'.bits) && k'.Shaped() && k'.v.list[0].base == k.v.list[0].base
    && r == (if !FrameBitmap.CanTake(k.bits) then -1
             else if Choose(k.v, p).result != 0 then Choose(k.v, p).result
             else if FramesSuffice(k, root, a) then 0 else -1)
    && (r == 0 ==>
          && FrameBitmap.CanTake(k.bits) && FrameBitmap.IsFree(k.bits, FrameBitmap.Picked(k.bits))
          && Adds(k.v.list, k'.v.list, a, PAGE) && !Covers(k.v.list, a) && k'.v == Choose(k.v, p).v
          && FrameBitmap.Rooms(k'.bits) == FrameBitmap.Rooms(k.bits) - 1 - Missing(k.mem, root, Page(a), 0))
    && Retranslated(k.mem, k'.mem, root, Page(a), if r == 0 then Some(FrameBitmap.Picked(k.bits)) else None)
    && (r == 1 ==> k'.v == k.v && p.At? && (Covers(k.v.list, a) || a < k.v.list[0].base))
  }

  /** Without trouble. */
  lemma PageAllocIs(k: State, root: nat, slots: set<nat>, p: Policy)
    requires Inv(k, root, slots) && k.Shaped() && Proper(k.v, slots, p) && !Trouble(k, root, slots, p)
    ensures Inv(PageAlloc(k, root, p).0, root, slots)
    ensures !StartsAtKey(k.v, p) ==> PageAllocEffect(k, root, slots, p, PageAlloc(k, root, p).0, PageAlloc(k, root, p).1)
  {
    PageAllocConsistentIff(k, root, slots, p);
    if !StartsAtKey(k.v, p) && FrameBitmap.CanTake(k.bits) {
      OrdinaryIs(k, root, slots, p);
    }
  }

  /** Without the pages, the tables are told apart as before. */
  lemma GoodTables(m: Memory, s: Supply, root: nat, slots: set<nat>)
    requires Good(m, root, slots, true, s)
    ensures Good(m, root, slots, false, s)
  {
    hide Walk, Span, Managed;
    forall d: nat, q: nat | Counted(slots, false, d, q) && Managed(slots, d, q) ensures Unique(m, root, slots, false, d, q) {
      assert Counted(slots, true, d, q) && Unique(m, root, slots, true, d, q);
      forall e: nat, r: nat | Counted(slots, false, e, r) ensures Counted(slots, true, e, r) {
      }
    }
    forall d: nat, q: nat | Counted(slots, false, d, q) ensures Counted(slots, true, d, q) {
    }
  }

  /** How many frames it draws at most. */
  function FramesDrawn(k: State, root: nat, p: Policy): nat
    requires k.Shaped()
  {
    if Choose(k.v, p).result != 0 then 1 else 1 + Missing(k.mem, root, Page(Choose(k.v, p).frame), 0)
  }

  /** Whatever the call answers, and if it panics, it has drawn one frame, and
      one for each table that was missing if it found a range, or all there
      were; and no frame comes back. A refused call loses exactly one. */
  lemma PageAllocDraws(k: State, root: nat, slots: set<nat>, p: Policy)
    requires Good(k.mem, root, slots, true, Bitmap(k.bits)) && k.Shaped() && Pml4Index(Choose(k.v, p).frame) in slots
    ensures Bitmap(PageAlloc(k, root, p).0.bits) == DrawnTimes(Bitmap(k.bits), FramesDrawn(k, root, p))
    ensures Choose(k.v, p).result != 0 && FrameBitmap.CanTake(k.bits) ==>
              forall f: nat :: FrameBitmap.IsFree(PageAlloc(k, root, p).0.bits, f) <==>
                FrameBitmap.IsFree(k.bits, f) && f != FrameBitmap.Picked(k.bits)
  {
    hide Good, NewFrame, Walk, MapPage, Choose, Free, VMap.Shaped, Page, Pml4Index, FrameBitmap.Picked, FrameBitmap.Taken,
      FrameBitmap.CanTake, Missing;
    if FrameBitmap.CanTake(k.bits) {
      var f, bits1 := FrameBitmap.Picked(k.bits), FrameBitmap.Taken(k.bits);
      FrameBitmap.TakeIs(k.bits);
      OneDrawn(k.bits, if Choose(k.v, p).result != 0 then 0 else Missing(k.mem, root, Page(Choose(k.v, p).frame), 0));
      FrameBitmap.FreeNeverFrees(bits1, f);
      if Choose(k.v, p).result == 0 {
        MappingDraws(k.mem, k.bits, root, slots, Choose(k.v, p).frame);
      }
    } else {
      NoneDrawn(k.bits, FramesDrawn(k, root, p));
    }
  }

  lemma OneDrawn(bits: seq<Word64>, n: nat)
    requires FrameBitmap.CanTake(bits)
    ensures DrawnTimes(Bitmap(bits), 1 + n) == DrawnTimes(Bitmap(FrameBitmap.Taken(bits)), n)
  {
    hide FrameBitmap.Taken;
  }

  lemma NoneDrawn(bits: seq<Word64>, n: nat)
    requires !FrameBitmap.CanTake(bits)
    ensures DrawnTimes(Bitmap(bits), n) == Bitmap(bits)
  {
  }

  /** Mapping the frame just taken: what it draws, and that giving the frame back
      afterwards changes nothing. */
  lemma MappingDraws(m: Memory, bits: seq<Word64>, root: nat, slots: set<nat>, va: nat)
    requires Good(m, root, slots, true, Bitmap(bits)) && FrameBitmap.CanTake(bits) && Pml4Index(va) in slots
    ensures var bits1, f := FrameBitmap.Taken(bits), FrameBitmap.Picked(bits);
            var s := MapPage(m, Bitmap(bits1), root, va, 0x1000 * f).supply;
            && s == DrawnTimes(Bitmap(bits1), Missing(m, root, Page(va), 0))
            && s.Bitmap? && FrameBitmap.Released(s.words, f) == s.words
  {
    hide Good, NewFrame, Walk, Page, Pml4Index, FrameBitmap.Picked, FrameBitmap.Taken, FrameBitmap.CanTake, Missing, MapFrom, Managed,
      Mapping.At, Retranslated, GrowsAlong, HasTables, FrameBitmap.Released;
    var f, bits1 := FrameBitmap.Picked(bits), FrameBitmap.Taken(bits);
    TakenIsNew(m, root, slots, bits);
    GoodTables(m, Bitmap(bits1), root, slots);
    ManagedPage(slots, va);
    RootAt(m, root, slots, Page(va));
    MapFromDraws(m, Bitmap(bits1), root, slots, Page(va), root, 0, FrameOf(0x1000 * f));
    MarkedNew(m, root, slots, bits1, f);
    if Walk(m, root, 4, Page(va)).Table? {
      MapMapped(m, bits1, root, slots, va, f);
      ReleaseIsNoOp(bits1, Bitmap(bits1), f);
    } else {
      MapNewFrame(m, bits1, root, slots, va, f);
      ReleaseIsNoOp(bits1, MapPage(m, Bitmap(bits1), root, va, 0x1000 * f).supply, f);
    }
  }

  lemma MarkedNew(m: Memory, root: nat, slots: set<nat>, bits: seq<Word64>, f: nat)
    requires NewFrame(m, root, slots, bits, f)
    ensures FrameBitmap.IsMarked(bits, f)
  {
  }

  /** A page that the call has mapped may be written, and used from user mode,
      exactly if the tables that were there before permit it; no other page
      changes its rights, whatever the call answers. */
  lemma PageAllocRights(k: State, root: nat, slots: set<nat>, p: Policy)
    requires Good(k.mem, root, slots, true, Bitmap(k.bits)) && k.Shaped() && Pml4Index(Choose(k.v, p).frame) in slots
    ensures var (k', r) := PageAlloc(k, root, p);
            var page := Page(Choose(k.v, p).frame);
            && (r == 0 ==>
                  && (Permits(k'.mem, root, 4, page, WRITABLE) <==> TablesPermit(k.mem, root, page, WRITABLE))
                  && (Permits(k'.mem, root, 4, page, USER) <==> TablesPermit(k.mem, root, page, USER))
                  && (Marks(k'.mem, root, 4, page, NO_EXECUTE) <==> TablesMark(k.mem, root, page, NO_EXECUTE)))
            && (forall q: nat | q < PAGES && (q != page || r != 0) :: SameRights(k.mem, root, k'.mem, root, q))
  {
    hide Good, NewFrame, Walk, MapPage, Choose, Free, VMap.Shaped, Page, Pml4Index, FrameBitmap.Picked, FrameBitmap.Taken,
      FrameBitmap.CanTake, Missing, Permits, Marks, TablesPermit, TablesMark, FrameBitmap.Released;
    if FrameBitmap.CanTake(k.bits) && Choose(k.v, p).result == 0 {
      TakenIsNew(k.mem, root, slots, k.bits);
      GoodTables(k.mem, Bitmap(FrameBitmap.Taken(k.bits)), root, slots);
      PageMapRights(k.mem, Bitmap(FrameBitmap.Taken(k.bits)), root, slots, Choose(k.v, p).frame, 0x1000 * FrameBitmap.Picked(k.bits));
    }
  }

  /** A page just placed can be freed without losing another: the page after it
      is free, or a slot is left, or the page starts an entry of its own. */
  lemma PlacedCanBeFreed(v: VMap, e: nat, a: nat)
    requires v.Shaped() && Ordered(v.list) && FitsBetween(v, e, a) && a % 0x1000 == 0
    requires v.HasSlot() || !Covers(v.list, a + PAGE)
    requires Place(v, e, a, PAGE).result == 0
    ensures var o := Place(v, e, a, PAGE);
            o.v.HasSlot() || StartsLater(o.v.list, a) || !Covers(o.v.list, a + PAGE)
  {
    var o := Place(v, e, a, PAGE);
    PlaceAdds(v, e, a, PAGE);
    if Covers(v.list, a + PAGE) {
      if v.list[e].End() == a {
        if v.HasNext(e) && a + PAGE == v.list[e + 1].base {
          GivenBackKeepsRoom(v.words, v.list[e + 1].slot, v.limit);
        }
      } else if !(v.HasNext(e) && v.list[e + 1].base == a + PAGE) {
        assert o.v.list[e + 1].base == a && o.v.list[e + 1].length == PAGE;
      }
    }
  }

  /** A slot left, or a free page behind the one answered with, is enough. */
  lemma SlotSpares(k: State, root: nat, slots: set<nat>, p: Policy)
    requires Inv(k, root, slots) && k.Shaped() && Proper(k.v, slots, p) && !StartsAtKey(k.v, p)
    requires k.v.HasSlot() || !Covers(k.v.list, Target(k.v, p) + PAGE)
    ensures !Trouble(k, root, slots, p)
  {
    var a := Target(k.v, p);
    if Choose(k.v, p).result == 0 {
      var e := ChoosePlaces(k.v, slots, p);
      PlacedPage(k.v, e, a);
      PlacedCanBeFreed(k.v, e, a);
      NothingLost(Place(k.v, e, a, PAGE).v, a);
    }
  }

  lemma NothingLost(v: VMap, a: nat)
    requires v.Shaped() && v.list != [] && Ordered(v.list) && v.list[0].base <= a && a % 0x1000 == 0
    requires v.HasSlot() || StartsLater(v.list, a) || !Covers(v.list, a + PAGE)
    ensures v.HasSlot() || v.list[Find(v.list, a, 0)].End() <= a + PAGE
  {
    var e := Find(v.list, a, 0);
    FindIs(v.list, a);
    EntryCovers(v.list, e);
  }

  // ---------------------------------------------------------------------------
  // page_free
  // ---------------------------------------------------------------------------

  /** A page address under a managed slot with a last-level table, or for which
      the word that page_unmap clears instead is not present. */
  ghost predicate ProperFree(k: State, root: nat, slots: set<nat>, a: nat) {
    a % 0x1000 == 0 && Canonical(a) && Pml4Index(a) in slots && Erasable(k.mem, root, Page(a))
  }

  /** When page_free leaves the state inconsistent: the range is given back, and
      the page lies below the first entry, or mapped pages behind it are dropped
      for want of a slot. */
  ghost predicate FreeTrouble(k: State, root: nat, slots: set<nat>, offset: nat, a: nat, garbage: int)
    requires k.Shaped()
  {
    && !Refused(offset, a) && garbage != -1
    && (a < k.v.list[0].base || LosesMapped(k.mem, root, slots, k.v, a, a + PAGE))
  }

  /** page_free unmaps exactly the page, whatever value page_unmap leaves behind;
      it takes the page off the list unless that value is -1 or a later entry
      starts there; the frame stays allocated. The state stays consistent
      exactly if there is no trouble. */
  lemma PageFreeIs(k: State, root: nat, slots: set<nat>, offset: nat, a: nat, garbage: int)
    requires Inv(k, root, slots) && k.Shaped() && ProperFree(k, root, slots, a)
    ensures var k' := PageFree(k, root, offset, a, garbage);
            && k'.bits == k.bits && !k'.panicked
            && (Refused(offset, a) ==> k' == k)
            && (!Refused(offset, a) ==> forall p: nat | p < PAGES ::
                  Translate(k'.mem, root, p) == if p == Page(a) then None else Translate(k.mem, root, p))
            && (Inv(k', root, slots) <==> !FreeTrouble(k, root, slots, offset, a, garbage))
            && (!Refused(offset, a) && garbage != -1 && k.v.list[0].base <= a && k.v.HasSlot() && !StartsLater(k.v.list, a)
                ==> Removes(k.v.list, k'.v.list, a, PAGE))
  {
    if !Refused(offset, a) {
      ManagedPage(slots, a);
      UnmapIs(k.mem, root, slots, true, Bitmap(k.bits), Page(a));
      UnmappedConsistent(k, root, slots, a);
      if garbage != -1 {
        FreeUnmappedIff(k, root, slots, a);
        if k.v.list[0].base <= a && k.v.HasSlot() && !StartsLater(k.v.list, a) {
          FreeRemoves(k.v, a);
        }
      }
    }
  }

  lemma UnmappedConsistent(k: State, root: nat, slots: set<nat>, a: nat)
    requires Inv(k, root, slots) && ProperFree(k, root, slots, a)
    ensures var k1 := k.(mem := Unmapped(k.mem, root, Page(a)));
            && Inv(k1, root, slots)
            && (forall p: nat | p < PAGES :: Walk(k1.mem, root, 4, p) == if p == Page(a) then Absent else Walk(k.mem, root, 4, p))
  {
    ManagedPage(slots, a);
    UnmapIs(k.mem, root, slots, true, Bitmap(k.bits), Page(a));
    hide Good, Unmapped, Walk, Translate, RangeSlots.SlotSafe, Ordered, Erasable;
    forall p: nat | p < PAGES
      ensures Walk(Unmapped(k.mem, root, Page(a)), root, 4, p) == if p == Page(a) then Absent else Walk(k.mem, root, 4, p)
    {
      PrefixIsPath(p, 4);
    }
  }

  lemma FreeUnmappedIff(k: State, root: nat, slots: set<nat>, a: nat)
    requires Inv(k, root, slots) && k.Shaped() && ProperFree(k, root, slots, a)
    ensures var m1 := Unmapped(k.mem, root, Page(a));
            Inv(State(m1, k.bits, Free(k.v, a).v, k.panicked), root, slots) <==>
              !(a < k.v.list[0].base || LosesMapped(k.mem, root, slots, k.v, a, a + PAGE))
  {
    hide Good, Unmapped, Walk, Translate, RangeSlots.SlotSafe, Ordered, Erasable, Free, Covers, Canonical, Pml4Index;
    var m1 := Unmapped(k.mem, root, Page(a));
    UnmappedConsistent(k, root, slots, a);
    if a < k.v.list[0].base {
      FreeBelow(k.v, a);
    } else {
      UndoneList(k.v, a);
      NothingMappedAt(k.mem, m1, root, slots, a, k.v.list[Find(k.v.list, a, 0)].End());
      FreeRegisteredIff(m1, k.v, root, slots, a, a + PAGE);
    }
  }

  /** No page but `a` changes whether it is mapped. */
  lemma NothingMappedAt(m: Memory, m1: Memory, root: nat, slots: set<nat>, a: nat, end: nat)
    requires Canonical(a) && a % 0x1000 == 0
    requires forall p: nat | p < PAGES :: Walk(m1, root, 4, p) == if p == Page(a) then Absent else Walk(m, root, 4, p)
    ensures !MappedIn(m1, root, slots, a, a + PAGE)
    ensures MappedIn(m1, root, slots, a + PAGE, end) <==> MappedIn(m, root, slots, a + PAGE, end)
  {
    hide Walk, Managed;
    AddressOfPage(a);
    forall p: nat | p < PAGES && p != Page(a) ensures !(a <= AddressOf(p) < a + PAGE) {
      OtherPage(p, a);
    }
    if MappedIn(m, root, slots, a + PAGE, end) {
      var p: nat :| p < PAGES && Managed(slots, 4, p) && Walk(m, root, 4, p).Table? && a + PAGE <= AddressOf(p) < end;
      assert Walk(m1, root, 4, p).Table?;
    }
  }

  lemma FreeRemoves(v: VMap, a: nat)
    requires v.Shaped() && v.list != [] && Ordered(v.list) && a % 0x1000 == 0 && v.list[0].base <= a
    requires v.HasSlot() && !StartsLater(v.list, a)
    ensures Removes(v.list, Free(v, a).v.list, a, PAGE)
  {
    FreeWithin(v, a);
    if !Covers(v.list, a) {
      NothingToRemove(v.list, a);
    }
  }

  // ---------------------------------------------------------------------------
  // page_alloc
  // ---------------------------------------------------------------------------

  /** page_alloc registers one byte of the page it maps, so the next call
      chooses the same page, one byte further, and panics: no state is left
      consistent by two calls that find a frame. */
  lemma SecondPageAllocPanics(k: State, root: nat, slots: set<nat>)
    requires Inv(k, root, slots) && Canonical(k.v.list[0].End()) && Pml4Index(k.v.list[0].End()) in slots
    requires k.v.list[0].End() + PAGE < WORD
    requires PageAlloc(k, root, Lowest).1 == 0 && FrameBitmap.CanTake(PageAlloc(k, root, Lowest).0.bits)
    ensures PageAlloc(PageAlloc(k, root, Lowest).0, root, Lowest).0.panicked
  {
    hide Inv, Good, NewFrame, MapPage, Walk, FrameBitmap.CanTake, FrameBitmap.Picked, FrameBitmap.Taken, Alloc,
      Ordered, Canonical,
      Pml4Index, Page, VMap.Shaped;
    InvShape(k, root, slots);
    var a := k.v.list[0].End();
    var k1 := PageAlloc(k, root, Lowest).0;
    FirstPageAlloc(k, root, slots);
    AllocOneByte(k.v);
    SamePage(a);
    TakenIsNew(k1.mem, root, slots, k1.bits);
    MapMapped(k1.mem, FrameBitmap.Taken(k1.bits), root, slots, a + 1, FrameBitmap.Picked(k1.bits));
  }

  lemma AllocOneByte(v: VMap)
    requires v.Shaped() && v.list != [] && Ordered(v.list) && v.list[0].End() + PAGE < WORD
    requires Alloc(v).result == 0
    ensures var a := v.list[0].End();
            && a % 0x1000 == 0 && Alloc(v).frame == a
            && Alloc(Alloc(v).v).result == 0 && Alloc(Alloc(v).v).frame == a + 1
  {
    AlignedGap(v.list, 0);
    assert Alloc(v).v.list[0].End() == v.list[0].End() + 1;
  }

  lemma SamePage(a: nat)
    requires a % 0x1000 == 0
    ensures Page(a + 1) == Page(a) && Pml4Index(a + 1) == Pml4Index(a)
  {
    hide Pml4Index;
    SameQuotient(a);
    assert Page(a + 1) == Page(a);
    hide Page;
    PageDigits(a);
    PageDigits(a + 1);
  }

  lemma SameQuotient(a: nat)
    requires a % 0x1000 == 0
    ensures (a + 1) / 0x1000 == a / 0x1000
  {
    assert a == 0x1000 * (a / 0x1000);
  }

  lemma FirstPageAlloc(k: State, root: nat, slots: set<nat>)
    requires Inv(k, root, slots) && Canonical(k.v.list[0].End()) && Pml4Index(k.v.list[0].End()) in slots
    requires k.v.list[0].End() + PAGE < WORD
    requires PageAlloc(k, root, Lowest).1 == 0
    ensures var a := k.v.list[0].End();
            var k1 := PageAlloc(k, root, Lowest).0;
            && Good(k1.mem, root, slots, true, Bitmap(k1.bits)) && Walk(k1.mem, root, 4, Page(a)).Table?
            && k1.v == Alloc(k.v).v && Alloc(k.v).result == 0
  {
    var a := k.v.list[0].End();
    NotMappedAtEnd(k, root, slots);
    AllocOneByteFrame(k.v);
    TakenIsNew(k.mem, root, slots, k.bits);
    var bits, phys := FrameBitmap.Taken(k.bits), FrameBitmap.Picked(k.bits);
    hide Inv, Good, NewFrame, Walk, FrameBitmap.Picked, FrameBitmap.Taken, Alloc, MapPage, Retranslated;
    MapNewFrame(k.mem, bits, root, slots, a, phys);
    MappedNow(k.mem, bits, root, slots, a, phys);
  }

  lemma AllocOneByteFrame(v: VMap)
    requires v.Shaped() && v.list != [] && v.list[0].End() + PAGE < WORD
    ensures Alloc(v).frame == v.list[0].End() && (Alloc(v).result == 0 || Alloc(v).result == -1)
  {
  }

  lemma NotMappedAtEnd(k: State, root: nat, slots: set<nat>)
    requires Inv(k, root, slots) && Canonical(k.v.list[0].End()) && Pml4Index(k.v.list[0].End()) in slots
    ensures !Walk(k.mem, root, 4, Page(k.v.list[0].End())).Table?
  {
    var a := k.v.list[0].End();
    AlignedGap(k.v.list, 0);
    AddressOfPage(a);
    ManagedPage(slots, a);
    FreeAtEnd(k.v.list, 0);
  }

  lemma MappedNow(m: Memory, bits: seq<Word64>, root: nat, slots: set<nat>, va: nat, phys: nat)
    requires Good(m, root, slots, true, Bitmap(bits)) && NewFrame(m, root, slots, bits, phys) && Pml4Index(va) in slots
    requires MapPage(m, Bitmap(bits), root, va, 0x1000 * phys).result == 0
    ensures Walk(MapPage(m, Bitmap(bits), root, va, 0x1000 * phys).mem, root, 4, Page(va)).Table?
  {
    assert FrameOf(0x1000 * phys) == phys;
    ManagedPage(slots, va);
    RootAt(m, root, slots, Page(va));
    MapFromIs(m, Bitmap(bits), root, slots, true, Page(va), root, 0, phys);
  }
}
