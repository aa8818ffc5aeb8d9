/**
 The slots of the list nodes. Insertion marks a slot by one bit convention and a
 join or a free gives it back by another, so that only the first node's slot can
 be marked anew; what holds instead is a budget, and no live node is ever
 overwritten.
 */
module RangeSlots {
  import opened Words
  import opened VirtualRanges
  import FrameBitmap

  /** How many of the first n words have their top bit clear. */
  function Budget(words: seq<Word64>, n: nat): nat
    requires n <= |words|
  {
    if n == 0 then 0 else Budget(words, n - 1) + if words[n - 1][63] then 0 else 1
  }

  /** `page_allocator_init` sets up one entry, in slot 0, and marks bit 63 of the
      first word for it. Every other node lives in the last slot of a word, and
      the top bit of that word is set. */
  ghost predicate Housed(v: VMap) {
    && v.Shaped()
    && (forall k | 0 <= k < |v.list| && v.list[k].slot != 0 ::
          v.list[k].slot % 64 == 63 && v.words[v.list[k].slot / 64][63])
    && (forall k | 0 <= k < |v.list| && v.list[k].slot == 0 :: k == 0 && v.words[0][63])
  }

  /** No two nodes share a slot, and none lives in the slot whose bit stands for
      the node in slot 0. */
  ghost predicate Apart(list: seq<Range>) {
    && (forall i, j | 0 <= i < j < |list| :: list[i].slot != list[j].slot)
    && (forall i, j | 0 <= i < |list| && 0 <= j < |list| && list[i].slot == 0 :: list[j].slot != 63)
  }

  ghost predicate SlotsSafe(v: VMap) { Housed(v) && Apart(v.list) }

  ghost predicate SlotSafe(v: VMap) { SlotsSafe(v) && v.list != [] }

  /** 1 while the first node is the one of the start. */
  function FirstKept(list: seq<Range>): nat { if list != [] && list[0].slot == 0 then 1 else 0 }

  /** How many insertions may still succeed: one for each word with a clear top
      bit, and one for the word marked for the node of the start. */
  function Potential(v: VMap): nat
    requires v.limit <= |v.words|
  {
    Budget(v.words, v.limit) + FirstKept(v.list)
  }

  /** Slots stay safe; words with a clear top bit are gained only with the node
      of the start, and no more entries are gained than such words are lost. */
  ghost predicate SlotStep(v: VMap, v': VMap) {
    && SlotsSafe(v) && SlotsSafe(v') && v'.limit == v.limit && |v'.words| == |v.words|
    && FirstKept(v'.list) <= FirstKept(v.list) && Potential(v') <= Potential(v)
    && |v'.list| + Budget(v'.words, v.limit) <= |v.list| + Budget(v.words, v.limit)
  }

  lemma {:induction false} BudgetSame(words: seq<Word64>, words': seq<Word64>, n: nat)
    requires n <= |words| == |words'| && forall i | 0 <= i < n :: words'[i][63] == words[i][63]
    ensures Budget(words', n) == Budget(words, n)
  {
    if n > 0 {
      BudgetSame(words, words', n - 1);
    }
  }

  lemma {:induction false} BudgetSpent(words: seq<Word64>, words': seq<Word64>, n: nat, w: nat)
    requires w < n <= |words| == |words'| && !words[w][63]
    requires forall i | 0 <= i < n :: words'[i][63] == (words[i][63] || i == w)
    ensures Budget(words', n) == Budget(words, n) - 1
  {
    if w == n - 1 {
      BudgetSame(words, words', n - 1);
    } else {
      BudgetSpent(words, words', n - 1, w);
    }
  }

  /** A successful insertion takes a slot that no node lives in and spends one
      word of the budget. */
  lemma InsertSlots(v: VMap, k: nat, base: nat, length: nat)
    requires SlotSafe(v) && k < |v.list|
    ensures var o := Insert(v, k, base, length);
            && SlotStep(v, o.v)
            && (o.result == 0 ==> forall j | 0 <= j < |v.list| :: v.list[j].slot != o.v.list[k + 1].slot)
            && (o.result == 0 ==> |o.v.list| == |v.list| + 1 && Budget(o.v.words, v.limit) == Budget(v.words, v.limit) - 1)
  {
    var o := Insert(v, k, base, length);
    if v.HasSlot() {
      var some := v.words[..v.limit];
      var f := FrameBitmap.Picked(some);
      FrameBitmap.PickedIs(some);
      TakenTop(some);
      assert forall i | 0 <= i < v.limit :: o.v.words[i] == FrameBitmap.Taken(some)[i] && some[i] == v.words[i];
      InsertedSafe(v, o.v, k, f);
      hide SlotSafe;
      BudgetSpent(v.words, o.v.words, v.limit, f / 64);
    }
  }

  lemma TakenTop(ws: seq<Word64>)
    requires FrameBitmap.CanTake(ws)
    ensures var f := FrameBitmap.Picked(ws);
            && f / 64 < |ws| && f % 64 == 63 && !ws[f / 64][63] && |FrameBitmap.Taken(ws)| == |ws|
            && forall i | 0 <= i < |ws| :: FrameBitmap.Taken(ws)[i][63] == (ws[i][63] || i == f / 64)
  {
    FrameBitmap.PickedIs(ws);
    RoomIff(ws[FrameBitmap.Picked(ws) / 64]);
  }

  lemma InsertedSafe(v: VMap, v': VMap, k: nat, f: nat)
    requires SlotSafe(v) && k < |v.list| && v'.limit == v.limit && |v'.words| == |v.words|
    requires f / 64 < v.limit && f % 64 == 63 && !v.words[f / 64][63] && v'.words[f / 64][63]
    requires forall i | 0 <= i < |v.words| :: v.words[i][63] ==> v'.words[i][63]
    requires |v'.list| == |v.list| + 1 && v'.list[k + 1].slot == f
    requires v'.list[..k + 1] == v.list[..k + 1] && v'.list[k + 2..] == v.list[k + 1..]
    ensures SlotSafe(v') && forall j | 0 <= j < |v.list| :: v.list[j].slot != f
  {
    hide SlotsSafe;
    forall j | 0 <= j < |v'.list| && j != k + 1
      ensures v'.list[j] == v.list[if j <= k then j else j - 1]
    {
      if j <= k {
        assert v'.list[..k + 1][j] == v.list[..k + 1][j];
      } else {
        assert v'.list[k + 2..][j - k - 2] == v.list[k + 1..][j - k - 2];
      }
    }
    WithOneSafe(v, v', k, f);
  }

  lemma WithOneSafe(v: VMap, v': VMap, k: nat, f: nat)
    requires SlotSafe(v) && k < |v.list| && v'.limit == v.limit && |v'.words| == |v.words|
    requires f / 64 < v.limit && f % 64 == 63 && !v.words[f / 64][63] && v'.words[f / 64][63]
    requires forall i | 0 <= i < |v.words| :: v.words[i][63] ==> v'.words[i][63]
    requires |v'.list| == |v.list| + 1 && v'.list[k + 1].slot == f
    requires forall j | 0 <= j < |v'.list| && j != k + 1 :: v'.list[j] == v.list[if j <= k then j else j - 1]
    ensures SlotsSafe(v') && forall j | 0 <= j < |v.list| :: v.list[j].slot != f
  {
    hide Apart, Housed;
    SafeShape(v);
    ClearIsEmpty(v, f);
    WithOneHoused(v, v', k, f);
    WithOneApart(v.list, v'.list, k, f);
  }

  lemma ClearIsEmpty(v: VMap, f: nat)
    requires Housed(v) && f / 64 < |v.words| && f % 64 == 63 && !v.words[f / 64][63]
    ensures forall j | 0 <= j < |v.list| :: v.list[j].slot != f && (v.list[j].slot == 0 ==> f != 63)
  {
  }

  lemma WithOneHoused(v: VMap, v': VMap, k: nat, f: nat)
    requires Housed(v) && k < |v.list| && v'.limit == v.limit && |v'.words| == |v.words|
    requires f / 64 < v.limit && f % 64 == 63 && f / 64 < |v'.words| && v'.words[f / 64][63]
    requires forall i | 0 <= i < |v.words| :: v.words[i][63] ==> v'.words[i][63]
    requires |v'.list| == |v.list| + 1 && v'.list[k + 1].slot == f
    requires forall j | 0 <= j < |v'.list| && j != k + 1 :: v'.list[j] == v.list[if j <= k then j else j - 1]
    ensures Housed(v')
  {
  }

  lemma WithOneApart(list: seq<Range>, list': seq<Range>, k: nat, f: nat)
    requires Apart(list) && k < |list| && |list'| == |list| + 1 && list'[k + 1].slot == f && f % 64 == 63
    requires forall j | 0 <= j < |list'| && j != k + 1 :: list'[j] == list[if j <= k then j else j - 1]
    requires forall j | 0 <= j < |list| :: list[j].slot != f && (list[j].slot == 0 ==> f != 63)
    ensures Apart(list')
  {
    forall i, j | 0 <= i < j < |list'| ensures list'[i].slot != list'[j].slot {
      if i != k + 1 && j != k + 1 {
        assert list[if i <= k then i else i - 1].slot != list[if j <= k then j else j - 1].slot;
      }
    }
    forall i, j | 0 <= i < |list'| && 0 <= j < |list'| && list'[i].slot == 0 ensures list'[j].slot != 63 {
      assert list[if i <= k then i else i - 1].slot == 0;
    }
  }

  /** Giving back the slot of a later entry clears bit 3 of some word: no top
      bit, and so neither the slot nor any other becomes available. */
  lemma GivenBackKeepsTops(words: seq<Word64>, slot: nat)
    requires slot / 16 < |words| && slot % 64 == 63
    ensures |GivenBack(words, slot)| == |words|
    ensures forall i | 0 <= i < |words| :: GivenBack(words, slot)[i][63] == words[i][63]
  {
    assert 4 * slot % 64 == 60;
  }

  lemma MergedSlots(v: VMap, k: nat)
    requires SlotSafe(v) && v.HasNext(k)
    ensures v.Shaped() && SlotStep(v, Merged(v, k)) && Budget(Merged(v, k).words, v.limit) == Budget(v.words, v.limit)
  {
    hide SlotsSafe, GivenBack, Budget, VMap.Shaped;
    SafeShape(v);
    MergedSafe(v, k);
    BudgetSame(v.words, Merged(v, k).words, v.limit);
  }

  lemma MergedSafe(v: VMap, k: nat)
    requires SlotSafe(v) && v.HasNext(k)
    ensures var m := Merged(v, k);
            && v.limit <= |v.words| && SlotsSafe(m) && FirstKept(m.list) == FirstKept(v.list) && m.limit == v.limit
            && |m.list| == |v.list| - 1 && |m.words| == |v.words|
            && forall i | 0 <= i < |v.words| :: m.words[i][63] == v.words[i][63]
  {
    hide GivenBack, Apart;
    var m := Merged(v, k);
    SlotInPlace(v, k + 1);
    GivenBackKeepsTops(v.words, v.list[k + 1].slot);
    forall j | 0 <= j < |m.list| ensures m.list[j].slot == v.list[if j < k + 1 then j else j + 1].slot {
    }
    LessOneHoused(v, m, k + 1);
    LessOneApart(v.list, m.list, k + 1);
  }

  /** Only the first node can live in slot 0. */
  lemma SlotInPlace(v: VMap, k: nat)
    requires Housed(v) && k < |v.list|
    ensures v.list[k].slot / 16 < |v.words| && (v.list[k].slot == 0 || v.list[k].slot % 64 == 63)
    ensures v.list[k].slot == 0 ==> k == 0 && v.words[0][63]
  {
  }

  /** Entry k is gone, and the others are where they were. */
  lemma LessOneHoused(v: VMap, v': VMap, k: nat)
    requires Housed(v) && k < |v.list| && v'.limit == v.limit && |v'.words| == |v.words| && |v'.list| == |v.list| - 1
    requires forall i | 0 <= i < |v.words| :: v'.words[i][63] == v.words[i][63]
    requires forall j | 0 <= j < |v'.list| :: v'.list[j].slot == v.list[if j < k then j else j + 1].slot
    ensures Housed(v')
  {
  }

  lemma LessOneApart(list: seq<Range>, list': seq<Range>, k: nat)
    requires Apart(list) && k < |list| && |list'| == |list| - 1
    requires forall j | 0 <= j < |list'| :: list'[j].slot == list[if j < k then j else j + 1].slot
    ensures Apart(list')
  {
    forall i, j | 0 <= i < j < |list'| ensures list'[i].slot != list'[j].slot {
      assert list[if i < k then i else i + 1].slot != list[if j < k then j else j + 1].slot;
    }
    forall i, j | 0 <= i < |list'| && 0 <= j < |list'| && list'[i].slot == 0 ensures list'[j].slot != 63 {
      assert list[if i < k then i else i + 1].slot == 0;
    }
  }

  /** The slot of a freed node comes back only if it is the one of the start. */
  lemma UnlinkedSlots(v: VMap, k: nat)
    requires SlotSafe(v) && k < |v.list|
    ensures v.Shaped() && SlotStep(v, Unlinked(v, k))
  {
    hide SlotsSafe, GivenBack, Budget, VMap.Shaped;
    SafeShape(v);
    UnlinkedSafe(v, k);
    var u := Unlinked(v, k);
    if v.list[k].slot == 0 {
      BudgetRegained(v.words, u.words, v.limit);
    } else {
      BudgetSame(v.words, u.words, v.limit);
    }
  }

  lemma UnlinkedSafe(v: VMap, k: nat)
    requires SlotSafe(v) && k < |v.list|
    ensures var u := Unlinked(v, k);
            && 0 < v.limit <= |v.words| && SlotsSafe(u) && u.limit == v.limit
            && |u.list| == |v.list| - 1 && |u.words| == |v.words|
            && (v.list[k].slot == 0 ==> k == 0 && FirstKept(u.list) == 0 && v.words[0][63])
            && (v.list[k].slot != 0 ==> FirstKept(u.list) <= FirstKept(v.list))
            && forall i | 0 <= i < |v.words| :: u.words[i][63] == if i == 0 && v.list[k].slot == 0 then false else v.words[i][63]
  {
    hide GivenBack;
    var u := Unlinked(v, k);
    if v.list[k].slot == 0 {
      ZeroGivenBack(v.words);
    } else {
      GivenBackKeepsTops(v.words, v.list[k].slot);
    }
    assert forall j | 0 <= j < |u.list| :: u.list[j].slot == v.list[if j < k then j else j + 1].slot;
  }

  /** The slot of the start is the only one whose bit is the one marked for it. */
  lemma ZeroGivenBack(words: seq<Word64>)
    requires |words| > 0
    ensures |GivenBack(words, 0)| == |words|
    ensures forall i | 0 <= i < |words| :: GivenBack(words, 0)[i][63] == if i == 0 then false else words[i][63]
  {
  }

  lemma {:induction false} BudgetRegained(words: seq<Word64>, words': seq<Word64>, n: nat)
    requires 0 < n <= |words| == |words'| && words[0][63]
    requires forall i | 0 <= i < n :: words'[i][63] == if i == 0 then false else words[i][63]
    ensures Budget(words', n) == Budget(words, n) + 1
  {
    if n > 1 {
      BudgetRegained(words, words', n - 1);
    }
  }

  /** Exactly the bit whose number, counted from the top of each word, is an
      eighth of the node's distance from the table in bytes comes to be clear. */
  ghost predicate ClearsFor(words: seq<Word64>, words': seq<Word64>, slot: nat) {
    |words'| == |words| &&
    forall i, j | 0 <= i < |words| && 0 <= j < 64 :: words'[i][j] <==> words[i][j] && 64 * i + (63 - j) != 32 * slot / 8
  }

  /** Exactly bit `slot`, counted from the bottom of each word, comes to be set. */
  ghost predicate SetsFor(words: seq<Word64>, words': seq<Word64>, slot: nat) {
    |words'| == |words| && forall i, j | 0 <= i < |words| && 0 <= j < 64 :: words'[i][j] <==> words[i][j] || 64 * i + j == slot
  }

  lemma GivenBackClears(words: seq<Word64>, slot: nat)
    requires slot / 16 < |words|
    ensures ClearsFor(words, GivenBack(words, slot), slot)
  {
    var n := 4 * slot;
    assert 32 * slot / 8 == n && slot / 16 == n / 64;
    forall i, j | 0 <= i < |words| && 0 <= j < 64
      ensures GivenBack(words, slot)[i][j] <==> words[i][j] && 64 * i + (63 - j) != n
    {
      OneNumber(i, 63 - j, n);
    }
  }

  lemma OneNumber(i: nat, j: nat, n: nat)
    requires j < 64
    ensures 64 * i + j == n <==> i == n / 64 && j == n % 64
  {
  }

  /** A join and a free clear the bit of the node that goes, an insertion sets
      that of the node that comes: by these two ways of counting. */
  lemma SlotBits(v: VMap, k: nat, base: nat, length: nat)
    requires v.Shaped() && k < |v.list|
    ensures v.HasNext(k) ==> ClearsFor(v.words, Merged(v, k).words, v.list[k + 1].slot)
    ensures ClearsFor(v.words, Unlinked(v, k).words, v.list[k].slot)
    ensures var o := Insert(v, k, base, length);
            if o.result == 0 then |o.v.list| > k + 1 && SetsFor(v.words, o.v.words, o.v.list[k + 1].slot) else o.v == v
  {
    hide GivenBack, ClearsFor, FrameBitmap.Taken, FrameBitmap.Picked, FrameBitmap.CanTake;
    SlotFits(v, k);
    GivenBackClears(v.words, v.list[k].slot);
    if v.HasNext(k) {
      SlotFits(v, k + 1);
      GivenBackClears(v.words, v.list[k + 1].slot);
    }
    if v.HasSlot() {
      TakenSets(v.words, v.limit);
    }
  }

  lemma SlotFits(v: VMap, k: nat)
    requires v.Shaped() && k < |v.list|
    ensures v.list[k].slot / 16 < |v.words|
  {
  }

  lemma TakenSets(words: seq<Word64>, limit: nat)
    requires limit <= |words| && FrameBitmap.CanTake(words[..limit])
    ensures SetsFor(words, FrameBitmap.Taken(words[..limit]) + words[limit..], FrameBitmap.Picked(words[..limit]))
  {
    hide FrameBitmap.Taken, FrameBitmap.Picked, FrameBitmap.CanTake;
    var ws := words[..limit];
    var f := FrameBitmap.Picked(ws);
    FrameBitmap.TakeIs(ws);
    forall i, j | 0 <= i < |words| && 0 <= j < 64
      ensures (FrameBitmap.Taken(ws) + words[limit..])[i][j] <==> words[i][j] || 64 * i + j == f
    {
      OneNumber(i, j, 64 * i + j);
      OneNumber(i, j, f);
      if i < limit {
        assert FrameBitmap.IsMarked(FrameBitmap.Taken(ws), 64 * i + j) <==> FrameBitmap.IsMarked(ws, 64 * i + j) || 64 * i + j == f;
      }
    }
  }

  /** Entries may change, but not their slots. */
  lemma SameSlots(v: VMap, v': VMap)
    requires SlotSafe(v) && v'.words == v.words && v'.limit == v.limit && |v'.list| == |v.list|
    requires forall k | 0 <= k < |v.list| :: v'.list[k].slot == v.list[k].slot
    ensures SlotStep(v, v')
  {
  }

  lemma ExtendSlots(v: VMap, k: nat, bytes: nat)
    requires SlotSafe(v) && k < |v.list|
    ensures SlotStep(v, Extended(v, k, bytes))
  {
    var g := Grown(v, k, bytes);
    SameSlots(v, g);
    if g.HasNext(k) && g.list[k].End() == g.list[k + 1].base {
      MergedSlots(g, k);
    }
  }

  lemma PlaceSlots(v: VMap, k: nat, frame: nat, bytes: nat)
    requires SlotSafe(v) && k < |v.list|
    ensures SlotStep(v, Place(v, k, frame, bytes).v)
  {
    if v.list[k].End() == frame {
      ExtendSlots(v, k, bytes);
    } else if v.HasNext(k) && v.list[k + 1].base == frame + bytes {
      SameSlots(v, Lowered(v, k + 1, bytes));
    } else {
      InsertSlots(v, k, frame, bytes);
    }
  }

  lemma Steps(v: VMap, v1: VMap, v2: VMap)
    requires SlotStep(v, v1) && SlotStep(v1, v2)
    ensures SlotStep(v, v2)
  {
    hide SlotSafe;
  }

  lemma CutSlots(v: VMap, k: nat, left: nat, base: nat, rest: nat)
    requires SlotSafe(v) && k < |v.list|
    ensures SlotStep(v, Insert(Cut(v, k, left), k, base, rest).v)
  {
    var cut := Cut(v, k, left);
    SameSlots(v, cut);
    hide SlotSafe, VMap.Shaped, Insert, Cut;
    InsertSlots(cut, k, base, rest);
    Steps(v, cut, Insert(cut, k, base, rest).v);
  }

  lemma SafeShape(v: VMap)
    requires SlotSafe(v)
    ensures v.Shaped() && v.list != [] && |v.list| > 0
  {
  }

  lemma SplitSlots(v: VMap, k: nat, frame: nat, bytes: nat)
    requires SlotSafe(v) && k < |v.list|
    ensures SlotStep(v, Split(v, k, frame, bytes).v)
  {
    hide SlotSafe, SlotStep, Insert, Wrap, VMap.Shaped, Cut;
    SafeShape(v);
    var left := Wrap(frame - v.list[k].base);
    CutSlots(v, k, left, Wrap(frame + bytes), Wrap(v.list[k].length - left - bytes));
  }

  // ---------------------------------------------------------------------------
  // Runs
  // ---------------------------------------------------------------------------

  datatype Call =
    | Lowest
    | At(frame: nat)
    | After(base: nat)
    | BeyondEx(base: nat, jump: nat)
    | MultipleAt(frame: nat, count: nat)
    | MultipleAfter(base: nat, count: nat)
    | MultipleBeyondEx(base: nat, count: nat, jump: nat)
    | MultipleEx(count: nat)
    | FreeOne(frame: nat)
    | FreeMany(frame: nat, count: nat)

  function Do(v: VMap, c: Call): VMap
    requires v.Shaped() && |v.list| > 0
  {
    match c
    case Lowest => Alloc(v).v
    case At(f) => AllocAt(v, f).v
    case After(b) => AllocAfter(v, b).v
    case BeyondEx(b, j) => AllocBeyondEx(v, b, j).v
    case MultipleAt(f, n) => AllocMultipleAt(v, f, n).v
    case MultipleAfter(b, n) => AllocMultipleAfter(v, b, n).v
    case MultipleBeyondEx(b, n, j) => AllocMultipleBeyondEx(v, b, n, j).v
    case MultipleEx(n) => AllocMultipleEx(v, n, 0).v
    case FreeOne(f) => Free(v, f).v
    case FreeMany(f, n) => VirtualRanges.FreeMany(v, f, n)
  }

  /** Addresses are those of pages, lengths whole pages. page_virtual_alloc, which
      adds one byte, is not among the calls that keep this. */
  predicate Paged(list: seq<Range>) { forall k | 0 <= k < |list| :: WholePages(list[k]) }

  predicate WholePages(r: Range) { r.base % 0x1000 == 0 && r.length % 0x1000 == 0 }

  predicate PagedCall(c: Call) {
    match c
    case Lowest => false
    case At(f) => f % 0x1000 == 0
    case After(b) => b % 0x1000 == 0
    case BeyondEx(b, _) => b % 0x1000 == 0
    case MultipleAt(f, _) => f % 0x1000 == 0
    case MultipleAfter(b, _) => b % 0x1000 == 0
    case MultipleBeyondEx(b, _, _) => b % 0x1000 == 0
    case MultipleEx(_) => true
    case FreeOne(f) => f % 0x1000 == 0
    case FreeMany(f, _) => f % 0x1000 == 0
  }

  lemma BeyondSlots(v: VMap, base: nat, jump: nat, bytes: nat, reach: nat)
    requires SlotSafe(v)
    ensures SlotStep(v, BeyondFrom(v, base, jump, bytes, reach).v)
  {
    hide Hop, Find, FirstCandidate, SlotsSafe, SlotStep, VMap.Shaped, Insert, Lowered;
    SafeShape(v);
    var r := Hop(v.list, Find(v.list, base, 0), FirstCandidate(v.list, base, jump), jump, reach);
    PlacedSlots(v, r.0, r.1, bytes);
  }

  lemma PlacedSlots(v: VMap, k: nat, frame: nat, bytes: nat)
    requires SlotSafe(v) && k < |v.list|
    ensures SlotStep(v, Insert(v, k, frame, bytes).v)
    ensures v.HasNext(k) && v.list[k + 1].base == frame + bytes ==> SlotStep(v, Lowered(v, k + 1, bytes))
  {
    InsertSlots(v, k, frame, bytes);
    if v.HasNext(k) && v.list[k + 1].base == frame + bytes {
      SameSlots(v, Lowered(v, k + 1, bytes));
    }
    hide SlotSafe, SlotStep;
  }

  lemma MultipleExSlots(v: VMap, count: nat)
    requires SlotSafe(v)
    ensures SlotStep(v, AllocMultipleEx(v, count, 0).v)
  {
    if count == 0 {
      SameSlots(v, v);
    } else {
      var k := RoomyEntry(v.list, count * 0x1000, 0);
      var g := Grown(v, k, count * 0x1000);
      SameSlots(v, g);
      if v.HasNext(k) {
        MergedSlots(g, k);
        Steps(v, g, Merged(g, k));
      }
    }
  }

  lemma AtSlots(v: VMap, frame: nat, count: nat)
    requires SlotSafe(v)
    ensures SlotStep(v, AllocAt(v, frame).v) && SlotStep(v, AllocMultipleAt(v, frame, count).v)
  {
    assert v.Shaped() && v.list != [];
    SameSlots(v, v);
    hide SlotSafe, SlotStep;
    PlaceSlots(v, Find(v.list, frame, 0), frame, PAGE);
    PlaceSlots(v, Find(v.list, frame, 0), frame, count * 0x1000);
  }

  lemma AfterSlots(v: VMap, base: nat, count: nat)
    requires SlotSafe(v)
    ensures SlotStep(v, AllocAfter(v, base).v) && SlotStep(v, AllocMultipleAfter(v, base, count).v)
  {
    var k := Find(v.list, base, 0);
    assert v.Shaped() && v.list != [];
    SameSlots(v, v);
    hide SlotSafe, SlotStep;
    ExtendSlots(v, k, PAGE);
    ExtendSlots(v, k, count * 0x1000);
    PlaceSlots(v, k, base, PAGE);
    PlaceSlots(v, k, base, count * 0x1000);
  }

  lemma FreeSlots(v: VMap, frame: nat, count: nat)
    requires SlotSafe(v)
    ensures SlotStep(v, Free(v, frame).v) && SlotStep(v, FreeRun(v, frame, count))
  {
    hide SlotSafe, SlotStep, Split, Unlinked, Wrap;
    SafeShape(v);
    var k := Find(v.list, frame, 0);
    SameSlots(v, v);
    UnlinkedSlots(v, k);
    SplitSlots(v, k, frame, PAGE);
    SplitSlots(v, k, frame, count * 0x1000);
  }

  /** What page_virtual_free_multiple does before its loop. */
  function FreedFirst(v: VMap, frame: nat, count: nat): VMap
    requires v.Shaped() && |v.list| > 0
  {
    if count == 1 then Free(v, frame).v else v
  }

  lemma FreeManySlots(v: VMap, frame: nat, count: nat)
    requires SlotSafe(v)
    ensures v.Shaped() && |v.list| > 0 && SlotStep(v, FreedFirst(v, frame, count))
    ensures SlotStep(FreedFirst(v, frame, count), VirtualRanges.FreeMany(v, frame, count))
    ensures SlotStep(v, VirtualRanges.FreeMany(v, frame, count))
  {
    hide SlotsSafe, SlotStep, FreeRun, Free;
    SafeShape(v);
    SameSlots(v, v);
    FreeSlots(v, frame, count);
    var v1 := FreedFirst(v, frame, count);
    StepSafe(v, v1);
    if v1.list == [] {
      NoSlots(v1);
    } else {
      SafeShape(v1);
      SameSlots(v1, v1);
      FreeSlots(v1, frame, count);
    }
    Steps(v, v1, VirtualRanges.FreeMany(v, frame, count));
  }

  lemma StepSafe(v: VMap, v': VMap)
    requires SlotStep(v, v')
    ensures SlotsSafe(v') && v'.Shaped() && v'.limit == v.limit && |v'.words| == |v.words|
  {
  }

  lemma NoSlots(v: VMap)
    requires SlotsSafe(v) && v.list == []
    ensures SlotStep(v, v)
  {
  }

  /** Every call of the list functions. */
  lemma DoSlots(v: VMap, c: Call)
    requires SlotSafe(v)
    ensures v.Shaped() && |v.list| > 0 && SlotStep(v, Do(v, c))
  {
    hide SlotSafe, SlotStep, Free, FreeRun, Place, Extended, BeyondFrom, VMap.Shaped, Find, RoomyEntry;
    SafeShape(v);
    SameSlots(v, v);
    match c
    case Lowest => ExtendSlots(v, 0, 1);
    case At(f) => AtSlots(v, f, 0);
    case After(b) => AfterSlots(v, b, 1);
    case BeyondEx(b, j) => if j == 0 { AfterSlots(v, b, 1); } else { BeyondSlots(v, b, j, PAGE, 1); }
    case MultipleAt(f, n) => AtSlots(v, f, n);
    case MultipleAfter(b, n) => AfterSlots(v, b, n);
    case MultipleBeyondEx(b, n, j) =>
      if j == 0 { AfterSlots(v, b, n); } else if n > 0 { BeyondSlots(v, b, j, n * 0x1000, n * 0x1000); }
    case MultipleEx(n) => MultipleExSlots(v, n);
    case FreeOne(f) => FreeSlots(v, f, 1);
    case FreeMany(f, n) => FreeManySlots(v, f, n);
  }

  // Lengths stay whole pages

  lemma InsertPaged(v: VMap, k: nat, base: nat, length: nat)
    requires v.Shaped() && k < |v.list| && Paged(v.list) && base % 0x1000 == 0 && length % 0x1000 == 0
    ensures Paged(Insert(v, k, base, length).v.list)
  {
  }

  lemma ExtendPaged(v: VMap, k: nat, bytes: nat)
    requires v.Shaped() && k < |v.list| && Paged(v.list) && bytes % 0x1000 == 0
    ensures Paged(Grown(v, k, bytes).list) && Paged(Extended(v, k, bytes).list)
    ensures v.HasNext(k) ==> Paged(Merged(Grown(v, k, bytes), k).list)
  {
    hide WholePages;
    var g := Grown(v, k, bytes);
    Longer(v.list[k], bytes);
    if v.HasNext(k) {
      LengthPaged(v.list[k + 1]);
      Longer(g.list[k], g.list[k + 1].length);
    }
  }

  lemma Longer(r: Range, bytes: nat)
    requires WholePages(r) && bytes % 0x1000 == 0
    ensures WholePages(r.(length := r.length + bytes))
  {
    SumPaged(r.length, bytes);
  }

  lemma LengthPaged(r: Range)
    requires WholePages(r)
    ensures r.length % 0x1000 == 0
  {
  }

  lemma PlacePaged(v: VMap, k: nat, frame: nat, bytes: nat)
    requires v.Shaped() && k < |v.list| && Paged(v.list) && frame % 0x1000 == 0 && bytes % 0x1000 == 0
    ensures Paged(Place(v, k, frame, bytes).v.list)
  {
    ExtendPaged(v, k, bytes);
    InsertPaged(v, k, frame, bytes);
  }

  lemma SplitPaged(v: VMap, k: nat, frame: nat, bytes: nat)
    requires v.Shaped() && k < |v.list| && Paged(v.list) && frame % 0x1000 == 0 && bytes % 0x1000 == 0
    ensures Paged(Split(v, k, frame, bytes).v.list)
  {
    var left := Wrap(frame - v.list[k].base);
    CutPaged(v.list[k], frame, bytes);
    hide Wrap;
    assert Paged(Cut(v, k, left).list);
    hide Cut, Paged, VMap.Shaped;
    InsertPaged(Cut(v, k, left), k, Wrap(frame + bytes), Wrap(v.list[k].length - left - bytes));
  }

  lemma CutPaged(r: Range, frame: nat, bytes: nat)
    requires r.base % 0x1000 == 0 && r.length % 0x1000 == 0 && frame % 0x1000 == 0 && bytes % 0x1000 == 0
    ensures var left := Wrap(frame - r.base);
            left % 0x1000 == 0 && Wrap(frame + bytes) % 0x1000 == 0 && Wrap(r.length - left - bytes) % 0x1000 == 0
  {
    hide Wrap;
    var left := Wrap(frame - r.base);
    SumPaged(frame, r.base);
    WrapPaged(frame - r.base);
    SumPaged(frame, bytes);
    WrapPaged(frame + bytes);
    SumPaged(r.length, left);
    SumPaged(r.length - left, bytes);
    WrapPaged(r.length - left - bytes);
  }

  lemma SumPaged(a: int, b: int)
    requires a % 0x1000 == 0 && b % 0x1000 == 0
    ensures (a + b) % 0x1000 == 0 && (a - b) % 0x1000 == 0
  {
    var x, y := a / 0x1000, b / 0x1000;
    assert a + b == 0x1000 * (x + y) && a - b == 0x1000 * (x - y);
  }

  lemma WrapPaged(x: int)
    requires x % 0x1000 == 0
    ensures Wrap(x) % 0x1000 == 0
  {
    var m := x / 0x1000;
    var q, r := m / 0x10_0000_0000_0000, m % 0x10_0000_0000_0000;
    assert x == 0x1_0000_0000_0000_0000 * q + 0x1000 * r;
    WrapIs(q, 0x1000 * r);
  }

  lemma WrapIs(q: int, r: nat)
    requires r < WORD
    ensures (0x1_0000_0000_0000_0000 * q + r) % 0x1_0000_0000_0000_0000 == r
  {
  }

  lemma JumpPaged(r: Range, jump: nat)
    requires r.base % 0x1000 == 0 && r.length % 0x1000 == 0
    ensures (r.End() + jump * 0x1000) % 0x1000 == 0
  {
  }

  lemma {:induction false} HopPaged(list: seq<Range>, k: nat, frame: nat, jump: nat, reach: nat)
    requires Paged(list) && k < |list| && frame % 0x1000 == 0
    ensures Hop(list, k, frame, jump, reach).1 % 0x1000 == 0
    decreases |list| - k
  {
    if k + 1 < |list| && list[k + 1].base < frame + reach {
      JumpPaged(list[k + 1], jump);
      HopPaged(list, k + 1, list[k + 1].End() + jump * 0x1000, jump, reach);
    }
  }

  lemma BeyondPaged(v: VMap, base: nat, jump: nat, bytes: nat, reach: nat)
    requires v.Shaped() && v.list != [] && Paged(v.list) && base % 0x1000 == 0 && bytes % 0x1000 == 0
    ensures Paged(BeyondFrom(v, base, jump, bytes, reach).v.list)
  {
    var k := Find(v.list, base, 0);
    JumpPaged(v.list[k], jump);
    assert FirstCandidate(v.list, base, jump) % 0x1000 == 0;
    hide Paged, VMap.Shaped, FirstCandidate, Find;
    HopPaged(v.list, k, FirstCandidate(v.list, base, jump), jump, reach);
    var r := Hop(v.list, k, FirstCandidate(v.list, base, jump), jump, reach);
    hide Hop, Find, FirstCandidate;
    PlacedPaged(v, r.0, r.1, bytes);
  }

  lemma PlacedPaged(v: VMap, k: nat, frame: nat, bytes: nat)
    requires v.Shaped() && k < |v.list| && Paged(v.list) && frame % 0x1000 == 0 && bytes % 0x1000 == 0
    ensures Paged(Insert(v, k, frame, bytes).v.list)
    ensures v.HasNext(k) && v.list[k + 1].base == frame + bytes ==> Paged(Lowered(v, k + 1, bytes).list)
  {
    InsertPaged(v, k, frame, bytes);
  }

  lemma DoPaged(v: VMap, c: Call)
    requires v.Shaped() && v.list != [] && Paged(v.list) && PagedCall(c)
    ensures Paged(Do(v, c).list)
  {
    hide Paged, VMap.Shaped;
    match c
    case At(f) => PlacePaged(v, Find(v.list, f, 0), f, PAGE);
    case After(b) => AfterPaged(v, b, 1);
    case BeyondEx(b, j) => if j == 0 { AfterPaged(v, b, 1); } else { BeyondPaged(v, b, j, PAGE, 1); }
    case MultipleAt(f, n) => PlacePaged(v, Find(v.list, f, 0), f, n * 0x1000);
    case MultipleAfter(b, n) => AfterPaged(v, b, n);
    case MultipleBeyondEx(b, n, j) =>
      if j == 0 { AfterPaged(v, b, n); } else if n > 0 { BeyondPaged(v, b, j, n * 0x1000, n * 0x1000); }
    case MultipleEx(n) => ExtendPaged(v, RoomyEntry(v.list, n * 0x1000, 0), n * 0x1000);
    case FreeOne(f) => FreePaged(v, f, 1);
    case FreeMany(f, n) => FreeManyPaged(v, f, n);
  }

  lemma AfterPaged(v: VMap, base: nat, count: nat)
    requires v.Shaped() && v.list != [] && Paged(v.list) && base % 0x1000 == 0
    ensures Paged(AllocAfter(v, base).v.list) && Paged(AllocMultipleAfter(v, base, count).v.list)
  {
    hide Paged, VMap.Shaped;
    var k := Find(v.list, base, 0);
    ExtendPaged(v, k, PAGE);
    ExtendPaged(v, k, count * 0x1000);
    PlacePaged(v, k, base, PAGE);
    PlacePaged(v, k, base, count * 0x1000);
  }

  lemma FreePaged(v: VMap, frame: nat, count: nat)
    requires v.Shaped() && v.list != [] && Paged(v.list) && frame % 0x1000 == 0
    ensures Paged(Free(v, frame).v.list) && Paged(FreeRun(v, frame, count).list)
  {
    hide Wrap, Insert, Cut;
    var k := Find(v.list, frame, 0);
    assert v.list[k].length != 1;
    hide Paged, VMap.Shaped;
    SplitPaged(v, k, frame, PAGE);
    SplitPaged(v, k, frame, count * 0x1000);
  }

  lemma FreeManyPaged(v: VMap, frame: nat, count: nat)
    requires v.Shaped() && v.list != [] && Paged(v.list) && frame % 0x1000 == 0
    ensures Paged(VirtualRanges.FreeMany(v, frame, count).list)
  {
    hide Paged, VMap.Shaped, Free, FreeRun;
    FreePaged(v, frame, count);
    if count == 1 && Free(v, frame).v.list != [] {
      FreePaged(Free(v, frame).v, frame, count);
    }
  }

  function RunCalls(v: VMap, cs: seq<Call>): VMap
    requires v.Shaped() && |v.list| > 0
  {
    if cs == [] then v
    else
      var p := RunCalls(v, cs[..|cs| - 1]);
      if p.Shaped() && |p.list| > 0 then Do(p, cs[|cs| - 1]) else p
  }

  /** How many insertions a call makes. Only a free of one page through
      page_virtual_free_multiple can make two. */
  function Insertions(v: VMap, c: Call): nat
    requires v.Shaped() && |v.list| > 0
  {
    if c.FreeMany? then Gained(v, FreedFirst(v, c.frame, c.count)) + Gained(FreedFirst(v, c.frame, c.count), Do(v, c))
    else Gained(v, Do(v, c))
  }

  function Gained(v: VMap, v': VMap): nat { if |v'.list| > |v.list| then 1 else 0 }

  function RunInsertions(v: VMap, cs: seq<Call>): nat
    requires v.Shaped() && |v.list| > 0
  {
    if cs == [] then 0
    else
      var p := RunCalls(v, cs[..|cs| - 1]);
      RunInsertions(v, cs[..|cs| - 1]) + if p.Shaped() && |p.list| > 0 then Insertions(p, cs[|cs| - 1]) else 0
  }

  lemma StepPays(v: VMap, v': VMap)
    requires SlotStep(v, v')
    ensures v.limit <= |v.words| && Gained(v, v') + Potential(v') <= Potential(v)
  {
    hide Apart, Budget;
  }

  lemma CallPays(v: VMap, c: Call)
    requires SlotSafe(v)
    ensures v.Shaped() && |v.list| > 0 && v.limit <= |v.words| && Do(v, c).limit <= |Do(v, c).words|
    ensures Insertions(v, c) + Potential(Do(v, c)) <= Potential(v)
  {
    hide SlotSafe, SlotStep, Potential, Gained, FreedFirst;
    DoSlots(v, c);
    StepPays(v, Do(v, c));
    LimitKept(v, Do(v, c));
    if c.FreeMany? {
      FreeManySlots(v, c.frame, c.count);
      StepPays(v, FreedFirst(v, c.frame, c.count));
      StepPays(FreedFirst(v, c.frame, c.count), Do(v, c));
    }
  }

  lemma LimitKept(v: VMap, v': VMap)
    requires SlotStep(v, v')
    ensures v'.limit <= |v'.words|
  {
  }

  /** Over every run: no two nodes share a slot, the list never gains more entries
      than there were words to insert into, however many entries were joined or
      freed, and each insertion lowers the potential. */
  lemma {:induction false} RunKeepsSlots(v: VMap, cs: seq<Call>)
    requires SlotSafe(v)
    ensures v.Shaped() && |v.list| > 0 && SlotStep(v, RunCalls(v, cs))
    ensures v.limit <= |v.words| && RunCalls(v, cs).limit <= |RunCalls(v, cs).words|
    ensures RunInsertions(v, cs) + Potential(RunCalls(v, cs)) <= Potential(v)
  {
    hide SlotsSafe, VMap.Shaped, Do, SlotStep, Insertions, Potential;
    SafeShape(v);
    if cs == [] {
      SameSlots(v, v);
      LimitKept(v, v);
    } else {
      var p := RunCalls(v, cs[..|cs| - 1]);
      RunKeepsSlots(v, cs[..|cs| - 1]);
      StepSafe(v, p);
      if p.list != [] {
        DoSlots(p, cs[|cs| - 1]);
        CallPays(p, cs[|cs| - 1]);
        Steps(v, p, RunCalls(v, cs));
        LimitKept(v, RunCalls(v, cs));
      }
    }
  }

  // Without page_virtual_alloc, on page addresses

  lemma FreeKeepsFirst(v: VMap, frame: nat, count: nat)
    requires v.Shaped() && v.list != [] && Paged(v.list)
    ensures Free(v, frame).v.list != [] && Free(v, frame).v.list[0].slot == v.list[0].slot
    ensures FreeRun(v, frame, count).list != [] && FreeRun(v, frame, count).list[0].slot == v.list[0].slot
  {
    hide Wrap;
    var k := Find(v.list, frame, 0);
    assert v.list[k].length != 1;
  }

  /** v' has the first node of v. */
  predicate SameFirst(v: VMap, v': VMap)
    requires v.list != []
  {
    v'.list != [] && v'.list[0].slot == v.list[0].slot
  }

  lemma PiecesKeepFirst(v: VMap, k: nat, frame: nat, bytes: nat)
    requires v.Shaped() && k < |v.list|
    ensures SameFirst(v, Grown(v, k, bytes)) && SameFirst(v, Extended(v, k, bytes)) && SameFirst(v, Insert(v, k, frame, bytes).v)
    ensures v.HasNext(k) ==> SameFirst(v, Merged(Grown(v, k, bytes), k))
    ensures v.HasNext(k) && bytes <= v.list[k + 1].base ==> SameFirst(v, Lowered(v, k + 1, bytes))
    ensures SameFirst(v, Place(v, k, frame, bytes).v)
  {
  }

  lemma AllocKeepsFirst(v: VMap, c: Call)
    requires v.Shaped() && v.list != [] && !c.FreeOne? && !c.FreeMany?
    ensures SameFirst(v, Do(v, c))
  {
    hide Find, RoomyEntry, Hop, FirstCandidate, Wrap, Extended, Place, Insert, Lowered, Merged, Grown, VMap.Shaped;
    match c
    case Lowest => PiecesKeepFirst(v, 0, 0, 1);
    case At(f) => PiecesKeepFirst(v, Find(v.list, f, 0), f, PAGE);
    case After(b) => PiecesKeepFirst(v, Find(v.list, b, 0), b, PAGE);
    case BeyondEx(b, j) =>
      PiecesKeepFirst(v, Find(v.list, b, 0), b, PAGE);
      BeyondKeepsFirst(v, b, j, PAGE, 1);
    case MultipleAt(f, n) => PiecesKeepFirst(v, Find(v.list, f, 0), f, n * 0x1000);
    case MultipleAfter(b, n) => PiecesKeepFirst(v, Find(v.list, b, 0), b, n * 0x1000);
    case MultipleBeyondEx(b, n, j) =>
      PiecesKeepFirst(v, Find(v.list, b, 0), b, n * 0x1000);
      BeyondKeepsFirst(v, b, j, n * 0x1000, n * 0x1000);
    case MultipleEx(n) => PiecesKeepFirst(v, RoomyEntry(v.list, n * 0x1000, 0), 0, n * 0x1000);
  }

  lemma BeyondKeepsFirst(v: VMap, base: nat, jump: nat, bytes: nat, reach: nat)
    requires v.Shaped() && v.list != []
    ensures SameFirst(v, BeyondFrom(v, base, jump, bytes, reach).v)
  {
    hide Find, Hop, FirstCandidate, Insert, Lowered, VMap.Shaped, SameFirst;
    var r := Hop(v.list, Find(v.list, base, 0), FirstCandidate(v.list, base, jump), jump, reach);
    PiecesKeepFirst(v, r.0, r.1, bytes);
  }

  lemma DoKeepsFirst(v: VMap, c: Call)
    requires v.Shaped() && v.list != [] && Paged(v.list) && PagedCall(c)
    ensures SameFirst(v, Do(v, c))
  {
    hide Paged, Free, FreeRun, VMap.Shaped;
    match c
    case FreeOne(f) => FreeKeepsFirst(v, f, 1);
    case FreeMany(f, n) =>
      FreeKeepsFirst(v, f, n);
      if n == 1 {
        FreePaged(v, f, 1);
        FreeKeepsFirst(Free(v, f).v, f, 1);
      }
    case _ => AllocKeepsFirst(v, c);
  }

  /** Then lengths stay whole pages, the free functions never see the length 1
      that unlinks an entry, and the list keeps its first node. */
  lemma {:induction false} RunKeepsPages(v: VMap, cs: seq<Call>)
    requires SlotSafe(v) && Paged(v.list) && forall i | 0 <= i < |cs| :: PagedCall(cs[i])
    ensures v.Shaped() && |v.list| > 0 && SlotSafe(RunCalls(v, cs)) && Paged(RunCalls(v, cs).list)
    ensures RunCalls(v, cs).list[0].slot == v.list[0].slot
  {
    hide SlotsSafe, VMap.Shaped, Do, SlotStep, Paged, PagedCall;
    SafeShape(v);
    if cs != [] {
      var p, c := RunCalls(v, cs[..|cs| - 1]), cs[|cs| - 1];
      RunKeepsPages(v, cs[..|cs| - 1]);
      SafeShape(p);
      DoSlots(p, c);
      DoPaged(p, c);
      StepSafe(p, Do(p, c));
      DoKeepsFirst(p, c);
    }
  }

  /** The state that initialisation leaves: one entry in slot 0, two words
      scanned, bit 63 of the first set. */
  ghost predicate Initial(v: VMap) {
    v.Shaped() && v.limit == 2 && |v.list| == 1 && v.list[0].slot == 0 && v.words[0][63]
  }

  lemma InitialIsSafe(v: VMap)
    requires Initial(v)
    ensures SlotSafe(v) && v.limit <= |v.words| && Potential(v) <= 2
  {
    assert Budget(v.words, 2) == Budget(v.words, 1) + if v.words[1][63] then 0 else 1;
  }

  /** Whatever is called from there on: the list has at most two entries, and at
      most two insertions ever succeed; at most one as long as the first node is
      kept, and so at most one over every run on page addresses without
      page_virtual_alloc. */
  lemma InitialBudget(v: VMap, cs: seq<Call>)
    requires Initial(v)
    ensures var v' := RunCalls(v, cs);
            && |v'.list| <= 2 && RunInsertions(v, cs) + FirstKept(v'.list) <= 2
            && (Paged(v.list) && (forall i | 0 <= i < |cs| :: PagedCall(cs[i])) ==> RunInsertions(v, cs) <= 1)
  {
    hide Initial, SlotsSafe, RunCalls, RunInsertions, VMap.Shaped, Paged, PagedCall;
    InitialIsSafe(v);
    OneEntry(v);
    RunKeepsSlots(v, cs);
    if Paged(v.list) && forall i | 0 <= i < |cs| :: PagedCall(cs[i]) {
      RunKeepsPages(v, cs);
    }
  }

  lemma OneEntry(v: VMap)
    requires Initial(v)
    ensures |v.list| == 1 && v.list[0].slot == 0
  {
  }

  /** The first word marked, and all others clear. */
  function FirstMarked(): (ws: seq<Word64>)
    ensures |ws| == 8 && ws[0][63] && forall i, j | 0 <= i < 8 && 0 <= j < 64 && (i != 0 || j != 63) :: !ws[i][j]
  {
    var none: Word64 := seq(64, _ => false);
    var top: Word64 := none[63 := true];
    [top, none, none, none, none, none, none, none]
  }

  lemma PickedWord(ws: seq<Word64>, w: nat)
    requires w < |ws| && !ws[w][63] && !ws[w][0] && forall i | 0 <= i < w :: ws[i][63]
    ensures FrameBitmap.CanTake(ws) && FrameBitmap.Picked(ws) == 64 * w + 63
  {
    forall i | 0 <= i <= w ensures HasRoom(ws[i]) <==> i == w {
      RoomIff(ws[i]);
    }
    hide HasRoom;
    FrameBitmap.PickedIs(ws);
  }

  lemma FirstFree(v: VMap)
    requires v.list == [Range(0, 0x10000, 0x5000)] && v.limit == 2 && v.words == FirstMarked()
    ensures v.Shaped() && var v1 := Do(v, FreeOne(0x10000));
            && v1.list == [Range(0, 0x10000, 0), Range(127, 0x11000, 0x4000)] && v1.limit == 2 && |v1.words| == 8
            && v1.words[0] == v.words[0]
  {
    hide FrameBitmap.Picked, FrameBitmap.CanTake, HasRoom;
    var ws := v.words[..2];
    PickedWord(ws, 1);
    FrameBitmap.TakeIs(ws);
    assert Split(v, 0, 0x10000, PAGE).v.words == FrameBitmap.Taken(ws) + v.words[2..];
    assert Find(v.list, 0x10000, 0) == 0;
  }

  lemma OneByte(v: VMap)
    requires v.list == [Range(0, 0x10000, 0), Range(127, 0x11000, 0x4000)] && v.limit == 2 && |v.words| == 8
    ensures v.Shaped() && Do(v, Lowest) == v.(list := [Range(0, 0x10000, 1), Range(127, 0x11000, 0x4000)])
  {
  }

  lemma FirstNodeFreed(v: VMap)
    requires v.list == [Range(0, 0x10000, 1), Range(127, 0x11000, 0x4000)] && v.limit == 2 && |v.words| == 8
    requires v.words[0] == FirstMarked()[0]
    ensures v.Shaped() && var v3 := Do(v, FreeOne(0x10000));
            && v3.list == [Range(127, 0x11000, 0x4000)] && v3.limit == 2 && |v3.words| == 8
            && !v3.words[0][63] && !v3.words[0][0]
  {
    assert Find(v.list, 0x10000, 0) == 0;
    assert v.list[1..] == [Range(127, 0x11000, 0x4000)];
  }

  lemma SecondFree(v: VMap)
    requires v.list == [Range(127, 0x11000, 0x4000)] && v.limit == 2 && |v.words| == 8 && !v.words[0][63] && !v.words[0][0]
    ensures v.Shaped() && |Do(v, FreeOne(0x12000)).list| == 2
  {
    PickedWord(v.words[..2], 0);
    assert Find(v.list, 0x12000, 0) == 0;
  }

  lemma RunNone(v: VMap)
    requires v.Shaped() && |v.list| > 0
    ensures RunCalls(v, []) == v && RunInsertions(v, []) == 0
  {
  }

  lemma StartIsInitial(v: VMap)
    requires v.list == [Range(0, 0x10000, 0x5000)] && v.limit == 2 && v.words == FirstMarked()
    ensures Initial(v) && Paged(v.list) && v.Shaped()
  {
  }

  lemma RunOne(v: VMap, cs: seq<Call>, c: Call)
    requires v.Shaped() && |v.list| > 0 && RunCalls(v, cs).Shaped() && |RunCalls(v, cs).list| > 0
    ensures RunCalls(v, cs + [c]) == Do(RunCalls(v, cs), c)
    ensures RunInsertions(v, cs + [c]) == RunInsertions(v, cs) + Insertions(RunCalls(v, cs), c)
  {
    hide Do, Insertions;
    assert (cs + [c])[..|cs + [c]| - 1] == cs;
  }

  /** Freeing the first page, allocating one byte there, and freeing that unlinks
      the first node and gives its slot back, so that a second insertion
      succeeds. */
  lemma TwoInsertions()
    ensures var v := VMap([Range(0, 0x10000, 0x5000)], FirstMarked(), 2, 0);
            var cs := [FreeOne(0x10000), Lowest, FreeOne(0x10000), FreeOne(0x12000)];
            Initial(v) && Paged(v.list) && RunInsertions(v, cs) == 2
  {
    hide Do, RunCalls, RunInsertions, VMap.Shaped, Initial, Paged;
    var v := VMap([Range(0, 0x10000, 0x5000)], FirstMarked(), 2, 0);
    var c0, c1, c2, c3 := FreeOne(0x10000), Lowest, FreeOne(0x10000), FreeOne(0x12000);
    StartIsInitial(v);
    FirstFree(v);
    var v1 := Do(v, c0);
    OneByte(v1);
    var v2 := Do(v1, c1);
    FirstNodeFreed(v2);
    var v3 := Do(v2, c2);
    SecondFree(v3);
    RunNone(v);
    RunOne(v, [], c0);
    assert [] + [c0] == [c0] && [c0] + [c1] == [c0, c1] && [c0, c1] + [c2] == [c0, c1, c2]
        && [c0, c1, c2] + [c3] == [c0, c1, c2, c3];
    RunOne(v, [c0], c1);
    RunOne(v, [c0, c1], c2);
    RunOne(v, [c0, c1, c2], c3);
  }
}
