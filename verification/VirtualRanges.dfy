/**
 The allocator of virtual address ranges, as functions on the list it keeps.
 A range names the slot of the table its node lives in; addresses and lengths
 are in bytes. VirtualMap.dfy ties the linked nodes to these functions.
 */
module VirtualRanges {
  import opened Words
  import FrameBitmap

  const PAGE: nat := 0x1000

  datatype Range = Range(slot: nat, base: nat, length: nat) {
    function End(): nat { base + length }
  }

  /** The list in order, the words of the page that holds the slot bitmap, how
      many of them the insertion scan looks at, and the word that is read as the
      base of a successor where the link is null. */
  datatype VMap = VMap(list: seq<Range>, words: seq<Word64>, limit: nat, atNull: nat) {
    predicate HasNext(k: nat) { k + 1 < |list| }

    /** Enough words for every slot that an insertion can pick and a join then gives back. */
    predicate Shaped() {
      limit * 4 <= |words| && forall k | 0 <= k < |list| :: list[k].slot < 64 * limit
    }

    predicate HasSlot()
      requires limit <= |words|
    {
      FrameBitmap.CanTake(words[..limit])
    }
  }

  /** New state, result code and address. */
  datatype Outcome = Outcome(v: VMap, result: int, frame: nat)

  // ---------------------------------------------------------------------------
  // The shared pieces
  // ---------------------------------------------------------------------------

  /** FIND_ENTRY_WITH_TRIPREF. */
  function Find(list: seq<Range>, key: nat, k: nat): (r: nat)
    requires k < |list|
    ensures k <= r < |list|
    ensures forall j | k < j <= r :: list[j].base < key
    ensures r + 1 < |list| ==> list[r + 1].base >= key
    decreases |list| - k
  {
    if k + 1 < |list| && list[k + 1].base < key then Find(list, key, k + 1) else k
  }

  /** INSERT_VIRTUAL_MAP_ENTRY_AND_RETURN, after entry k. */
  function Insert(v: VMap, k: nat, base: nat, length: nat): (o: Outcome)
    requires v.Shaped() && k < |v.list|
    ensures o.v.Shaped() && o.v.list != []
  {
    if v.HasSlot() then
      var slot := FrameBitmap.Picked(v.words[..v.limit]);
      var words := FrameBitmap.Taken(v.words[..v.limit]) + v.words[v.limit..];
      FrameBitmap.TakeIs(v.words[..v.limit]);
      Outcome(VMap(v.list[..k + 1] + [Range(slot, base, length)] + v.list[k + 1..], words, v.limit, v.atNull), 0, base)
    else Outcome(v, -1, base)
  }

  /** The bit that giving a slot back clears: `(byte distance) >> 3` is four
      times the slot, and the bit counts from the top of its word. */
  function GivenBack(words: seq<Word64>, slot: nat): seq<Word64>
    requires slot / 16 < |words|
  {
    var w: Word64 := words[slot / 16][63 - 4 * slot % 64 := false];
    words[slot / 16 := w]
  }

  function Grown(v: VMap, k: nat, bytes: nat): VMap
    requires k < |v.list|
  {
    v.(list := v.list[k := v.list[k].(length := v.list[k].length + bytes)])
  }

  function Lowered(v: VMap, k: nat, bytes: nat): VMap
    requires k < |v.list| && bytes <= v.list[k].base
  {
    v.(list := v.list[k := v.list[k].(base := v.list[k].base - bytes, length := v.list[k].length + bytes)])
  }

  /** Merging entry k with its successor. */
  function Merged(v: VMap, k: nat): (m: VMap)
    requires v.Shaped() && v.HasNext(k)
    ensures m.Shaped() && m.list != []
  {
    v.(list := v.list[..k] + [v.list[k].(length := v.list[k].length + v.list[k + 1].length)] + v.list[k + 2..],
       words := GivenBack(v.words, v.list[k + 1].slot))
  }

  function Unlinked(v: VMap, k: nat): (u: VMap)
    requires v.Shaped() && k < |v.list|
    ensures u.Shaped()
  {
    v.(list := v.list[..k] + v.list[k + 1..], words := GivenBack(v.words, v.list[k].slot))
  }

  /** Growing entry k and joining it with its successor if they now touch. */
  function Extended(v: VMap, k: nat, bytes: nat): (e: VMap)
    requires v.Shaped() && k < |v.list|
    ensures e.Shaped() && e.list != []
  {
    var g := Grown(v, k, bytes);
    if g.HasNext(k) && g.list[k].End() == g.list[k + 1].base then Merged(g, k) else g
  }

  /** The three-way tail of the allocation functions: extend entry k upwards,
      extend its successor downwards, or insert between them. */
  function Place(v: VMap, k: nat, frame: nat, bytes: nat): (o: Outcome)
    requires v.Shaped() && k < |v.list|
    ensures o.v.Shaped() && o.v.list != []
  {
    if v.list[k].End() == frame then Outcome(Extended(v, k, bytes), 0, frame)
    else if v.HasNext(k) && v.list[k + 1].base == frame + bytes then Outcome(Lowered(v, k + 1, bytes), 0, frame)
    else Insert(v, k, frame, bytes)
  }

  // ---------------------------------------------------------------------------
  // The allocation functions
  // ---------------------------------------------------------------------------

  /** 64-bit arithmetic. */
  function Wrap(x: int): nat { x % 0x1_0000_0000_0000_0000 }

  /** page_virtual_alloc: the length grows by one byte. */
  function Alloc(v: VMap): (o: Outcome)
    requires v.Shaped() && |v.list| > 0
    ensures o.v.Shaped() && o.v.list != []
  {
    var frame := Wrap(v.list[0].End());
    if frame == 0 then Outcome(v, -1, frame) else Outcome(Extended(v, 0, 1), 0, frame)
  }

  /** page_virtual_alloc_at. */
  function AllocAt(v: VMap, frame: nat): (o: Outcome)
    requires v.Shaped() && |v.list| > 0
    ensures o.v.Shaped() && o.v.list != []
  {
    var k := Find(v.list, frame, 0);
    if v.list[k].End() > frame then Outcome(v, 1, frame) else Place(v, k, frame, PAGE)
  }

  /** page_virtual_alloc_after. */
  function AllocAfter(v: VMap, base: nat): (o: Outcome)
    requires v.Shaped() && |v.list| > 0
    ensures o.v.Shaped() && o.v.list != []
  {
    var k := Find(v.list, base, 0);
    if v.list[k].End() >= base then Outcome(Extended(v, k, PAGE), 0, v.list[k].End()) else Place(v, k, base, PAGE)
  }

  /** The loop of the `_beyond_ex` functions: past every entry that leaves less
      than `reach` bytes at the candidate. */
  function Hop(list: seq<Range>, k: nat, frame: nat, jump: nat, reach: nat): (r: (nat, nat))
    requires k < |list|
    ensures k <= r.0 < |list|
    decreases |list| - k
  {
    if k + 1 < |list| && list[k + 1].base < frame + reach
    then Hop(list, k + 1, list[k + 1].End() + jump * 0x1000, jump, reach)
    else (k, frame)
  }

  function FirstCandidate(list: seq<Range>, base: nat, jump: nat): nat
    requires |list| > 0
  {
    var frame := list[Find(list, base, 0)].End() + jump * 0x1000;
    if frame < base then base else frame
  }

  function BeyondFrom(v: VMap, base: nat, jump: nat, bytes: nat, reach: nat): (o: Outcome)
    requires v.Shaped() && |v.list| > 0
    ensures o.v.Shaped() && o.v.list != []
  {
    var (k, frame) := Hop(v.list, Find(v.list, base, 0), FirstCandidate(v.list, base, jump), jump, reach);
    if v.HasNext(k) && v.list[k + 1].base == frame + bytes then Outcome(Lowered(v, k + 1, bytes), 0, frame)
    else Insert(v, k, frame, bytes)
  }

  /** page_virtual_alloc_beyond_ex: the loop condition is `next.base <= frame`. */
  function AllocBeyondEx(v: VMap, base: nat, jump: nat): (o: Outcome)
    requires v.Shaped() && |v.list| > 0
    ensures o.v.Shaped() && o.v.list != []
  {
    if jump == 0 then AllocAfter(v, base) else BeyondFrom(v, base, jump, PAGE, 1)
  }

  /** The address that page_virtual_alloc_after answers with. */
  function AfterAddress(list: seq<Range>, base: nat): nat
    requires list != []
  {
    var end := list[Find(list, base, 0)].End();
    if end >= base then end else base
  }

  /** The address the walk answers with. */
  function BeyondAddress(list: seq<Range>, base: nat, jump: nat, reach: nat): nat
    requires list != []
  {
    Hop(list, Find(list, base, 0), FirstCandidate(list, base, jump), jump, reach).1
  }

  /** The address that the `_beyond_ex` functions answer with. */
  function BeyondExAddress(list: seq<Range>, base: nat, jump: nat, reach: nat): nat
    requires list != []
  {
    if jump == 0 then AfterAddress(list, base) else BeyondAddress(list, base, jump, reach)
  }

  /** The loop of page_virtual_alloc_multiple_ex. */
  function RoomyEntry(list: seq<Range>, bytes: nat, k: nat): (r: nat)
    requires k < |list|
    ensures k <= r < |list|
    ensures r + 1 < |list| ==> list[r].End() + bytes <= list[r + 1].base
    ensures forall j | k <= j < r :: list[j].End() + bytes > list[j + 1].base
    decreases |list| - k
  {
    if k + 1 < |list| && list[k].End() + bytes > list[k + 1].base then RoomyEntry(list, bytes, k + 1) else k
  }

  /** page_virtual_alloc_multiple_ex. The join compares with the top computed from
      the first entry before the walk. The address found is never stored: the
      caller's variable keeps the value `frame`. */
  function AllocMultipleEx(v: VMap, count: nat, frame: nat): Outcome
    requires v.Shaped() && |v.list| > 0
  {
    if count == 0 then Outcome(v, -1, frame)
    else
      var top := v.list[0].End() + count * 0x1000;
      var k := RoomyEntry(v.list, count * 0x1000, 0);
      var g := Grown(v, k, count * 0x1000);
      Outcome(if v.HasNext(k) && top == v.list[k + 1].base then Merged(g, k) else g, 0, frame)
  }

  /** What page_virtual_alloc_multiple_at reads as the base of the successor,
      without checking that there is one. */
  function NextBase(v: VMap, k: nat): nat
    requires k < |v.list|
  {
    if v.HasNext(k) then v.list[k + 1].base else v.atNull
  }

  function AllocMultipleAt(v: VMap, frame: nat, count: nat): (o: Outcome)
    requires v.Shaped() && |v.list| > 0
    ensures o.v.Shaped() && o.v.list != []
  {
    if count == 0 then Outcome(v, -1, frame)
    else
      var k := Find(v.list, frame, 0);
      if v.list[k].End() > frame || frame + count * 0x1000 > NextBase(v, k) then Outcome(v, 1, frame)
      else Place(v, k, frame, count * 0x1000)
  }

  /** page_virtual_alloc_multiple_after: only the first branch checks the room. */
  function AllocMultipleAfter(v: VMap, base: nat, count: nat): Outcome
    requires v.Shaped() && |v.list| > 0
  {
    var k := Find(v.list, base, 0);
    var end := v.list[k].End();
    if count == 0 then Outcome(v, -1, 0)
    else if end >= base then
      if v.HasNext(k) && v.list[k + 1].base < end + count * 0x1000 then Outcome(v, 1, end)
      else Outcome(Extended(v, k, count * 0x1000), 0, end)
    else Place(v, k, base, count * 0x1000)
  }

  /** page_virtual_alloc_multiple_beyond_ex. */
  function AllocMultipleBeyondEx(v: VMap, base: nat, count: nat, jump: nat): Outcome
    requires v.Shaped() && |v.list| > 0
  {
    if count == 0 then Outcome(v, -1, 0)
    else if jump == 0 then AllocMultipleAfter(v, base, count)
    else BeyondFrom(v, base, jump, count * 0x1000, count * 0x1000)
  }

  // ---------------------------------------------------------------------------
  // The free functions
  // ---------------------------------------------------------------------------

  /** Entry k cut to a new length. */
  function Cut(v: VMap, k: nat, length: nat): (c: VMap)
    requires v.Shaped() && k < |v.list|
    ensures c.Shaped() && |c.list| == |v.list|
  {
    v.(list := v.list[k := v.list[k].(length := length)])
  }

  /** Cutting `bytes` at `frame` out of entry k: the entry is cut first, so that
      without a slot the rest is dropped. */
  function Split(v: VMap, k: nat, frame: nat, bytes: nat): (o: Outcome)
    requires v.Shaped() && k < |v.list|
    ensures o.v.Shaped() && o.v.list != []
  {
    var left := Wrap(frame - v.list[k].base);
    Insert(Cut(v, k, left), k, Wrap(frame + bytes), Wrap(v.list[k].length - left - bytes))
  }

  /** page_virtual_free. */
  function Free(v: VMap, frame: nat): (o: Outcome)
    requires v.Shaped() && |v.list| > 0
    ensures o.v.Shaped()
  {
    var k := Find(v.list, frame, 0);
    if frame >= Wrap(v.list[k].End()) then Outcome(v, -1, frame)
    else if v.list[k].length == 1 then Outcome(Unlinked(v, k), 0, frame)
    else Split(v, k, frame, PAGE).(frame := frame)
  }

  /** page_virtual_free_multiple after its first lines. No caller reads the
      result, and on one path the code returns none. */
  function FreeRun(v: VMap, frame: nat, count: nat): (f: VMap)
    requires v.Shaped() && |v.list| > 0
    ensures f.Shaped()
  {
    var k := Find(v.list, frame, 0);
    if Wrap(frame + count * 0x1000) >= Wrap(v.list[k].End()) then v
    else if v.list[k].length == 1 then Unlinked(v, k)
    else Split(v, k, frame, count * 0x1000).v
  }

  /** page_virtual_free_multiple: for one page, page_virtual_free first, and then on. */
  function FreeMany(v: VMap, frame: nat, count: nat): VMap
    requires v.Shaped() && |v.list| > 0
  {
    if count == 0 then v
    else
      var v1 := if count == 1 then Free(v, frame).v else v;
      if |v1.list| == 0 then v1 else FreeRun(v1, frame, count)
  }
}
