/**
 The linked list itself: nodes in a table of slots, a bitmap of slots in use,
 and the functions that walk and rewrite the links in place. Each is proved to
 do to the list of ranges what VirtualRanges.dfy says.
 */
module VirtualMap {
  import opened Words
  import opened VirtualRanges
  import opened RangeSlots
  import FrameBitmap

  const NULL: int := -1

  /** struct virtual_alloc_entry; `next` is a slot or NULL. */
  datatype Node = Node(next: int, length: nat, base: nat)

  /** What the node of entry k must link to. */
  function Successor(order: seq<nat>, k: nat): int {
    if k + 1 < |order| then order[k + 1] else NULL
  }

  ghost predicate Distinct(order: seq<nat>) {
    forall i, j | 0 <= i < j < |order| :: order[i] != order[j]
  }

  lemma Differ(order: seq<nat>, i: nat, j: nat)
    requires Distinct(order) && i < |order| && j < |order| && i != j
    ensures order[i] != order[j]
  {
  }

  ghost predicate Linked(first: int, order: seq<nat>, table: seq<Node>) {
    && (forall k | 0 <= k < |order| :: order[k] < |table|)
    && Distinct(order)
    && first == (if order == [] then NULL else order[0])
    && (forall k {:trigger Successor(order, k)} | 0 <= k < |order| :: table[order[k]].next == Successor(order, k))
  }

  ghost function Ranges(order: seq<nat>, table: seq<Node>): (rs: seq<Range>)
    requires forall k | 0 <= k < |order| :: order[k] < |table|
    ensures |rs| == |order|
    ensures forall k | 0 <= k < |order| :: rs[k] == Range(order[k], table[order[k]].base, table[order[k]].length)
  {
    seq(|order|, k requires 0 <= k < |order| => Range(order[k], table[order[k]].base, table[order[k]].length))
  }

  lemma RangesAre(order: seq<nat>, table: seq<Node>, rs: seq<Range>)
    requires |rs| == |order|
    requires forall k | 0 <= k < |order| :: order[k] < |table| && rs[k] == Range(order[k], table[order[k]].base, table[order[k]].length)
    ensures Ranges(order, table) == rs
  {
  }

  function WithNext(order: seq<nat>, k: nat, slot: nat): (r: seq<nat>)
    requires k < |order|
    ensures |r| == |order| + 1
    ensures forall j | 0 <= j < |r| :: r[j] == if j <= k then order[j] else if j == k + 1 then slot else order[j - 1]
  {
    order[..k + 1] + [slot] + order[k + 1..]
  }

  function WithoutNext(order: seq<nat>, k: nat): (r: seq<nat>)
    requires k + 1 < |order|
    ensures |r| == |order| - 1
    ensures forall j | 0 <= j < |r| :: r[j] == if j <= k then order[j] else order[j + 1]
  {
    order[..k + 1] + order[k + 2..]
  }

  lemma BelowInserted(order: seq<nat>, k: nat, slot: nat, n: nat)
    requires k < |order| && slot < n && forall j | 0 <= j < |order| :: order[j] < n
    ensures forall j | 0 <= j < |order| + 1 :: WithNext(order, k, slot)[j] < n
  {
  }

  lemma BelowUnlinked(order: seq<nat>, k: nat, n: nat)
    requires k + 1 < |order| && forall j | 0 <= j < |order| :: order[j] < n
    ensures forall j | 0 <= j < |order| - 1 :: WithoutNext(order, k)[j] < n
  {
  }

  /** Linking a node into an unused slot after entry k. */
  lemma NodeInserted(first: int, order: seq<nat>, table: seq<Node>, table': seq<Node>, k: nat, slot: nat, base: nat,
        length: nat)
    requires Linked(first, order, table) && k < |order| && slot < |table| && slot !in order && |table'| == |table|
    requires table'[slot] == Node(table[order[k]].next, length, base) && table'[order[k]] == table[order[k]].(next := slot)
    requires forall s | 0 <= s < |table| && s != slot && s != order[k] :: table'[s] == table[s]
    ensures Linked(first, WithNext(order, k, slot), table')
  {
    var order' := WithNext(order, k, slot);
    WithNextDistinct(order, k, slot);
    forall j | 0 <= j < |order'| ensures order'[j] < |table'| && table'[order'[j]].next == Successor(order', j) {
      NodeInsertedAt(first, order, table, table', k, slot, j);
    }
    hide Distinct, Successor;
  }

  lemma NodeInsertedAt(first: int, order: seq<nat>, table: seq<Node>, table': seq<Node>, k: nat, slot: nat, j: nat)
    requires Linked(first, order, table) && k < |order| && slot < |table| && slot !in order && |table'| == |table|
    requires table'[slot].next == table[order[k]].next && table'[order[k]].next == slot
    requires forall s | 0 <= s < |table| && s != slot && s != order[k] :: table'[s] == table[s]
    requires j <= |order|
    ensures var order' := WithNext(order, k, slot);
            order'[j] < |table'| && table'[order'[j]].next == Successor(order', j)
  {
    hide Distinct;
    if j < k {
      Differ(order, j, k);
      assert table[order[j]].next == Successor(order, j);
    } else if j > k + 1 {
      Differ(order, j - 1, k);
      assert table[order[j - 1]].next == Successor(order, j - 1);
    } else {
      assert table[order[k]].next == Successor(order, k);
    }
  }

  lemma WithNextDistinct(order: seq<nat>, k: nat, slot: nat)
    requires k < |order| && slot !in order && Distinct(order)
    ensures Distinct(WithNext(order, k, slot))
  {
    var order' := WithNext(order, k, slot);
    forall i, j | 0 <= i < j < |order'| ensures order'[i] != order'[j] {
      if i != k + 1 && j != k + 1 {
        var i', j' := if i <= k then i else i - 1, if j <= k then j else j - 1;
        assert order[i'] != order[j'];
      }
    }
  }

  lemma RangesInserted(order: seq<nat>, table: seq<Node>, table': seq<Node>, k: nat, slot: nat, base: nat, length: nat)
    requires (forall j | 0 <= j < |order| :: order[j] < |table|) && k < |order| && slot < |table| == |table'| && slot !in order
    requires table'[slot].base == base && table'[slot].length == length
    requires forall s | 0 <= s < |table| && s != slot ::
                table'[s].base == table[s].base && table'[s].length == table[s].length
    ensures Ranges(WithNext(order, k, slot), table') == Ranges(order, table)[..k + 1] + [Range(slot, base, length)] + Ranges(order, table)[k + 1..]
  {
    var rs := Ranges(order, table);
    RangesAre(WithNext(order, k, slot), table', rs[..k + 1] + [Range(slot, base, length)] + rs[k + 1..]);
  }

  /** Changing the length or the base of entry k. */
  lemma NodeResized(first: int, order: seq<nat>, table: seq<Node>, k: nat, base: nat, length: nat)
    requires Linked(first, order, table) && k < |order|
    ensures var table' := table[order[k] := table[order[k]].(base := base, length := length)];
            && Linked(first, order, table')
            && Ranges(order, table') == Ranges(order, table)[k := Range(order[k], base, length)]
  {
    var table' := table[order[k] := table[order[k]].(base := base, length := length)];
    hide Distinct;
    forall j | 0 <= j < |order| ensures table'[order[j]] == if j == k then table[order[k]].(base := base, length := length) else table[order[j]] {
      if j != k { Differ(order, j, k); }
    }
  }

  /** Unlinking the successor of entry k. */
  lemma NextUnlinked(first: int, order: seq<nat>, table: seq<Node>, table': seq<Node>, k: nat)
    requires Linked(first, order, table) && k + 1 < |order| && |table'| == |table|
    requires table'[order[k]].next == table[order[k + 1]].next
    requires forall s | 0 <= s < |table| && s != order[k] :: table'[s].next == table[s].next
    ensures Linked(first, WithoutNext(order, k), table')
  {
    var order' := WithoutNext(order, k);
    WithoutNextDistinct(order, k);
    forall j | 0 <= j < |order'| ensures order'[j] < |table'| && table'[order'[j]].next == Successor(order', j) {
      NextUnlinkedAt(first, order, table, table', k, j);
    }
    hide Distinct, Successor;
  }

  lemma NextUnlinkedAt(first: int, order: seq<nat>, table: seq<Node>, table': seq<Node>, k: nat, j: nat)
    requires Linked(first, order, table) && k + 1 < |order| && |table'| == |table|
    requires table'[order[k]].next == table[order[k + 1]].next
    requires forall s | 0 <= s < |table| && s != order[k] :: table'[s].next == table[s].next
    requires j + 1 < |order|
    ensures var order' := WithoutNext(order, k);
            order'[j] < |table'| && table'[order'[j]].next == Successor(order', j)
  {
    hide Distinct;
    if j < k {
      Differ(order, j, k);
      assert table[order[j]].next == Successor(order, j);
    } else {
      Differ(order, j + 1, k);
      assert table[order[j + 1]].next == Successor(order, j + 1);
    }
  }

  lemma WithoutNextDistinct(order: seq<nat>, k: nat)
    requires k + 1 < |order| && Distinct(order)
    ensures Distinct(WithoutNext(order, k))
  {
    var order' := WithoutNext(order, k);
    forall i, j | 0 <= i < j < |order'| ensures order'[i] != order'[j] {
      var i', j' := if i <= k then i else i + 1, if j <= k then j else j + 1;
      assert order[i'] != order[j'];
    }
  }

  lemma RangesUnlinked(order: seq<nat>, table: seq<Node>, k: nat)
    requires (forall j | 0 <= j < |order| :: order[j] < |table|) && k + 1 < |order|
    ensures Ranges(WithoutNext(order, k), table) == Ranges(order, table)[..k + 1] + Ranges(order, table)[k + 2..]
  {
    var rs := Ranges(order, table);
    hide Ranges;
    RangesAre(WithoutNext(order, k), table, rs[..k + 1] + rs[k + 2..]);
  }

  /** Only lengths and bases matter to the ranges. */
  lemma SameRanges(order: seq<nat>, table: seq<Node>, table': seq<Node>)
    requires |table| == |table'| && forall j | 0 <= j < |order| :: order[j] < |table|
    requires forall j | 0 <= j < |order| :: table'[order[j]].base == table[order[j]].base && table'[order[j]].length == table[order[j]].length
    ensures Ranges(order, table') == Ranges(order, table)
  {
    RangesAre(order, table', Ranges(order, table));
  }

  /** Unlinking the first entry. */
  lemma FirstUnlinked(first: int, order: seq<nat>, table: seq<Node>)
    requires Linked(first, order, table) && order != []
    ensures Linked(table[order[0]].next, order[1..], table)
    ensures Ranges(order[1..], table) == Ranges(order, table)[1..]
  {
    assert table[order[0]].next == Successor(order, 0);
    forall k | 0 <= k < |order| - 1 ensures Successor(order[1..], k) == Successor(order, k + 1) {
    }
  }

  lemma WordTaken(words: seq<Word64>, limit: nat, words': seq<Word64>)
    requires limit <= |words| && FrameBitmap.CanTake(words[..limit])
    requires var i := FrameBitmap.FirstRoom(words[..limit], 0);
             var w: Word64 := words[i][63 := true];
             words' == words[i := w]
    ensures words' == FrameBitmap.Taken(words[..limit]) + words[limit..]
  {
    FrameBitmap.PickedIs(words[..limit]);
  }

  lemma MergedShape(v: VMap, k: nat, r: Range)
    requires v.Shaped() && v.HasNext(k) && r == v.list[k].(length := v.list[k].length + v.list[k + 1].length)
    ensures v.list[k := r][..k + 1] + v.list[k := r][k + 2..] == Merged(v, k).list
  {
  }

  lemma UnlinkedShape(v: VMap, k: nat)
    requires v.Shaped() && k < |v.list|
    ensures Unlinked(v, k).list == if k == 0 then v.list[1..] else v.list[..k - 1 + 1] + v.list[k - 1 + 2..]
  {
  }

  lemma PlaceKeepsAddress(v: VMap, k: nat, frame: nat, bytes: nat)
    requires v.Shaped() && k < |v.list|
    ensures Place(v, k, frame, bytes).frame == frame
  {
  }

  lemma InsertKeepsAddress(v: VMap, k: nat, frame: nat, bytes: nat)
    requires v.Shaped() && k < |v.list|
    ensures Insert(v, k, frame, bytes).frame == frame
  {
  }

  lemma CutFresh(v: VMap, k: nat, length: nat)
    requires v.Shaped() && k < |v.list| && FreshSlot(v)
    ensures FreshSlot(Cut(v, k, length))
  {
    assert forall j | 0 <= j < |v.list| :: Cut(v, k, length).list[j].slot == v.list[j].slot;
  }

  /** The slot that an insertion would take holds no live node. */
  ghost predicate FreshSlot(v: VMap) {
    v.limit <= |v.words| && (v.HasSlot() ==> forall k | 0 <= k < |v.list| ::
          v.list[k].slot != FrameBitmap.Picked(v.words[..v.limit]))
  }

  /** No insertion into a safe map overwrites a live node. */
  lemma SafeIsFresh(v: VMap)
    requires SlotSafe(v)
    ensures FreshSlot(v)
  {
    if v.HasSlot() {
      TakenTop(v.words[..v.limit]);
    }
  }

  class VirtualMap {
    const table: array<Node>     // virtual_address_map
    const bits: array<Word64>    // the page of virtual_address_map_free_bitmap
    const limit: nat             // virtual_address_map_free_bitmap_length
    const atNull: nat            // where base_pointer of a null entry is read
    var first: int               // virtual_address_map_first
    ghost var order: seq<nat>    // the slots on the list
    ghost var view: VMap         // what the map stands for

    ghost predicate Valid()
      reads this, table, bits
    {
      && limit * 4 <= bits.Length && 64 * limit <= table.Length
      && Linked(first, order, table[..])
      && (forall k | 0 <= k < |order| :: order[k] < 64 * limit)
      && view == VMap(Ranges(order, table[..]), bits[..], limit, atNull)
    }

    constructor (table: array<Node>, bits: array<Word64>, limit: nat, atNull: nat, base: nat, length: nat)
      requires limit * 4 <= bits.Length && 64 * limit <= table.Length && limit > 0
      modifies table, bits
      ensures Valid() && this.table == table && this.bits == bits && this.limit == limit && view.atNull == atNull
      ensures view.list == [Range(0, base, length)] && SlotSafe(view) && view.limit == limit
      ensures var w: Word64 := old(bits[0])[63 := true];
              view.words == old(bits[..])[0 := w]
    {
      this.table, this.bits, this.limit, this.atNull := table, bits, limit, atNull;
      first, order := 0, [0];
      new;
      table[0] := Node(NULL, length, base);
      bits[0] := bits[0][63 := true];
      view := VMap(Ranges(order, table[..]), bits[..], limit, atNull);
    }

    /** Node `cur` holds entry k, and its link and successor are in order. */
    ghost predicate Holds(cur: int, k: nat)
      reads this, table
    {
      && k < |order| == |view.list| && cur == order[k] && 0 <= cur < table.Length
      && view.list[k] == Range(cur, table[cur].base, table[cur].length)
      && var next := table[cur].next;
         if k + 1 < |order|
         then next == order[k + 1] && 0 <= next < table.Length && view.list[k + 1] == Range(next, table[next].base, table[next].length)
         else next == NULL
    }

    lemma SameLength()
      requires Valid()
      ensures |view.list| == |order|
    {
    }

    lemma NodeAt(k: nat)
      requires Valid() && k < |order|
      ensures Holds(order[k], k) && view.Shaped() && |view.list| == |order|
      ensures limit * 4 <= bits.Length && 64 * limit <= table.Length && order[k] < 64 * limit
      ensures view.limit == limit && view.words == bits[..] && view.atNull == atNull && (k == 0 ==> first == order[0])
    {
      assert table[order[k]].next == Successor(order, k);
    }

    /** FIND_ENTRY_WITH_TRIPREF; `prev` holds the link that `*tripref` names. */
    method FindEntry(key: nat) returns (prev: int, cur: nat, ghost k: nat)
      requires Valid() && order != []
      ensures |view.list| == |order| && k == Find(view.list, key, 0) && Holds(cur, k)
      ensures prev == if k == 0 then NULL else order[k - 1]
    {
      hide Valid;
      NodeAt(0);
      prev, cur, k := NULL, first, 0;
      while table[cur].next != NULL && table[table[cur].next].base < key
        invariant Holds(cur, k) && prev == if k == 0 then NULL else order[k - 1]
        invariant Find(view.list, key, 0) == Find(view.list, key, k)
        decreases |order| - k
      {
        prev, cur, k := cur, table[cur].next, k + 1;
        NodeAt(k);
      }
    }

    /** The two loops of INSERT_VIRTUAL_MAP_ENTRY_AND_RETURN: a slot, or NULL. */
    method FindSlot() returns (slot: int)
      requires limit <= bits.Length && limit < 0x1_0000
      ensures var ws := bits[..limit];
              slot == if FrameBitmap.CanTake(ws) then FrameBitmap.Picked(ws) else NULL
    {
      var index := 0;
      while index < limit
        invariant index <= limit
        invariant FrameBitmap.FirstRoom(bits[..limit], 0) == FrameBitmap.FirstRoom(bits[..limit], index)
      {
        if HasRoom(bits[index]) {
          var offset := ScanDown(bits[index]);
          RoomPicksTopBit(bits[index]);
          return index * 64 + offset;
        }
        index := index + 1;
      }
      return NULL;
    }

    lemma SlotUnused(slot: nat)
      requires Valid() && FreshSlot(view) && FrameBitmap.CanTake(bits[..limit]) && slot == FrameBitmap.Picked(bits[..limit])
      ensures slot !in order && slot < table.Length && slot / 64 < limit && slot % 64 == 63
    {
      TakenTop(bits[..limit]);
      forall k | 0 <= k < |order| ensures order[k] != slot {
        assert view.list[k].slot == order[k];
      }
    }

    /** INSERT_VIRTUAL_MAP_ENTRY_AND_RETURN. */
    method InsertAfter(cur: nat, ghost k: nat, base: nat, length: nat) returns (result: int)
      requires Valid() && FreshSlot(view) && Holds(cur, k) && limit < 0x1_0000
      modifies `order, `view, table, bits
      ensures Valid() && view == Insert(old(view), k, base, length).v
      ensures result == Insert(old(view), k, base, length).result
    {
      var slot := FindSlot();
      if slot == NULL {
        return -1;
      }
      SlotUnused(slot);
      hide Valid, Linked, FreshSlot;
      LinkNode(slot, cur, k, base, length);
      Mark(slot);
      return 0;
    }

    /** Filling a node in an unused slot and linking it after entry k. */
    method LinkNode(slot: nat, cur: nat, ghost k: nat, base: nat, length: nat)
      requires Valid() && k < |order| && cur == order[k]
      requires slot !in order && slot < table.Length && slot < 64 * limit
      modifies `order, `view, table
      ensures Valid() && |old(view.list)| == |old(order)|
      ensures view == old(view).(list := old(view.list)[..k + 1] + [Range(slot, base, length)] + old(view.list)[k + 1..])
    {
      ghost var before := table[..];
      table[slot] := Node(table[cur].next, length, base);
      table[cur] := table[cur].(next := slot);
      ghost var after := table[..];
      BelowInserted(order, k, slot, 64 * limit);
      NodeInserted(first, order, before, after, k, slot, base, length);
      RangesInserted(order, before, after, k, slot, base, length);
      hide Linked, WithNext, Ranges;
      order := WithNext(order, k, slot);
      view := view.(list := view.list[..k + 1] + [Range(slot, base, length)] + view.list[k + 1..]);
    }

    /** Marking the slot that the scan has found. */
    method Mark(slot: nat)
      requires Valid() && limit <= bits.Length
      requires FrameBitmap.CanTake(bits[..limit]) && slot == FrameBitmap.Picked(bits[..limit])
      modifies `view, bits
      ensures Valid() && limit <= |old(view.words)| && FrameBitmap.CanTake(old(view.words)[..limit])
      ensures view == old(view).(words := FrameBitmap.Taken(old(view.words)[..limit]) + old(view.words)[limit..])
    {
      FrameBitmap.PickedIs(bits[..limit]);
      ghost var before := bits[..];
      bits[slot / 64] := bits[slot / 64][slot % 64 := true];
      WordTaken(before, limit, bits[..]);
      view := view.(words := bits[..]);
    }

    /** Setting length and base of an entry. */
    method Resize(cur: nat, ghost k: nat, base: nat, length: nat)
      requires Valid() && k < |order| && cur == order[k]
      modifies `view, table
      ensures Valid() && view == old(view).(list := old(view.list)[k := Range(cur, base, length)])
    {
      NodeResized(first, order, table[..], k, base, length);
      table[cur] := table[cur].(base := base, length := length);
      view := view.(list := view.list[k := Range(cur, base, length)]);
    }

    /** The statement that gives a slot back. */
    method GiveBack(slot: nat)
      requires Valid() && slot / 16 < bits.Length
      modifies `view, bits
      ensures Valid() && view == old(view).(words := GivenBack(old(view.words), slot))
    {
      var location := 4 * slot;
      var w := bits[location / 64][63 - location % 64 := false];
      bits[location / 64] := w;
      assert bits[..] == GivenBack(old(view.words), slot);
      view := view.(words := GivenBack(view.words, slot));
    }

    /** Growing an entry and joining it with its successor if they now touch. */
    method Extend(cur: nat, ghost k: nat, bytes: nat)
      requires Valid() && Holds(cur, k)
      modifies `order, `view, table, bits
      ensures Valid() && view == Extended(old(view), k, bytes)
    {
      hide Valid, VMap.Shaped, Merged, Linked;
      NodeAt(k);
      Resize(cur, k, table[cur].base, table[cur].length + bytes);
      assert view == Grown(old(view), k, bytes);
      NodeAt(k);
      var next := table[cur].next;
      if next != NULL && table[cur].base + table[cur].length == table[next].base {
        Join(cur, k);
      }
    }

    method Join(cur: nat, ghost k: nat)
      requires Valid() && k + 1 < |order| && cur == order[k]
      modifies `order, `view, table, bits
      ensures Valid() && view == Merged(old(view), k)
    {
      hide Valid, Linked;
      NodeAt(k);
      NodeAt(k + 1);
      var next := table[cur].next;
      Resize(cur, k, table[cur].base, table[cur].length + table[next].length);
      MergedShape(old(view), k, view.list[k]);
      DropNext(cur, k);
      NodeAt(k);
      GiveBack(next);
    }

    /** `cur->next = cur->next->next`. */
    method DropNext(cur: nat, ghost k: nat)
      requires Valid() && k + 1 < |order| && cur == order[k]
      modifies `order, `view, table
      ensures Valid() && order == WithoutNext(old(order), k)
      ensures |old(view.list)| == |old(order)| && view == old(view).(list := old(view.list)[..k + 1] + old(view.list)[k + 2..])
    {
      ghost var before := table[..];
      assert table[cur].next == Successor(order, k);
      table[cur] := table[cur].(next := table[table[cur].next].next);
      ghost var after := table[..];
      BelowUnlinked(order, k, 64 * limit);
      NextUnlinked(first, order, before, after, k);
      SameRanges(order, before, after);
      RangesUnlinked(order, after, k);
      hide Linked, WithoutNext, Ranges;
      order := WithoutNext(order, k);
      view := view.(list := view.list[..k + 1] + view.list[k + 2..]);
    }

    /** The tail that most of the allocation functions share. */
    method PlaceAfter(cur: nat, ghost k: nat, frame: nat, bytes: nat) returns (result: int)
      requires Valid() && FreshSlot(view) && Holds(cur, k) && limit < 0x1_0000
      modifies `order, `view, table, bits
      ensures Valid() && Outcome(view, result, frame) == Place(old(view), k, frame, bytes)
    {
      hide Valid, Insert, Extended, VMap.Shaped, FreshSlot;
      NodeAt(k);
      if table[cur].base + table[cur].length == frame {
        Extend(cur, k, bytes);
        return 0;
      }
      result := LowerOrInsert(cur, k, frame, bytes);
    }

    /** Extending the successor downwards where it touches, inserting otherwise. */
    method LowerOrInsert(cur: nat, ghost k: nat, frame: nat, bytes: nat) returns (result: int)
      requires Valid() && FreshSlot(view) && Holds(cur, k) && limit < 0x1_0000
      modifies `order, `view, table, bits
      ensures Valid() && old(view.Shaped())
      ensures var v := old(view);
              if v.HasNext(k) && v.list[k + 1].base == frame + bytes
              then view == Lowered(v, k + 1, bytes) && result == 0
              else Outcome(view, result, frame) == Insert(v, k, frame, bytes)
    {
      hide Valid;
      NodeAt(k);
      InsertKeepsAddress(view, k, frame, bytes);
      hide Insert, VMap.Shaped, FreshSlot, Lowered;
      var next := table[cur].next;
      if next != NULL && table[next].base == frame + bytes {
        LowerTo(next, k + 1, bytes);
        return 0;
      }
      result := InsertAfter(cur, k, frame, bytes);
    }

    method LowerTo(next: nat, ghost k: nat, bytes: nat)
      requires Valid() && k < |order| && next == order[k] && k < |view.list| && bytes <= view.list[k].base
      modifies `view, table
      ensures Valid() && view == Lowered(old(view), k, bytes)
    {
      hide Valid;
      NodeAt(k);
      Resize(next, k, table[next].base - bytes, table[next].length + bytes);
    }

    method PageVirtualAlloc() returns (result: int, frame: nat)
      requires Valid() && order != []
      modifies `order, `view, table, bits
      ensures Valid() && Outcome(view, result, frame) == Alloc(old(view))
    {
      hide Valid, VMap.Shaped, Extended;
      NodeAt(0);
      frame := Wrap(table[first].base + table[first].length);
      if frame == 0 {
        return -1, frame;
      }
      Extend(first, 0, 1);
      return 0, frame;
    }

    method PageVirtualAllocAt(frame: nat) returns (result: int)
      requires Valid() && order != [] && FreshSlot(view) && limit < 0x1_0000
      requires frame + PAGE < WORD
      modifies `order, `view, table, bits
      ensures Valid() && Outcome(view, result, frame) == AllocAt(old(view), frame)
    {
      hide Valid, VMap.Shaped, Place, FreshSlot;
      NodeAt(0);
      var prev, cur, k := FindEntry(frame);
      if table[cur].base + table[cur].length > frame {
        return 1;
      }
      result := PlaceAfter(cur, k, frame, PAGE);
    }

    method PageVirtualAllocAfter(base: nat) returns (result: int, frame: nat)
      requires Valid() && order != [] && FreshSlot(view) && limit < 0x1_0000
      requires view.list != [] && AfterAddress(view.list, base) + PAGE < WORD
      modifies `order, `view, table, bits
      ensures Valid() && Outcome(view, result, frame) == AllocAfter(old(view), base)
    {
      hide Valid, VMap.Shaped, Place, FreshSlot, Extended, Find;
      NodeAt(0);
      var prev, cur, k := FindEntry(base);
      PlaceKeepsAddress(view, k, base, PAGE);
      if table[cur].base + table[cur].length >= base {
        frame := table[cur].base + table[cur].length;
        Extend(cur, k, PAGE);
        return 0, frame;
      }
      frame := base;
      result := PlaceAfter(cur, k, base, PAGE);
    }

    /** The walk of the two `_beyond_ex` functions for a positive jump; they
        differ in what the loop compares with. */
    method WalkBeyond(base: nat, jump: nat, reach: nat) returns (cur: nat, frame: nat, ghost k: nat)
      requires Valid() && order != []
      ensures |view.list| == |order| && Holds(cur, k)
      ensures (k, frame) == Hop(view.list, Find(view.list, base, 0), FirstCandidate(view.list, base, jump), jump, reach)
    {
      hide Valid, Find, VMap.Shaped;
      NodeAt(0);
      var prev;
      prev, cur, k := FindEntry(base);
      frame := table[cur].base + table[cur].length + jump * 0x1000;
      if frame < base {
        frame := base;
      }
      while table[cur].next != NULL && table[table[cur].next].base < frame + reach
        invariant Holds(cur, k)
        invariant Hop(view.list, Find(view.list, base, 0), FirstCandidate(view.list, base, jump), jump, reach)
               == Hop(view.list, k, frame, jump, reach)
        decreases |order| - k
      {
        cur, k := table[cur].next, k + 1;
        NodeAt(k);
        frame := table[cur].base + table[cur].length + jump * 0x1000;
      }
    }

    method BeyondEx(base: nat, jump: nat, bytes: nat, reach: nat) returns (result: int, frame: nat)
      requires Valid() && order != [] && FreshSlot(view) && limit < 0x1_0000
      requires view.list != [] && BeyondAddress(view.list, base, jump, reach) + bytes < WORD
      modifies `order, `view, table, bits
      ensures Valid() && Outcome(view, result, frame) == BeyondFrom(old(view), base, jump, bytes, reach)
    {
      hide Valid, VMap.Shaped, Insert, Hop, Find, FirstCandidate, FreshSlot, Lowered;
      NodeAt(0);
      var cur: nat;
      ghost var k: nat;
      cur, frame, k := WalkBeyond(base, jump, reach);
      result := LowerOrInsert(cur, k, frame, bytes);
    }

    method PageVirtualAllocBeyondEx(base: nat, jump: nat) returns (result: int, frame: nat)
      requires Valid() && order != [] && FreshSlot(view) && limit < 0x1_0000
      requires view.list != [] && BeyondExAddress(view.list, base, jump, 1) + PAGE < WORD
      modifies `order, `view, table, bits
      ensures Valid() && Outcome(view, result, frame) == AllocBeyondEx(old(view), base, jump)
    {
      hide Valid, VMap.Shaped, BeyondFrom, AllocAfter, FreshSlot;
      NodeAt(0);
      if jump == 0 {
        result, frame := PageVirtualAllocAfter(base);
      } else {
        result, frame := BeyondEx(base, jump, PAGE, 1);
      }
    }

    method PageVirtualAllocMultipleBeyondEx(base: nat, count: nat, jump: nat) returns (result: int, frame: nat)
      requires Valid() && order != [] && FreshSlot(view) && limit < 0x1_0000
      requires view.list != [] && BeyondExAddress(view.list, base, jump, count * 0x1000) + count * 0x1000 < WORD
      modifies `order, `view, table, bits
      ensures Valid() && Outcome(view, result, frame) == AllocMultipleBeyondEx(old(view), base, count, jump)
    {
      hide Valid, VMap.Shaped, BeyondFrom, AllocMultipleAfter, FreshSlot;
      NodeAt(0);
      if count == 0 {
        return -1, 0;
      }
      if jump == 0 {
        result, frame := PageVirtualAllocMultipleAfter(base, count);
      } else {
        result, frame := BeyondEx(base, jump, count * 0x1000, count * 0x1000);
      }
    }

    /** The walk of page_virtual_alloc_multiple_ex. */
    method WalkRoomy(bytes: nat) returns (cur: nat, ghost k: nat)
      requires Valid() && order != []
      ensures |view.list| == |order| && k == RoomyEntry(view.list, bytes, 0) && Holds(cur, k)
    {
      hide Valid, VMap.Shaped;
      NodeAt(0);
      cur, k := first, 0;
      while table[cur].next != NULL && table[cur].base + table[cur].length + bytes > table[table[cur].next].base
        invariant Holds(cur, k)
        invariant RoomyEntry(view.list, bytes, 0) == RoomyEntry(view.list, bytes, k)
        decreases |order| - k
      {
        cur, k := table[cur].next, k + 1;
        NodeAt(k);
      }
    }

    /** The code does not store the address; it is returned here for the lemmas. */
    method PageVirtualAllocMultipleEx(count: nat, ghost frame: nat) returns (result: int)
      requires Valid() && order != []
      requires |view.list| > 0 && view.list[RoomyEntry(view.list, count * 0x1000, 0)].End() + count * 0x1000 < WORD
      modifies `order, `view, table, bits
      ensures Valid() && Outcome(view, result, frame) == AllocMultipleEx(old(view), count, frame)
    {
      hide Valid, VMap.Shaped, Merged, RoomyEntry;
      NodeAt(0);
      if count == 0 {
        return -1;
      }
      var bytes := count * 0x1000;
      var top := table[first].base + table[first].length + bytes;
      var cur, k := WalkRoomy(bytes);
      var next := table[cur].next;
      var touching := next != NULL && top == table[next].base;
      Resize(cur, k, table[cur].base, table[cur].length + bytes);
      assert view == Grown(old(view), k, bytes);
      if touching {
        Join(cur, k);
      }
      return 0;
    }

    method PageVirtualAllocMultipleAt(frame: nat, count: nat) returns (result: int)
      requires Valid() && order != [] && FreshSlot(view) && limit < 0x1_0000 && view.list != []
      requires frame + count * 0x1000 < WORD
      modifies `order, `view, table, bits
      ensures Valid() && Outcome(view, result, frame) == AllocMultipleAt(old(view), frame, count)
    {
      hide Valid, VMap.Shaped, Place, FreshSlot, Find;
      NodeAt(0);
      if count == 0 {
        return -1;
      }
      var prev, cur, k := FindEntry(frame);
      var next := table[cur].next;
      var nextBase := if next != NULL then table[next].base else atNull;
      if table[cur].base + table[cur].length > frame || frame + count * 0x1000 > nextBase {
        return 1;
      }
      result := PlaceAfter(cur, k, frame, count * 0x1000);
    }

    method PageVirtualAllocMultipleAfter(base: nat, count: nat) returns (result: int, frame: nat)
      requires Valid() && order != [] && FreshSlot(view) && limit < 0x1_0000
      requires view.list != [] && AfterAddress(view.list, base) + count * 0x1000 < WORD
      modifies `order, `view, table, bits
      ensures Valid() && Outcome(view, result, frame) == AllocMultipleAfter(old(view), base, count)
    {
      hide Valid, Find, Extended, Place, VMap.Shaped, FreshSlot;
      NodeAt(0);
      if count == 0 {
        return -1, 0;
      }
      var bytes := count * 0x1000;
      var prev, cur, k := FindEntry(base);
      PlaceKeepsAddress(view, k, base, bytes);
      var end := table[cur].base + table[cur].length;
      if end >= base {
        var next := table[cur].next;
        if next != NULL && table[next].base < end + bytes {
          return 1, end;
        }
        Extend(cur, k, bytes);
        return 0, end;
      }
      frame := base;
      result := PlaceAfter(cur, k, base, bytes);
    }

    /** `*tripref = (*tripref)->next`, and the slot given back. */
    method Unlink(prev: int, cur: nat, ghost k: nat)
      requires Valid() && k < |order| && cur == order[k] && prev == if k == 0 then NULL else order[k - 1]
      modifies this, table, bits
      ensures Valid() && view == Unlinked(old(view), k)
    {
      hide Valid, Linked;
      NodeAt(k);
      if prev == NULL {
        DropFirst();
      } else {
        DropNext(prev, k - 1);
      }
      UnlinkedShape(old(view), k);
      BitsLength();
      GiveBack(cur);
    }

    lemma BitsLength()
      requires Valid()
      ensures limit * 4 <= bits.Length
    {
    }

    method DropFirst()
      requires Valid() && order != []
      modifies `first, `order, `view
      ensures Valid() && order == old(order)[1..] && old(view.list) != [] && view == old(view).(list := old(view.list)[1..])
    {
      FirstUnlinked(first, order, table[..]);
      first := table[first].next;
      order := order[1..];
      view := view.(list := view.list[1..]);
    }

    /** Cutting the block out of an entry, the shared tail of the two frees. */
    method CutOut(cur: nat, ghost k: nat, frame: nat, bytes: nat) returns (result: int)
      requires Valid() && FreshSlot(view) && Holds(cur, k) && limit < 0x1_0000
      modifies `order, `view, table, bits
      ensures Valid() && old(view.Shaped()) && view == Split(old(view), k, frame, bytes).v
      ensures result == Split(old(view), k, frame, bytes).result
    {
      hide Valid, Insert, Wrap, VMap.Shaped;
      NodeAt(k);
      var oldLength, left := table[cur].length, Wrap(frame - table[cur].base);
      Resize(cur, k, table[cur].base, left);
      assert view == Cut(old(view), k, left);
      CutFresh(old(view), k, left);
      hide FreshSlot, Cut;
      NodeAt(k);
      result := InsertAfter(cur, k, Wrap(frame + bytes), Wrap(oldLength - left - bytes));
    }

    method PageVirtualFree(frame: nat) returns (result: int)
      requires Valid() && order != [] && FreshSlot(view) && limit < 0x1_0000
      modifies this, table, bits
      ensures Valid() && Outcome(view, result, frame) == Free(old(view), frame)
    {
      hide Valid, VMap.Shaped, Split, Unlinked, FreshSlot, Find, Wrap;
      NodeAt(0);
      var prev, cur, k := FindEntry(frame);
      if frame >= Wrap(table[cur].base + table[cur].length) {
        return -1;
      }
      if table[cur].length == 1 {
        Unlink(prev, cur, k);
        return 0;
      }
      result := CutOut(cur, k, frame, PAGE);
    }

    /** page_virtual_free_multiple after its first lines. */
    method FreeRunFrom(frame: nat, count: nat)
      requires Valid() && order != [] && FreshSlot(view) && limit < 0x1_0000
      modifies this, table, bits
      ensures Valid() && view == FreeRun(old(view), frame, count)
    {
      hide Valid, VMap.Shaped, Split, Unlinked, FreshSlot, Find, Wrap;
      NodeAt(0);
      var prev, cur, k := FindEntry(frame);
      if Wrap(frame + count * 0x1000) >= Wrap(table[cur].base + table[cur].length) {
        return;
      }
      if table[cur].length == 1 {
        Unlink(prev, cur, k);
      } else {
        var _ := CutOut(cur, k, frame, count * 0x1000);
      }
    }
  }
}
