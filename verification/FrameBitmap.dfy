/**
 The physical frame allocator: `page_physical_alloc` and `page_physical_free`.
 Frames are numbered; the byte address the functions pass around is 4096 times
 the number.
 */
module FrameBitmap {
  import opened Words

  /** The word at which the outer scan loop stops, |ws| if it runs through. */
  function FirstRoom(ws: seq<Word64>, i: nat): (r: nat)
    requires i <= |ws|
    ensures i <= r <= |ws|
    ensures forall j | i <= j < r :: !HasRoom(ws[j])
    ensures r < |ws| ==> HasRoom(ws[r])
    decreases |ws| - i
  {
    if i == |ws| || HasRoom(ws[i]) then i else FirstRoom(ws, i + 1)
  }

  predicate CanTake(ws: seq<Word64>) {
    FirstRoom(ws, 0) < |ws|
  }

  /** The number the scan composes from word index and bit offset. */
  function Picked(ws: seq<Word64>): (f: nat)
    requires CanTake(ws)
  {
    var i := FirstRoom(ws, 0);
    RoomPicksTopBit(ws[i]);
    64 * i + TopClear(ws[i])
  }

  predicate IsFree(ws: seq<Word64>, f: nat) {
    f / 64 < |ws| && !ws[f / 64][f % 64]
  }

  predicate IsMarked(ws: seq<Word64>, f: nat) {
    f / 64 < |ws| && ws[f / 64][f % 64]
  }

  function Flip(ws: seq<Word64>, f: nat): seq<Word64>
    requires f / 64 < |ws|
  {
    var w: Word64 := ws[f / 64][f % 64 := !ws[f / 64][f % 64]];
    ws[f / 64 := w]
  }

  /** The bitmap after one allocation. */
  function Taken(ws: seq<Word64>): seq<Word64>
    requires CanTake(ws)
  {
    PickedIs(ws);
    Flip(ws, Picked(ws))
  }

  /** The bitmap after `page_physical_free(f)`: the guard of the code lets the
      toggle happen only on a frame whose bit is clear. */
  function Released(ws: seq<Word64>, f: nat): seq<Word64> {
    if f / 64 < |ws| && !ws[f / 64][f % 64] then Flip(ws, f) else ws
  }

  lemma PickedIs(ws: seq<Word64>)
    requires CanTake(ws)
    ensures IsFree(ws, Picked(ws))
    ensures Picked(ws) == 64 * FirstRoom(ws, 0) + 63
    ensures HasRoom(ws[Picked(ws) / 64])
  {
    var i := FirstRoom(ws, 0);
    RoomPicksTopBit(ws[i]);
    TopClearIs(ws[i]);
    assert (64 * i + 63) / 64 == i && (64 * i + 63) % 64 == 63;
  }

  /** What an allocation does to the set of free frames. */
  lemma TakeIs(ws: seq<Word64>)
    requires CanTake(ws)
    ensures IsFree(ws, Picked(ws)) && |Taken(ws)| == |ws|
    ensures forall f: nat :: IsFree(Taken(ws), f) <==> IsFree(ws, f) && f != Picked(ws)
    ensures forall f: nat :: IsMarked(Taken(ws), f) <==> IsMarked(ws, f) || f == Picked(ws)
  {
    PickedIs(ws);
    FlipIs(ws, Picked(ws));
  }

  lemma FlipIs(ws: seq<Word64>, p: nat)
    requires p / 64 < |ws|
    ensures |Flip(ws, p)| == |ws|
    ensures forall f: nat :: f / 64 < |ws| ==> Flip(ws, p)[f / 64][f % 64] == (ws[f / 64][f % 64] != (f == p))
  {
    forall f: nat | f / 64 < |ws|
      ensures Flip(ws, p)[f / 64][f % 64] == (ws[f / 64][f % 64] != (f == p))
    {
      assert f == 64 * (f / 64) + f % 64 && p == 64 * (p / 64) + p % 64;
    }
  }

  /** The decoding in free (`frame >> 18`, `(frame >> 12) & 63`) inverts the
      encoding in alloc (`(index << 18) | (offset << 12)`). */
  lemma EncodingInverted(index: nat, offset: nat)
    requires offset < 64
    ensures var frame := index * 0x40000 + offset * 0x1000;
            frame / 0x40000 == index && frame / 0x1000 % 64 == offset && frame / 0x1000 == 64 * index + offset
  {
  }

  // ---------------------------------------------------------------------------
  // Where the code departs from its contract
  // ---------------------------------------------------------------------------

  /** Allocation reports failure only on a full bitmap exactly when some word has
      its top bit clear and another one too, or every bit is set: any other
      bitmap with a clear bit is a counterexample. */
  lemma AllocFailsOnlyWhenFullIff(ws: seq<Word64>)
    ensures (!CanTake(ws) ==> forall f: nat :: !IsFree(ws, f))
            <==> (exists i, k :: 0 <= i < |ws| && 0 <= k < 63 && !ws[i][63] && !ws[i][k])
                 || (forall i, k | 0 <= i < |ws| && 0 <= k < 64 :: ws[i][k])
  {
    RoomOnBits(ws);
    if forall f: nat :: !IsFree(ws, f) {
      forall i, k | 0 <= i < |ws| && 0 <= k < 64 ensures ws[i][k] {
        assert (64 * i + k) / 64 == i && (64 * i + k) % 64 == k;
        assert !IsFree(ws, 64 * i + k);
      }
    }
  }

  lemma RoomOnBits(ws: seq<Word64>)
    ensures CanTake(ws) <==> exists i, k :: 0 <= i < |ws| && 0 <= k < 63 && !ws[i][63] && !ws[i][k]
  {
    hide HasRoom;
    forall i | 0 <= i < |ws| ensures HasRoom(ws[i]) <==> !ws[i][63] && exists k :: 0 <= k < 63 && !ws[i][k] {
      RoomIff(ws[i]);
    }
  }

  /** One allocated frame makes the 63 others of its word unreachable. */
  lemma OneFramePerWord()
    ensures var w: Word64 := seq(64, k => k == 63);
            !CanTake([w]) && forall f: nat | 0 <= f < 63 :: IsFree([w], f)
  {
    var w: Word64 := seq(64, k => k == 63);
    RoomIff(w);
  }

  /** No call frees anything: after `page_physical_free(f)` an existing frame is
      marked, whatever its state was. */
  lemma FreeNeverFrees(ws: seq<Word64>, f: nat)
    ensures IsMarked(Released(ws, f), f) <==> f / 64 < |ws|
    ensures IsMarked(ws, f) || f / 64 >= |ws| ==> Released(ws, f) == ws
    ensures forall g: nat :: IsMarked(Released(ws, f), g) <==> IsMarked(ws, g) || (g == f && f / 64 < |ws|)
  {
    if f / 64 < |ws| {
      FlipIs(ws, f);
    }
  }

  // ---------------------------------------------------------------------------
  // Runs
  // ---------------------------------------------------------------------------

  datatype Request = Alloc | Free(frame: nat)

  /** The bitmap, the frames handed out in order, and the frames a stray free
      has marked. */
  datatype State = State(bits: seq<Word64>, handed: seq<nat>, strays: set<nat>)

  function Step(s: State, q: Request): State {
    match q
    case Alloc => if CanTake(s.bits) then State(Taken(s.bits), s.handed + [Picked(s.bits)], s.strays) else s
    case Free(f) => State(Released(s.bits, f), s.handed, if IsFree(s.bits, f) then s.strays + {f} else s.strays)
  }

  function Run(ws: seq<Word64>, qs: seq<Request>): State {
    if qs == [] then State(ws, [], {}) else Step(Run(ws, qs[..|qs| - 1]), qs[|qs| - 1])
  }

  /** The frames free in `ws` are partitioned into those still free, those
      handed out and those a stray free has marked; none is handed out twice. */
  ghost predicate Conserved(ws: seq<Word64>, s: State) {
    && (forall f: nat :: IsFree(ws, f) <==> IsFree(s.bits, f) || f in s.handed || f in s.strays)
    && (forall f: nat :: IsFree(s.bits, f) ==> f !in s.handed && f !in s.strays)
    && (forall f: nat :: f in s.handed ==> f !in s.strays && f % 64 == 63)
    && (forall i, j | 0 <= i < j < |s.handed| :: s.handed[i] != s.handed[j])
  }

  lemma AllocConserves(ws: seq<Word64>, p: State)
    requires Conserved(ws, p) && CanTake(p.bits)
    ensures Conserved(ws, Step(p, Alloc))
  {
    var s := Step(p, Alloc);
    TakeIs(p.bits);
    PickedIs(p.bits);
    assert forall f: nat :: f in s.handed <==> f in p.handed || f == Picked(p.bits);
  }

  lemma FreeConserves(ws: seq<Word64>, p: State, f: nat)
    requires Conserved(ws, p) && IsFree(p.bits, f)
    ensures Conserved(ws, Step(p, Free(f)))
  {
    FlipIs(p.bits, f);
    assert forall g: nat :: IsFree(Step(p, Free(f)).bits, g) <==> IsFree(p.bits, g) && g != f;
  }

  /** Over every run of allocations and frees no frame is handed out twice,
      freed in between or not, and no frame is lost from the account. */
  lemma {:induction false} RunConservesFrames(ws: seq<Word64>, qs: seq<Request>)
    ensures Conserved(ws, Run(ws, qs))
  {
    if qs != [] {
      var p := Run(ws, qs[..|qs| - 1]);
      RunConservesFrames(ws, qs[..|qs| - 1]);
      match qs[|qs| - 1]
      case Alloc => if CanTake(p.bits) { AllocConserves(ws, p); }
      case Free(f) => if IsFree(p.bits, f) { FreeConserves(ws, p, f); }
    }
  }

  function Rooms(ws: seq<Word64>): nat {
    if ws == [] then 0 else Rooms(ws[1..]) + if HasRoom(ws[0]) then 1 else 0
  }

  lemma {:induction false} RoomsAfter(ws: seq<Word64>, i: nat, w: Word64)
    requires i < |ws| && HasRoom(ws[i]) && !HasRoom(w)
    ensures Rooms(ws[i := w]) == Rooms(ws) - 1
  {
    if i > 0 {
      assert ws[i := w][1..] == ws[1..][i - 1 := w];
      RoomsAfter(ws[1..], i - 1, w);
    } else {
      assert ws[0 := w][1..] == ws[1..];
    }
  }

  lemma {:induction false} RoomsPositive(ws: seq<Word64>)
    ensures CanTake(ws) <==> Rooms(ws) > 0
  {
    if ws != [] {
      RoomsPositive(ws[1..]);
      if CanTake(ws) && FirstRoom(ws, 0) > 0 {
        var i := FirstRoom(ws, 0);
        assert HasRoom(ws[1..][i - 1]);
      }
      if CanTake(ws[1..]) {
        assert HasRoom(ws[FirstRoom(ws[1..], 0) + 1]);
      }
    }
  }

  lemma TakeUsesOneRoom(ws: seq<Word64>)
    requires CanTake(ws)
    ensures Rooms(Taken(ws)) == Rooms(ws) - 1
  {
    PickedIs(ws);
    var i := FirstRoom(ws, 0);
    RoomIff(Taken(ws)[i]);
    RoomsAfter(ws, i, Taken(ws)[i]);
  }

  function Allocs(n: nat): seq<Request> {
    seq(n, _ => Alloc)
  }

  /** Exactly how many allocations succeed in a row: one for each word that
      passes the guard at the start, not one for each free frame. */
  lemma {:induction false} AllocSucceedsOncePerRoom(ws: seq<Word64>, n: nat)
    ensures var s := Run(ws, Allocs(n));
            && |s.handed| == (if n <= Rooms(ws) then n else Rooms(ws))
            && |s.handed| + Rooms(s.bits) == Rooms(ws)
  {
    hide CanTake, Picked, Taken, Rooms;
    if n > 0 {
      AllocSucceedsOncePerRoom(ws, n - 1);
      assert Allocs(n)[..n - 1] == Allocs(n - 1);
      var p := Run(ws, Allocs(n - 1));
      RoomsPositive(p.bits);
      if CanTake(p.bits) {
        TakeUsesOneRoom(p.bits);
      }
    }
  }

  // ---------------------------------------------------------------------------
  // The code
  // ---------------------------------------------------------------------------

  class FrameAllocator {
    const words: array<Word64>  // page_bitmap, page_bitmap_length

    constructor (words: array<Word64>)
      ensures this.words == words
    {
      this.words := words;
    }

    /** page_physical_alloc: -1 for failure, 0 for success. The loop counter is
        16 bits wide. */
    method Alloc() returns (result: int, frame: nat)
      requires words.Length < 0x1_0000
      modifies words
      ensures result == if old(CanTake(words[..])) then 0 else -1
      ensures result == 0 ==> frame == 4096 * Picked(old(words[..])) && words[..] == Taken(old(words[..]))
      ensures result == -1 ==> words[..] == old(words[..])
    {
      var index := 0;
      while index < words.Length
        invariant index <= words.Length
        invariant words[..] == old(words[..])
        invariant FirstRoom(words[..], 0) == FirstRoom(words[..], index)
      {
        if HasRoom(words[index]) {
          var offset := ScanDown(words[index]);
          RoomPicksTopBit(words[index]);
          frame := index * 0x40000 + offset * 0x1000;
          PickedIs(words[..]);
          words[index] := words[index][offset := !words[index][offset]];
          return 0, frame;
        }
        index := index + 1;
      }
      return -1, 0;
    }

    /** page_physical_free. */
    method Free(frame: nat)
      modifies words
      ensures words[..] == Released(old(words[..]), frame / 4096)
    {
      EncodingInverted(frame / 0x40000, frame / 0x1000 % 64);
      var index, offset := frame / 0x40000, frame / 0x1000 % 64;
      if index < words.Length && !words[index][offset] {
        words[index] := words[index][offset := !words[index][offset]];
      }
    }
  }
}
