/**
 The bootloader's copy of the firmware's page tables: the region that holds
 them is copied, the entries of the PML4 and the non-large ones of the PDPs are
 moved to the copy in place, page directories and everything below are left
 alone.
 */
module Relocation {
  import opened Addresses
  import opened PageTables
  import Words

  /** `count` frames from src are copied to dst. */
  datatype Move = Move(src: nat, dst: nat, count: nat) {
    predicate Has(f: nat) { src <= f < src + count }

    predicate Lands(f: nat) { dst <= f < dst + count }

    /** old_addr_to_new_map, meant for frames of the region. */
    function To(f: nat): nat { if src <= f then dst + (f - src) else 0 }

    predicate Disjoint() { src + count <= dst || dst + count <= src }
  }

  // ---------------------------------------------------------------------------
  // The loops
  // ---------------------------------------------------------------------------

  /** The copy loop, by words. */
  function Copied(m: Memory, b: Move, n: nat): Memory {
    if n == 0 then m
    else
      var p := Copied(m, b, n - 1);
      Store(p, b.dst + (n - 1) / 512, (n - 1) % 512, Load(p, b.src + (n - 1) / 512, (n - 1) % 512))
  }

  /** `w &= ~ADDR_MASK; w |= moved`. */
  function Rebased(w: nat, b: Move): nat {
    w - 0x1000 * FrameOf(w) + 0x1000 * b.To(FrameOf(w))
  }

  /** What becomes of an entry of the PML4, and of one of a PDP. */
  function MovedEntry(w: nat, b: Move): nat {
    if Present(w) then Rebased(w, b) else w
  }

  function MovedPdpEntry(w: nat, b: Move): nat {
    if Present(w) && !Large(w) then Rebased(w, b) else w
  }

  /** The loop over the first n entries of the PDP in frame t. */
  function PdpRebased(m: Memory, b: Move, t: nat, n: nat): Memory {
    if n == 0 then m
    else
      var p := PdpRebased(m, b, t, n - 1);
      var w := Load(p, t, n - 1);
      if Present(w) && !Large(w) then Store(p, t, n - 1, Rebased(w, b)) else p
  }

  /** The loop over the first n entries of the PML4 in frame r. */
  function TreeRebased(m: Memory, b: Move, r: nat, n: nat): Memory {
    if n == 0 then m
    else
      var p := TreeRebased(m, b, r, n - 1);
      var w := Load(p, r, n - 1);
      if Present(w) then PdpRebased(Store(p, r, n - 1, Rebased(w, b)), b, FrameOf(Rebased(w, b)), 512) else p
  }

  function Relocated(m: Memory, b: Move, root: nat): Memory {
    TreeRebased(Copied(m, b, 512 * b.count), b, b.To(root), 512)
  }

  // ---------------------------------------------------------------------------
  // What the loops do, word by word
  // ---------------------------------------------------------------------------

  /** Word j of frame f after n words have been copied. */
  function CopiedWord(m: Memory, b: Move, n: nat, f: nat, j: nat): nat {
    if b.Lands(f) && 512 * (f - b.dst) + j < n then Load(m, b.src + (f - b.dst), j) else Load(m, f, j)
  }

  lemma {:induction false} CopiedIs(m: Memory, b: Move, n: nat)
    requires b.Disjoint() && n <= 512 * b.count
    ensures forall f: nat, j: nat | j < 512 :: Load(Copied(m, b, n), f, j) == CopiedWord(m, b, n, f, j)
  {
    if n > 0 {
      CopiedIs(m, b, n - 1);
      var p := Copied(m, b, n - 1);
      var f1, j1 := (n - 1) / 512, (n - 1) % 512;
      assert f1 < b.count && 512 * f1 + j1 == n - 1;
      assert CopiedWord(m, b, n - 1, b.src + f1, j1) == Load(m, b.src + f1, j1);
      forall f: nat, j: nat | j < 512 ensures Load(Copied(m, b, n), f, j) == CopiedWord(m, b, n, f, j) {
        assert Load(p, f, j) == CopiedWord(m, b, n - 1, f, j);
        assert f == b.dst + f1 && j == j1 <==> b.Lands(f) && 512 * (f - b.dst) + j == n - 1;
      }
    }
  }

  lemma RebasedIs(w: nat, b: Move)
    requires b.To(FrameOf(w)) < 0x100_0000_0000
    ensures FrameOf(Rebased(w, b)) == b.To(FrameOf(w))
    ensures Present(Rebased(w, b)) == Present(w) && Large(Rebased(w, b)) == Large(w) && SameFlags(w, Rebased(w, b))
  {
    var h, f, l, t := w / 0x1000 / 0x100_0000_0000, FrameOf(w), w % 0x1000, b.To(FrameOf(w));
    assert w == 0x10_0000_0000_0000 * h + 0x1000 * f + l;
    assert Rebased(w, b) == 0x10_0000_0000_0000 * h + 0x1000 * t + l;
    Fields(h, t, l);
    Fields(h, f, l);
    AroundFrame(h, t, l);
    AroundFrame(h, f, l);
  }

  /** All bits of an entry outside its address field. */
  predicate SameFlags(w: nat, w': nat) {
    w' % 0x1000 == w % 0x1000 && w' / 0x10_0000_0000_0000 == w / 0x10_0000_0000_0000
  }

  lemma AroundFrame(h: nat, f: nat, l: nat)
    requires f < 0x100_0000_0000 && l < 0x1000
    ensures var w := 0x10_0000_0000_0000 * h + 0x1000 * f + l;
            w % 0x1000 == l && w / 0x10_0000_0000_0000 == h
  {
    var x := 0x100_0000_0000 * h + f;
    assert 0x10_0000_0000_0000 * h + 0x1000 * f + l == 0x1000 * x + l;
  }

  lemma {:induction false} PdpRebasedIs(m: Memory, b: Move, t: nat, n: nat)
    ensures forall f: nat, j: nat ::
              Load(PdpRebased(m, b, t, n), f, j) == if f == t && j < n then MovedPdpEntry(Load(m, f, j), b) else Load(m, f, j)
  {
    if n > 0 {
      PdpRebasedIs(m, b, t, n - 1);
    }
  }

  /** The PDPs lie apart from the PML4 and from each other, within reach of an entry. */
  ghost predicate Apart(c: Memory, b: Move, r: nat) {
    && (forall i: nat | i < 512 && Present(Load(c, r, i)) ::
          b.To(FrameOf(Load(c, r, i))) != r && b.To(FrameOf(Load(c, r, i))) < 0x100_0000_0000)
    && (forall i: nat, k: nat | i < k < 512 && Present(Load(c, r, i)) && Present(Load(c, r, k)) ::
          b.To(FrameOf(Load(c, r, i))) != b.To(FrameOf(Load(c, r, k))))
  }

  /** Frame f is the moved PDP of one of the first n entries. */
  ghost predicate MovedPdp(c: Memory, b: Move, r: nat, n: nat, f: nat) {
    exists i: nat :: i < n && Present(Load(c, r, i)) && b.To(FrameOf(Load(c, r, i))) == f
  }

  /** m is c with the first n entries of the PML4, and their PDPs, moved. */
  ghost predicate TreeMoved(c: Memory, m: Memory, b: Move, r: nat, n: nat) {
    && (forall j: nat | j < 512 :: Load(m, r, j) == if j < n then MovedEntry(Load(c, r, j), b) else Load(c, r, j))
    && (forall f: nat, j: nat | j < 512 && f != r ::
          Load(m, f, j) == if MovedPdp(c, b, r, n, f) then MovedPdpEntry(Load(c, f, j), b) else Load(c, f, j))
  }

  lemma {:induction false} TreeRebasedIs(c: Memory, b: Move, r: nat, n: nat)
    requires Apart(c, b, r) && n <= 512
    ensures TreeMoved(c, TreeRebased(c, b, r, n), b, r, n)
  {
    if n > 0 {
      TreeRebasedIs(c, b, r, n - 1);
      TreeStep(c, TreeRebased(c, b, r, n - 1), b, r, n - 1);
    }
  }

  lemma TreeStep(c: Memory, p: Memory, b: Move, r: nat, n: nat)
    requires Apart(c, b, r) && n < 512 && TreeMoved(c, p, b, r, n)
    ensures var w := Load(p, r, n);
            TreeMoved(c, if Present(w) then PdpRebased(Store(p, r, n, Rebased(w, b)), b, FrameOf(Rebased(w, b)), 512) else p, b, r, n + 1)
  {
    var w := Load(p, r, n);
    assert w == Load(c, r, n);
    if Present(w) {
      var t := b.To(FrameOf(w));
      RebasedIs(w, b);
      PdpRebasedIs(Store(p, r, n, Rebased(w, b)), b, t, 512);
      assert !MovedPdp(c, b, r, n, t);
      forall f: nat ensures MovedPdp(c, b, r, n + 1, f) <==> MovedPdp(c, b, r, n, f) || f == t {
        MovedPdpMore(c, b, r, n, f);
      }
    } else {
      forall f: nat ensures MovedPdp(c, b, r, n + 1, f) <==> MovedPdp(c, b, r, n, f) {
        MovedPdpMore(c, b, r, n, f);
      }
    }
  }

  lemma MovedPdpMore(c: Memory, b: Move, r: nat, n: nat, f: nat)
    ensures MovedPdp(c, b, r, n + 1, f) <==> MovedPdp(c, b, r, n, f) || (Present(Load(c, r, n)) && b.To(FrameOf(Load(c, r, n))) == f)
  {
    if MovedPdp(c, b, r, n, f) {
      var i: nat :| i < n && Present(Load(c, r, i)) && b.To(FrameOf(Load(c, r, i))) == f;
      assert i < n + 1;
    }
  }

  // ---------------------------------------------------------------------------
  // Relocation preserves meaning
  // ---------------------------------------------------------------------------

  /** What the code relies on: the region holds the PML4, all PDPs and all page
      directories; no PDP is shared or used as another kind of table; no page
      table lies where the copy goes, and the copy is within reach of an entry. */
  ghost predicate Movable(m: Memory, b: Move, root: nat) {
    && b.Disjoint() && b.Has(root) && b.dst + b.count <= 0x100_0000_0000
    && (forall i: nat | i < 512 && Walk(m, root, 1, i).Table? ::
          b.Has(Walk(m, root, 1, i).frame) && Walk(m, root, 1, i) != Table(root))
    && (forall i: nat, k: nat | i < k < 512 && Walk(m, root, 1, i).Table? :: Walk(m, root, 1, i) != Walk(m, root, 1, k))
    && (forall q: nat | IsPath(2, q) && Walk(m, root, 2, q).Table? ::
          b.Has(Walk(m, root, 2, q).frame) && Walk(m, root, 2, q) != Table(root)
          && forall i: nat | i < 512 :: Walk(m, root, 1, i) != Walk(m, root, 2, q))
    && (forall q: nat | IsPath(3, q) && Walk(m, root, 3, q).Table? :: !b.Lands(Walk(m, root, 3, q).frame))
  }

  /** Where the frame of a table of the first three levels goes. */
  function MovedStep(p: Step, b: Move): Step {
    match p
    case Table(t) => Table(b.To(t))
    case other => other
  }

  /** The relocated memory, as far as the walks see it. */
  ghost predicate MovedMemory(m: Memory, m': Memory, b: Move, root: nat) {
    && (forall j: nat | j < 512 :: Load(m', b.To(root), j) == MovedEntry(Load(m, root, j), b))
    && (forall i: nat, j: nat | i < 512 && j < 512 && Walk(m, root, 1, i).Table? ::
          var t := Walk(m, root, 1, i).frame; Load(m', b.To(t), j) == MovedPdpEntry(Load(m, t, j), b))
    && (forall q: nat, j: nat | IsPath(2, q) && j < 512 && Walk(m, root, 2, q).Table? ::
          var t := Walk(m, root, 2, q).frame; Load(m', b.To(t), j) == Load(m, t, j))
    && (forall f: nat, j: nat | j < 512 && !b.Lands(f) :: Load(m', f, j) == Load(m, f, j))
  }

  lemma FirstLevel(m: Memory, root: nat, i: nat)
    requires i < 512
    ensures Walk(m, root, 1, i) == if Present(Load(m, root, i)) then Table(FrameOf(Load(m, root, i))) else Absent
  {
    assert Walk(m, root, 0, i / 512) == Table(root);
  }

  lemma CopyOfRegion(m: Memory, b: Move, f: nat, j: nat)
    requires b.Disjoint() && j < 512
    ensures b.Has(f) ==> b.Lands(b.To(f)) && Load(Copied(m, b, 512 * b.count), b.To(f), j) == Load(m, f, j)
    ensures !b.Lands(f) ==> Load(Copied(m, b, 512 * b.count), f, j) == Load(m, f, j)
  {
    CopiedIs(m, b, 512 * b.count);
    assert b.Has(f) ==> CopiedWord(m, b, 512 * b.count, b.To(f), j) == Load(m, f, j);
    assert !b.Lands(f) ==> CopiedWord(m, b, 512 * b.count, f, j) == Load(m, f, j);
  }

  lemma MovableApart(m: Memory, b: Move, root: nat)
    requires Movable(m, b, root)
    ensures Apart(Copied(m, b, 512 * b.count), b, b.To(root))
  {
    var c, r := Copied(m, b, 512 * b.count), b.To(root);
    hide Copied;
    forall i: nat | i < 512 ensures Load(c, r, i) == Load(m, root, i) {
      CopyOfRegion(m, b, root, i);
    }
    forall i: nat | i < 512 && Present(Load(c, r, i))
      ensures b.To(FrameOf(Load(c, r, i))) != r && b.To(FrameOf(Load(c, r, i))) < 0x100_0000_0000
    {
      FirstLevel(m, root, i);
    }
    forall i: nat, k: nat | i < k < 512 && Present(Load(c, r, i)) && Present(Load(c, r, k))
      ensures b.To(FrameOf(Load(c, r, i))) != b.To(FrameOf(Load(c, r, k)))
    {
      FirstLevel(m, root, i);
      FirstLevel(m, root, k);
    }
  }

  /** The entry i of the copied PML4 leads to f once it is moved. */
  ghost predicate LeadsTo(c: Memory, b: Move, r: nat, i: nat, f: nat) {
    Present(Load(c, r, i)) && b.To(FrameOf(Load(c, r, i))) == f
  }

  /** A moved PDP is the image of a PDP. */
  lemma LeadsToPdp(m: Memory, b: Move, root: nat, i: nat, f: nat)
    requires Movable(m, b, root) && i < 512
    ensures LeadsTo(Copied(m, b, 512 * b.count), b, b.To(root), i, f) <==>
              Walk(m, root, 1, i).Table? && b.To(Walk(m, root, 1, i).frame) == f
  {
    hide Copied, Movable, Walk;
    MovableRoot(m, b, root);
    CopyOfRegion(m, b, root, i);
    FirstLevel(m, root, i);
  }

  lemma PdpIsMoved(m: Memory, b: Move, root: nat, i: nat)
    requires Movable(m, b, root) && i < 512 && Walk(m, root, 1, i).Table?
    ensures MovedPdp(Copied(m, b, 512 * b.count), b, b.To(root), 512, b.To(Walk(m, root, 1, i).frame))
  {
    hide Copied, Movable, Walk;
    LeadsToPdp(m, b, root, i, b.To(Walk(m, root, 1, i).frame));
  }

  lemma NotMoved(m: Memory, b: Move, root: nat, f: nat)
    requires Movable(m, b, root)
    requires forall i: nat | i < 512 && Walk(m, root, 1, i).Table? :: b.To(Walk(m, root, 1, i).frame) != f
    ensures !MovedPdp(Copied(m, b, 512 * b.count), b, b.To(root), 512, f)
  {
    hide Copied, Movable, Walk;
    var c, r := Copied(m, b, 512 * b.count), b.To(root);
    forall i: nat | i < 512 ensures !(Present(Load(c, r, i)) && b.To(FrameOf(Load(c, r, i))) == f) {
      LeadsToPdp(m, b, root, i, f);
    }
  }

  lemma MovableRoot(m: Memory, b: Move, root: nat)
    requires Movable(m, b, root)
    ensures b.Disjoint() && b.Has(root) && b.Lands(b.To(root))
  {
  }

  /** One word of the relocated memory. */
  lemma RelocatedWord(m: Memory, b: Move, root: nat, f: nat, j: nat)
    requires Movable(m, b, root) && j < 512
    ensures var c, r := Copied(m, b, 512 * b.count), b.To(root);
            Load(Relocated(m, b, root), f, j) ==
              if f == r then MovedEntry(Load(c, r, j), b)
              else if MovedPdp(c, b, r, 512, f) then MovedPdpEntry(Load(c, f, j), b)
              else Load(c, f, j)
  {
    var c, r := Copied(m, b, 512 * b.count), b.To(root);
    MovableApart(m, b, root);
    TreeRebasedIs(c, b, r, 512);
    hide Copied, Movable, MovedPdp, MovedEntry, MovedPdpEntry, TreeRebased, Apart;
  }

  lemma RelocatedIs(m: Memory, b: Move, root: nat)
    requires Movable(m, b, root)
    ensures MovedMemory(m, Relocated(m, b, root), b, root)
  {
    var m', r := Relocated(m, b, root), b.To(root);
    forall j: nat | j < 512 ensures Load(m', r, j) == MovedEntry(Load(m, root, j), b) {
      RelocatedWord(m, b, root, r, j);
      MovableRoot(m, b, root);
      CopyOfRegion(m, b, root, j);
    }
    forall i: nat, j: nat | i < 512 && j < 512 && Walk(m, root, 1, i).Table?
      ensures var t := Walk(m, root, 1, i).frame; Load(m', b.To(t), j) == MovedPdpEntry(Load(m, t, j), b)
    {
      PdpWord(m, b, root, i, j);
    }
    forall q: nat, j: nat | IsPath(2, q) && j < 512 && Walk(m, root, 2, q).Table?
      ensures var t := Walk(m, root, 2, q).frame; Load(m', b.To(t), j) == Load(m, t, j)
    {
      PdWord(m, b, root, q, j);
    }
    forall f: nat, j: nat | j < 512 && !b.Lands(f) ensures Load(m', f, j) == Load(m, f, j) {
      OutsideWord(m, b, root, f, j);
    }
    hide *;
  }

  lemma PdpWord(m: Memory, b: Move, root: nat, i: nat, j: nat)
    requires Movable(m, b, root) && i < 512 && j < 512 && Walk(m, root, 1, i).Table?
    ensures var t := Walk(m, root, 1, i).frame;
            Load(Relocated(m, b, root), b.To(t), j) == MovedPdpEntry(Load(m, t, j), b)
  {
    hide Copied, Relocated, Walk, MovedPdp, MovedPdpEntry;
    var t := Walk(m, root, 1, i).frame;
    RelocatedWord(m, b, root, b.To(t), j);
    PdpIsMoved(m, b, root, i);
    CopyOfRegion(m, b, t, j);
  }

  lemma PdWord(m: Memory, b: Move, root: nat, q: nat, j: nat)
    requires Movable(m, b, root) && IsPath(2, q) && j < 512 && Walk(m, root, 2, q).Table?
    ensures var t := Walk(m, root, 2, q).frame;
            Load(Relocated(m, b, root), b.To(t), j) == Load(m, t, j)
  {
    hide Copied, Relocated, Walk, MovedPdp, MovedPdpEntry;
    var t := Walk(m, root, 2, q).frame;
    RelocatedWord(m, b, root, b.To(t), j);
    NotMoved(m, b, root, b.To(t));
    CopyOfRegion(m, b, t, j);
  }

  lemma OutsideWord(m: Memory, b: Move, root: nat, f: nat, j: nat)
    requires Movable(m, b, root) && j < 512 && !b.Lands(f)
    ensures Load(Relocated(m, b, root), f, j) == Load(m, f, j)
  {
    hide Copied, Relocated, Walk, MovedPdp, MovedPdpEntry;
    RelocatedWord(m, b, root, f, j);
    NotMoved(m, b, root, f);
    CopyOfRegion(m, b, f, j);
  }

  /** The walk from the new root follows the walk from the old one: through the
      moved tables on the first three levels, and then through the same page
      tables to the same pages. */
  lemma WalkMoves(m: Memory, b: Move, root: nat, d: nat, q: nat)
    requires Movable(m, b, root) && IsPath(d, q)
    ensures var p := Walk(m, root, d, q);
            Walk(Relocated(m, b, root), b.To(root), d, q) == if d <= 2 then MovedStep(p, b) else p
    decreases d
  {
    hide Relocated;
    RelocatedIs(m, b, root);
    if d > 0 {
      ParentIsPath(d, q);
      WalkMoves(m, b, root, d - 1, q / 512);
      DescendMoves(m, Relocated(m, b, root), b, root, d, q);
    }
  }

  lemma DescendMoves(m: Memory, m': Memory, b: Move, root: nat, d: nat, q: nat)
    requires Movable(m, b, root) && MovedMemory(m, m', b, root) && d > 0 && IsPath(d, q) && IsPath(d - 1, q / 512)
    ensures var p := Walk(m, root, d - 1, q / 512);
            Descend(m', if d <= 3 then MovedStep(p, b) else p, q % 512, d)
            == if d <= 2 then MovedStep(Walk(m, root, d, q), b) else Walk(m, root, d, q)
  {
    var p, x := Walk(m, root, d - 1, q / 512), q % 512;
    PrefixIs(0);
    if p.Table? {
      var w := Load(m, p.frame, x);
      if d <= 2 {
        EntryMoves(m, b, root, d, q, w);
      }
    }
  }

  /** An entry of the first two levels still leads to the table it led to. */
  lemma EntryMoves(m: Memory, b: Move, root: nat, d: nat, q: nat, w: nat)
    requires Movable(m, b, root) && 1 <= d <= 2 && IsPath(d, q)
    requires Walk(m, root, d - 1, q / 512).Table? && w == Load(m, Walk(m, root, d - 1, q / 512).frame, q % 512)
    ensures Follow(if d == 1 then MovedEntry(w, b) else MovedPdpEntry(w, b), d) == MovedStep(Follow(w, d), b)
  {
    assert Walk(m, root, d, q) == Follow(w, d);
    PrefixIs(0);
    if Follow(w, d).Table? {
      assert b.Has(FrameOf(w));
      RebasedIs(w, b);
    }
  }

  /** Every address translates from the new root as it did from the old one. */
  lemma RelocationPreservesTranslation(m: Memory, b: Move, root: nat, page: nat)
    requires Movable(m, b, root) && page < PAGES
    ensures Translate(Relocated(m, b, root), b.To(root), page) == Translate(m, root, page)
  {
    PrefixIsPath(page, 4);
    WalkMoves(m, b, root, 4, page);
    SameWalkSameTranslation(Relocated(m, b, root), b.To(root), m, root, page);
  }

  /** Entry by entry: outside their address fields the words of the PML4 and of
      the PDPs are as they were, and so is the field unless the entry leads to a
      table; page directories are not changed at all. */
  lemma RelocatedEntries(m: Memory, b: Move, root: nat)
    requires Movable(m, b, root)
    ensures var m' := Relocated(m, b, root);
            && (forall j: nat | j < 512 ::
                  var w, w' := Load(m, root, j), Load(m', b.To(root), j);
                  SameFlags(w, w') && FrameOf(w') == if Present(w) then b.To(FrameOf(w)) else FrameOf(w))
            && (forall i: nat, j: nat | i < 512 && j < 512 && Walk(m, root, 1, i).Table? ::
                  var t := Walk(m, root, 1, i).frame;
                  var w, w' := Load(m, t, j), Load(m', b.To(t), j);
                  SameFlags(w, w') && FrameOf(w') == if Present(w) && !Large(w) then b.To(FrameOf(w)) else FrameOf(w))
            && (forall q: nat, j: nat | IsPath(2, q) && j < 512 && Walk(m, root, 2, q).Table? ::
                  var t := Walk(m, root, 2, q).frame; Load(m', b.To(t), j) == Load(m, t, j))
  {
    hide Movable, Relocated, Walk, FrameOf, Present, Large, SameFlags, Rebased;
    RelocatedIs(m, b, root);
    var m' := Relocated(m, b, root);
    forall j: nat | j < 512
      ensures var w, w' := Load(m, root, j), Load(m', b.To(root), j);
              SameFlags(w, w') && FrameOf(w') == if Present(w) then b.To(FrameOf(w)) else FrameOf(w)
    {
      RootEntryMoves(m, b, root, j);
    }
    forall i: nat, j: nat | i < 512 && j < 512 && Walk(m, root, 1, i).Table?
      ensures var t := Walk(m, root, 1, i).frame;
              var w, w' := Load(m, t, j), Load(m', b.To(t), j);
              SameFlags(w, w') && FrameOf(w') == if Present(w) && !Large(w) then b.To(FrameOf(w)) else FrameOf(w)
    {
      PdpEntryMoves(m, b, root, i, j);
    }
  }

  lemma FlagsOfItself(w: nat)
    ensures SameFlags(w, w)
  {
  }

  lemma RootEntryMoves(m: Memory, b: Move, root: nat, j: nat)
    requires Movable(m, b, root) && j < 512
    ensures var w := Load(m, root, j);
            SameFlags(w, MovedEntry(w, b)) && FrameOf(MovedEntry(w, b)) == if Present(w) then b.To(FrameOf(w)) else FrameOf(w)
  {
    FirstLevel(m, root, j);
    if Present(Load(m, root, j)) {
      RebasedIs(Load(m, root, j), b);
    }
  }

  lemma PdpEntryMoves(m: Memory, b: Move, root: nat, i: nat, j: nat)
    requires Movable(m, b, root) && i < 512 && j < 512 && Walk(m, root, 1, i).Table?
    ensures var w := Load(m, Walk(m, root, 1, i).frame, j);
            SameFlags(w, MovedPdpEntry(w, b))
            && FrameOf(MovedPdpEntry(w, b)) == if Present(w) && !Large(w) then b.To(FrameOf(w)) else FrameOf(w)
  {
    var w := Load(m, Walk(m, root, 1, i).frame, j);
    if Present(w) && !Large(w) {
      assert (512 * i + j) / 512 == i && (512 * i + j) % 512 == j;
      PrefixIs(0);
      assert IsPath(2, 512 * i + j);
      assert Walk(m, root, 2, 512 * i + j) == Follow(w, 2) == Table(FrameOf(w));
      RebasedIs(w, b);
    }
  }

  // ---------------------------------------------------------------------------
  // The highest entry in use
  // ---------------------------------------------------------------------------

  /** The address of word j of frame f. */
  function EntryAddress(f: nat, j: nat): nat { 0x1000 * f + 8 * j }

  /** What the scan of the first n entries of a page directory makes of highest_addr. */
  function PdHighest(m: Memory, t: nat, n: nat, h: nat): nat {
    if n == 0 then h
    else
      var h1 := PdHighest(m, t, n - 1, h);
      if Present(Load(m, t, n - 1)) then Words.Max(h1, EntryAddress(t, n - 1)) else h1
  }

  function PdpHighest(m: Memory, b: Move, t: nat, n: nat, h: nat): nat {
    if n == 0 then h
    else
      var h1 := PdpHighest(m, b, t, n - 1, h);
      var w := Load(PdpRebased(m, b, t, n - 1), t, n - 1);
      if !Present(w) then h1
      else
        var h2 := Words.Max(h1, EntryAddress(t, n - 1));
        if Large(w) then h2 else PdHighest(PdpRebased(m, b, t, n), FrameOf(Rebased(w, b)), 512, h2)
  }

  function TreeHighest(m: Memory, b: Move, r: nat, n: nat): nat {
    if n == 0 then 0
    else
      var p := TreeRebased(m, b, r, n - 1);
      var h1 := TreeHighest(m, b, r, n - 1);
      var w := Load(p, r, n - 1);
      if Present(w) then
        PdpHighest(Store(p, r, n - 1, Rebased(w, b)), b, FrameOf(Rebased(w, b)), 512, Words.Max(h1, EntryAddress(r, n - 1)))
      else h1
  }

  /** next_available_mapping_page, as a frame number. */
  function NextAvailable(m: Memory, b: Move, root: nat): nat {
    TreeHighest(Copied(m, b, 512 * b.count), b, b.To(root), 512) / 0x1000 + 1
  }

  /** No present entry of table t lies above h. */
  ghost predicate Topped(m: Memory, t: nat, n: nat, h: nat) {
    forall k: nat | k < n && Present(Load(m, t, k)) :: EntryAddress(t, k) <= h
  }

  /** h1 is h, or an address in the copy. */
  predicate FromCopy(b: Move, h: nat, h1: nat) {
    h <= h1 && (h1 == h || b.Lands(h1 / 0x1000))
  }

  lemma {:induction false} PdHighestIs(m: Memory, b: Move, t: nat, n: nat, h: nat)
    requires n <= 512 && b.Lands(t)
    ensures FromCopy(b, h, PdHighest(m, t, n, h)) && Topped(m, t, n, PdHighest(m, t, n, h))
  {
    if n > 0 {
      PdHighestIs(m, b, t, n - 1, h);
      assert EntryAddress(t, n - 1) / 0x1000 == t;
    }
  }

  /** The entries of a PDP, and of the page directories they lead to. */
  ghost predicate PdpTopped(m: Memory, b: Move, t: nat, n: nat, h: nat) {
    && Topped(m, t, n, h)
    && forall j: nat | j < n && Present(Load(m, t, j)) && !Large(Load(m, t, j)) ::
          Topped(m, b.To(FrameOf(Load(m, t, j))), 512, h)
  }

  /** The page directories of a PDP lie in the copy, and are not the PDP itself. */
  ghost predicate PdsLand(m: Memory, b: Move, t: nat) {
    forall j: nat | j < 512 && Present(Load(m, t, j)) && !Large(Load(m, t, j)) ::
      var f := b.To(FrameOf(Load(m, t, j))); b.Lands(f) && f != t && f < 0x100_0000_0000
  }

  lemma {:induction false} PdpHighestIs(m: Memory, b: Move, t: nat, n: nat, h: nat)
    requires n <= 512 && b.Lands(t) && PdsLand(m, b, t)
    ensures FromCopy(b, h, PdpHighest(m, b, t, n, h)) && PdpTopped(m, b, t, n, PdpHighest(m, b, t, n, h))
  {
    if n > 0 {
      PdpHighestIs(m, b, t, n - 1, h);
      PdpStep(m, b, t, n - 1, h);
    }
  }

  lemma PdpStep(m: Memory, b: Move, t: nat, n: nat, h: nat)
    requires n < 512 && b.Lands(t) && PdsLand(m, b, t)
    requires FromCopy(b, h, PdpHighest(m, b, t, n, h)) && PdpTopped(m, b, t, n, PdpHighest(m, b, t, n, h))
    ensures FromCopy(b, h, PdpHighest(m, b, t, n + 1, h)) && PdpTopped(m, b, t, n + 1, PdpHighest(m, b, t, n + 1, h))
  {
    hide Rebased, SameFlags, Store;
    var w := Load(m, t, n);
    var h1 := PdpHighest(m, b, t, n, h);
    var h2 := Words.Max(h1, EntryAddress(t, n));
    PdpRebasedIs(m, b, t, n);
    assert EntryAddress(t, n) / 0x1000 == t;
    if Present(w) && !Large(w) {
      var f := b.To(FrameOf(w));
      RebasedIs(w, b);
      PdpRebasedIs(m, b, t, n + 1);
      var q := PdpRebased(m, b, t, n + 1);
      PdHighestIs(q, b, f, 512, h2);
      assert Topped(m, f, 512, PdHighest(q, f, 512, h2)) by {
        assert forall k: nat | k < 512 :: Load(q, f, k) == Load(m, f, k);
      }
    }
  }

  ghost predicate TreeTopped(c: Memory, b: Move, r: nat, n: nat, h: nat) {
    && Topped(c, r, n, h)
    && forall i: nat | i < n && Present(Load(c, r, i)) :: PdpTopped(c, b, b.To(FrameOf(Load(c, r, i))), 512, h)
  }

  /** The tables of the first three levels land in the copy and are told apart. */
  ghost predicate TreeLands(c: Memory, b: Move, r: nat) {
    && Apart(c, b, r) && b.Lands(r)
    && forall i: nat | i < 512 && Present(Load(c, r, i)) :: PdpLands(c, b, r, b.To(FrameOf(Load(c, r, i))))
  }

  ghost predicate PdpLands(c: Memory, b: Move, r: nat, t: nat) {
    && b.Lands(t) && PdsLand(c, b, t)
    && forall j: nat | j < 512 && Present(Load(c, t, j)) && !Large(Load(c, t, j)) ::
         var f := b.To(FrameOf(Load(c, t, j))); f != r && !MovedPdp(c, b, r, 512, f)
  }

  lemma {:induction false} TreeHighestIs(c: Memory, b: Move, r: nat, n: nat)
    requires TreeLands(c, b, r) && n <= 512
    ensures FromCopy(b, 0, TreeHighest(c, b, r, n)) && TreeTopped(c, b, r, n, TreeHighest(c, b, r, n))
  {
    if n > 0 {
      TreeHighestIs(c, b, r, n - 1);
      TreeRebasedIs(c, b, r, n - 1);
      TreeHighestStep(c, TreeRebased(c, b, r, n - 1), b, r, n - 1);
    }
  }

  lemma TreeHighestStep(c: Memory, p: Memory, b: Move, r: nat, n: nat)
    requires TreeLands(c, b, r) && n < 512 && p == TreeRebased(c, b, r, n) && TreeMoved(c, p, b, r, n)
    requires FromCopy(b, 0, TreeHighest(c, b, r, n)) && TreeTopped(c, b, r, n, TreeHighest(c, b, r, n))
    ensures FromCopy(b, 0, TreeHighest(c, b, r, n + 1)) && TreeTopped(c, b, r, n + 1, TreeHighest(c, b, r, n + 1))
  {
    var w, h := Load(c, r, n), TreeHighest(c, b, r, n);
    hide MovedPdp, PdpHighest, TreeRebased, PdpTopped, PdpLands, PdsLand;
    assert w == Load(p, r, n);
    if Present(w) {
      var t := b.To(FrameOf(w));
      var s := Store(p, r, n, Rebased(w, b));
      var h2 := Words.Max(h, EntryAddress(r, n));
      RebasedIs(w, b);
      assert PdpLands(c, b, r, t);
      SameBelow(c, p, b, r, n, Rebased(w, b));
      PdpHighestIs(s, b, t, 512, h2);
      var h3 := PdpHighest(s, b, t, 512, h2);
      SameTop(c, s, b, r, t, h3);
      RootAddress(r, n);
      forall i: nat | i < n && Present(Load(c, r, i)) ensures PdpTopped(c, b, b.To(FrameOf(Load(c, r, i))), 512, h3) {
        PdpToppedHigher(c, b, b.To(FrameOf(Load(c, r, i))), h, h3);
      }
    }
  }

  lemma RootAddress(r: nat, n: nat)
    requires n < 512
    ensures EntryAddress(r, n) / 0x1000 == r
  {
  }

  lemma PdpToppedHigher(m: Memory, b: Move, t: nat, h: nat, h': nat)
    requires PdpTopped(m, b, t, 512, h) && h <= h'
    ensures PdpTopped(m, b, t, 512, h')
  {
  }

  /** The next PDP and its page directories have not been touched yet. */
  ghost predicate Untouched(c: Memory, s: Memory, b: Move, r: nat, t: nat) {
    && (forall j: nat | j < 512 :: Load(s, t, j) == Load(c, t, j))
    && (forall j: nat, k: nat | j < 512 && k < 512 && Present(Load(c, t, j)) && !Large(Load(c, t, j)) ::
          var f := b.To(FrameOf(Load(c, t, j))); Load(s, f, k) == Load(c, f, k))
  }

  lemma SameBelow(c: Memory, p: Memory, b: Move, r: nat, n: nat, w': nat)
    requires TreeLands(c, b, r) && n < 512 && TreeMoved(c, p, b, r, n) && Present(Load(c, r, n))
    ensures var s, t := Store(p, r, n, w'), b.To(FrameOf(Load(c, r, n)));
            Untouched(c, s, b, r, t) && PdsLand(s, b, t) && b.Lands(t)
  {
    var t := b.To(FrameOf(Load(c, r, n)));
    assert PdpLands(c, b, r, t);
    assert !MovedPdp(c, b, r, n, t);
    forall f: nat | !MovedPdp(c, b, r, 512, f) ensures !MovedPdp(c, b, r, n, f) {
    }
  }

  lemma SameTop(c: Memory, s: Memory, b: Move, r: nat, t: nat, h: nat)
    requires Untouched(c, s, b, r, t) && PdpTopped(s, b, t, 512, h)
    ensures PdpTopped(c, b, t, 512, h)
  {
    forall j: nat | j < 512 && Present(Load(c, t, j)) && !Large(Load(c, t, j))
      ensures Topped(c, b.To(FrameOf(Load(c, t, j))), 512, h)
    {
      assert Load(s, t, j) == Load(c, t, j);
    }
  }

  // ---------------------------------------------------------------------------
  // No page handed out later is in use
  // ---------------------------------------------------------------------------

  ghost predicate HasEntry(m: Memory, t: nat) {
    exists j: nat :: j < 512 && Present(Load(m, t, j))
  }

  /** Every table of the first three levels has a present entry. */
  ghost predicate NoEmptyTable(m: Memory, root: nat) {
    forall d: nat, q: nat | d <= 2 && IsPath(d, q) && Walk(m, root, d, q).Table? ::
          HasEntry(m, Walk(m, root, d, q).frame)
  }

  lemma PdpPath(m: Memory, root: nat, i: nat, j: nat)
    requires i < 512 && j < 512 && Walk(m, root, 1, i).Table?
    ensures IsPath(2, 512 * i + j)
    ensures Walk(m, root, 2, 512 * i + j) == Follow(Load(m, Walk(m, root, 1, i).frame, j), 2)
  {
    PrefixIs(0);
    assert (512 * i + j) / 512 == i && (512 * i + j) % 512 == j;
  }

  lemma MovableLands(m: Memory, b: Move, root: nat)
    requires Movable(m, b, root)
    ensures TreeLands(Copied(m, b, 512 * b.count), b, b.To(root))
  {
    hide Copied, PdpLands, MovedPdp, Apart;
    var c, r := Copied(m, b, 512 * b.count), b.To(root);
    MovableApart(m, b, root);
    forall i: nat | i < 512 && Present(Load(c, r, i)) ensures PdpLands(c, b, r, b.To(FrameOf(Load(c, r, i)))) {
      CopyOfRegion(m, b, root, i);
      FirstLevel(m, root, i);
      OnePdpLands(m, b, root, i);
    }
  }

  lemma OnePdpLands(m: Memory, b: Move, root: nat, i: nat)
    requires Movable(m, b, root) && i < 512 && Walk(m, root, 1, i).Table?
    ensures PdpLands(Copied(m, b, 512 * b.count), b, b.To(root), b.To(Walk(m, root, 1, i).frame))
  {
    hide Copied, MovedPdp, Walk;
    var c, r, g := Copied(m, b, 512 * b.count), b.To(root), Walk(m, root, 1, i).frame;
    var t := b.To(g);
    forall j: nat | j < 512 && Present(Load(c, t, j)) && !Large(Load(c, t, j))
      ensures var f := b.To(FrameOf(Load(c, t, j)));
              b.Lands(f) && f != t && f < 0x100_0000_0000 && f != r && !MovedPdp(c, b, r, 512, f)
    {
      CopyOfRegion(m, b, g, j);
      PdpPath(m, root, i, j);
      var f := b.To(FrameOf(Load(c, t, j)));
      NotMoved(m, b, root, f);
    }
  }

  /** The scan finds the frame after the last table in use, within the region. */
  lemma ScanCoversTables(m: Memory, b: Move, root: nat)
    requires Movable(m, b, root) && HasEntry(m, root)
    ensures b.dst < NextAvailable(m, b, root) <= b.dst + b.count
    ensures forall d: nat, q: nat | d <= 2 && IsPath(d, q) && Walk(m, root, d, q).Table? && HasEntry(m, Walk(m, root, d, q).frame) ::
              b.To(Walk(m, root, d, q).frame) < NextAvailable(m, b, root)
  {
    hide Copied, Movable, TreeLands, TreeTopped, Walk, HasEntry;
    var c, r := Copied(m, b, 512 * b.count), b.To(root);
    MovableLands(m, b, root);
    MovableRoot(m, b, root);
    TreeHighestIs(c, b, r, 512);
    var h := TreeHighest(c, b, r, 512);
    RootInUse(m, b, root, h);
    forall d: nat, q: nat | d <= 2 && IsPath(d, q) && Walk(m, root, d, q).Table? && HasEntry(m, Walk(m, root, d, q).frame)
      ensures b.To(Walk(m, root, d, q).frame) <= h / 0x1000
    {
      TableInUse(m, b, root, h, d, q);
    }
  }

  lemma InUse(m: Memory, c: Memory, t: nat, t': nat, h: nat)
    requires HasEntry(m, t) && Topped(c, t', 512, h) && forall j: nat | j < 512 :: Load(c, t', j) == Load(m, t, j)
    ensures t' <= h / 0x1000
  {
    var j: nat :| j < 512 && Present(Load(m, t, j));
    assert Present(Load(c, t', j));
    assert EntryAddress(t', j) <= h;
  }

  lemma RootInUse(m: Memory, b: Move, root: nat, h: nat)
    requires Movable(m, b, root) && HasEntry(m, root) && TreeTopped(Copied(m, b, 512 * b.count), b, b.To(root), 512, h)
    requires FromCopy(b, 0, h)
    ensures b.To(root) <= h / 0x1000 && b.dst <= h / 0x1000 < b.dst + b.count
  {
    hide Copied, HasEntry;
    var c := Copied(m, b, 512 * b.count);
    forall j: nat | j < 512 ensures Load(c, b.To(root), j) == Load(m, root, j) {
      CopyOfRegion(m, b, root, j);
    }
    InUse(m, c, root, b.To(root), h);
  }

  lemma TableInUse(m: Memory, b: Move, root: nat, h: nat, d: nat, q: nat)
    requires Movable(m, b, root) && TreeTopped(Copied(m, b, 512 * b.count), b, b.To(root), 512, h)
    requires d <= 2 && IsPath(d, q) && Walk(m, root, d, q).Table? && HasEntry(m, Walk(m, root, d, q).frame)
    ensures b.To(Walk(m, root, d, q).frame) <= h / 0x1000
  {
    hide Copied, HasEntry;
    var c, t := Copied(m, b, 512 * b.count), Walk(m, root, d, q).frame;
    PrefixIs(0);
    assert b.Has(t);
    forall j: nat | j < 512 ensures Load(c, b.To(t), j) == Load(m, t, j) {
      CopyOfRegion(m, b, t, j);
    }
    TableTopped(m, b, root, h, d, q);
    InUse(m, c, t, b.To(t), h);
  }

  lemma TableTopped(m: Memory, b: Move, root: nat, h: nat, d: nat, q: nat)
    requires Movable(m, b, root) && TreeTopped(Copied(m, b, 512 * b.count), b, b.To(root), 512, h)
    requires d <= 2 && IsPath(d, q) && Walk(m, root, d, q).Table?
    ensures Topped(Copied(m, b, 512 * b.count), b.To(Walk(m, root, d, q).frame), 512, h)
  {
    hide Copied, Topped;
    var c, r := Copied(m, b, 512 * b.count), b.To(root);
    PrefixIs(0);
    if d >= 1 {
      var i := if d == 1 then q else q / 512;
      CopyOfRegion(m, b, root, i);
      FirstLevel(m, root, i);
      assert PdpTopped(c, b, b.To(FrameOf(Load(c, r, i))), 512, h);
      if d == 2 {
        PdpPath(m, root, i, q % 512);
        CopyOfRegion(m, b, Walk(m, root, 1, i).frame, q % 512);
      }
    }
  }

  // ---------------------------------------------------------------------------
  // The next available page, exactly
  // ---------------------------------------------------------------------------

  lemma {:induction false} PdHighestFrom(m: Memory, t: nat, n: nat, h: nat)
    requires n <= 512
    ensures PdHighest(m, t, n, h) == h || (PdHighest(m, t, n, h) / 0x1000 == t && HasEntry(m, t))
  {
    if n > 0 {
      PdHighestFrom(m, t, n - 1, h);
      assert EntryAddress(t, n - 1) / 0x1000 == t;
    }
  }

  /** Frame u is the PDP in frame t, or a moved page directory of it. */
  ghost predicate InPdp(m: Memory, b: Move, t: nat, u: nat) {
    u == t || exists j: nat :: j < 512 && Present(Load(m, t, j)) && !Large(Load(m, t, j)) && u == b.To(FrameOf(Load(m, t, j)))
  }

  /** h1 is h, or lies in one of these tables, which is not empty. */
  ghost predicate FromPdp(m: Memory, b: Move, t: nat, h: nat, h1: nat) {
    h1 == h || (InPdp(m, b, t, h1 / 0x1000) && HasEntry(m, h1 / 0x1000))
  }

  lemma {:induction false} PdpHighestFrom(m: Memory, b: Move, t: nat, n: nat, h: nat)
    requires n <= 512 && PdsLand(m, b, t)
    ensures FromPdp(m, b, t, h, PdpHighest(m, b, t, n, h))
  {
    if n > 0 {
      PdpHighestFrom(m, b, t, n - 1, h);
      PdpFromStep(m, b, t, n - 1, h);
    }
  }

  lemma PdpFromStep(m: Memory, b: Move, t: nat, n: nat, h: nat)
    requires n < 512 && PdsLand(m, b, t) && FromPdp(m, b, t, h, PdpHighest(m, b, t, n, h))
    ensures FromPdp(m, b, t, h, PdpHighest(m, b, t, n + 1, h))
  {
    hide PdpRebased;
    var w := Load(m, t, n);
    var h2 := Words.Max(PdpHighest(m, b, t, n, h), EntryAddress(t, n));
    PdpRebasedIs(m, b, t, n);
    assert EntryAddress(t, n) / 0x1000 == t;
    if Present(w) && !Large(w) {
      var f := b.To(FrameOf(w));
      RebasedIs(w, b);
      PdpRebasedIs(m, b, t, n + 1);
      var q := PdpRebased(m, b, t, n + 1);
      PdHighestFrom(q, f, 512, h2);
      SameEntries(q, f, m, f);
    }
  }

  lemma SameEntries(m: Memory, t: nat, m': Memory, t': nat)
    requires forall j: nat | j < 512 :: Load(m', t', j) == Load(m, t, j)
    ensures HasEntry(m', t') <==> HasEntry(m, t)
  {
    if HasEntry(m, t) {
      var j: nat :| j < 512 && Present(Load(m, t, j));
      assert Present(Load(m', t', j));
    }
  }

  ghost predicate InTree(c: Memory, b: Move, r: nat, u: nat) {
    u == r || exists i: nat :: i < 512 && Present(Load(c, r, i)) && InPdp(c, b, b.To(FrameOf(Load(c, r, i))), u)
  }

  ghost predicate FromTree(c: Memory, b: Move, r: nat, h: nat) {
    h == 0 || (InTree(c, b, r, h / 0x1000) && HasEntry(c, h / 0x1000))
  }

  lemma {:induction false} TreeHighestFrom(c: Memory, b: Move, r: nat, n: nat)
    requires TreeLands(c, b, r) && n <= 512
    ensures FromTree(c, b, r, TreeHighest(c, b, r, n))
  {
    if n > 0 {
      TreeHighestFrom(c, b, r, n - 1);
      TreeRebasedIs(c, b, r, n - 1);
      TreeFromStep(c, TreeRebased(c, b, r, n - 1), b, r, n - 1);
    }
  }

  lemma TreeFromStep(c: Memory, p: Memory, b: Move, r: nat, n: nat)
    requires TreeLands(c, b, r) && n < 512 && p == TreeRebased(c, b, r, n) && TreeMoved(c, p, b, r, n)
    requires FromTree(c, b, r, TreeHighest(c, b, r, n))
    ensures FromTree(c, b, r, TreeHighest(c, b, r, n + 1))
  {
    hide MovedPdp, PdpHighest, TreeRebased, InPdp, PdpLands, PdsLand, HasEntry;
    var w, h := Load(c, r, n), TreeHighest(c, b, r, n);
    assert w == Load(p, r, n);
    if Present(w) {
      var t := b.To(FrameOf(w));
      var s := Store(p, r, n, Rebased(w, b));
      var h2 := Words.Max(h, EntryAddress(r, n));
      RebasedIs(w, b);
      SameBelow(c, p, b, r, n, Rebased(w, b));
      PdpHighestFrom(s, b, t, 512, h2);
      RootAddress(r, n);
      HereIsEntry(c, r, n);
      var h3 := PdpHighest(s, b, t, 512, h2);
      if h3 != h2 {
        SameInPdp(c, s, b, r, t, h3 / 0x1000);
      }
    }
  }

  lemma HereIsEntry(m: Memory, t: nat, j: nat)
    requires j < 512 && Present(Load(m, t, j))
    ensures HasEntry(m, t)
  {
  }

  lemma SameInPdp(c: Memory, s: Memory, b: Move, r: nat, t: nat, u: nat)
    requires Untouched(c, s, b, r, t) && InPdp(s, b, t, u) && HasEntry(s, u)
    ensures InPdp(c, b, t, u) && HasEntry(c, u)
  {
    if u == t {
      SameEntries(s, t, c, t);
    } else {
      var j: nat :| j < 512 && Present(Load(s, t, j)) && !Large(Load(s, t, j)) && u == b.To(FrameOf(Load(s, t, j)));
      assert Load(c, t, j) == Load(s, t, j);
      SameEntries(s, u, c, u);
    }
  }

  /** A table of the first three levels of which some entry is present. */
  ghost predicate TableWithEntry(m: Memory, root: nat, d: nat, q: nat) {
    d <= 2 && IsPath(d, q) && Walk(m, root, d, q).Table? && HasEntry(m, Walk(m, root, d, q).frame)
  }

  lemma InTreeIs(m: Memory, b: Move, root: nat, u: nat) returns (d: nat, q: nat)
    requires Movable(m, b, root)
    requires InTree(Copied(m, b, 512 * b.count), b, b.To(root), u) && HasEntry(Copied(m, b, 512 * b.count), u)
    ensures TableWithEntry(m, root, d, q) && b.To(Walk(m, root, d, q).frame) == u
  {
    hide Copied, HasEntry;
    var c, r := Copied(m, b, 512 * b.count), b.To(root);
    PrefixIs(0);
    if u == r {
      d, q := 0, 0;
    } else {
      var i: nat :| i < 512 && Present(Load(c, r, i)) && InPdp(c, b, b.To(FrameOf(Load(c, r, i))), u);
      CopyOfRegion(m, b, root, i);
      FirstLevel(m, root, i);
      var g := Walk(m, root, 1, i).frame;
      if u == b.To(g) {
        d, q := 1, i;
      } else {
        var j: nat :| j < 512 && Present(Load(c, b.To(g), j)) && !Large(Load(c, b.To(g), j)) && u == b.To(FrameOf(Load(c, b.To(g), j)));
        CopyOfRegion(m, b, g, j);
        PdpPath(m, root, i, j);
        d, q := 2, 512 * i + j;
      }
    }
    assert Walk(m, root, d, q).Table?;
    var t := Walk(m, root, d, q).frame;
    assert b.Has(t);
    forall j: nat | j < 512 ensures Load(c, u, j) == Load(m, t, j) {
      CopyOfRegion(m, b, t, j);
    }
    SameEntries(c, u, m, t);
  }

  /** The next available page is the first past all tables with an entry in use. */
  lemma NextAvailableIsFirst(m: Memory, b: Move, root: nat, x: nat)
    requires Movable(m, b, root) && HasEntry(m, root)
    ensures NextAvailable(m, b, root) <= x <==>
              forall d: nat, q: nat | TableWithEntry(m, root, d, q) :: b.To(Walk(m, root, d, q).frame) < x
  {
    hide Copied, Movable, TreeLands, TreeTopped, Walk, HasEntry, InTree;
    ScanCoversTables(m, b, root);
    if NextAvailable(m, b, root) > x {
      var d, q := LastTable(m, b, root);
      assert !(b.To(Walk(m, root, d, q).frame) < x);
    }
  }

  lemma LastTable(m: Memory, b: Move, root: nat) returns (d: nat, q: nat)
    requires Movable(m, b, root) && HasEntry(m, root)
    ensures TableWithEntry(m, root, d, q) && NextAvailable(m, b, root) == b.To(Walk(m, root, d, q).frame) + 1
  {
    hide Copied, Movable, TreeLands, TreeTopped, HasEntry, InTree;
    var c, r := Copied(m, b, 512 * b.count), b.To(root);
    MovableLands(m, b, root);
    MovableRoot(m, b, root);
    TreeHighestFrom(c, b, r, 512);
    var h := TreeHighest(c, b, r, 512);
    if h == 0 {
      PrefixIs(0);
      ScanCoversTables(m, b, root);
      d, q := 0, 0;
      assert Walk(m, root, 0, 0) == Table(root);
    } else {
      d, q := InTreeIs(m, b, root, h / 0x1000);
    }
  }
}
