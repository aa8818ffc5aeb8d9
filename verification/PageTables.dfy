/**
 Four-level page tables in physical memory and the walk through them (Intel SDM
 Vol. 3A, section 4.5). A path is a depth 0..4 and the leading base-512 digits
 of a page number: depth 0 is the PML4 itself, 1 a PDP, 2 a PD, 3 a PT and 4 the
 mapped page.
 */
module PageTables {
  import opened Options
  import opened Addresses

  datatype Slot = Slot(frame: nat, index: nat)

  /** Physical memory, 512 words to a frame. Where there is no memory, zero is read. */
  type Memory = map<Slot, nat>

  function Load(m: Memory, f: nat, i: nat): nat {
    if Slot(f, i) in m then m[Slot(f, i)] else 0
  }

  function Store(m: Memory, f: nat, i: nat, w: nat): Memory {
    m[Slot(f, i) := w]
  }

  predicate Present(w: nat) { w % 2 == 1 }

  predicate Large(w: nat) { w / 0x80 % 2 == 1 }

  /** `w & ADDR_MASK`, as a frame number. */
  function FrameOf(w: nat): nat { w / 0x1000 % 0x100_0000_0000 }

  function Entry(flags: nat, frame: nat): nat { flags + 0x1000 * frame }

  /** An entry taken apart: bits 52 and up, the frame, the flags. */
  lemma Fields(h: nat, f: nat, l: nat)
    requires f < 0x100_0000_0000 && l < 0x1000
    ensures var w := 0x10_0000_0000_0000 * h + 0x1000 * f + l;
            FrameOf(w) == f && Present(w) == (l % 2 == 1) && Large(w) == (l / 0x80 % 2 == 1)
  {
    var w := 0x10_0000_0000_0000 * h + 0x1000 * f + l;
    assert w / 0x1000 == 0x100_0000_0000 * h + f;
    FrameField(h, f);
    EvenPart(0x8_0000_0000_0000 * h + 0x800 * f, l);
    assert w / 0x80 == 2 * (0x1000_0000_0000 * h + 0x10 * f) + l / 0x80;
    EvenPart(0x1000_0000_0000 * h + 0x10 * f, l / 0x80);
  }

  lemma FrameField(h: nat, f: nat)
    requires f < 0x100_0000_0000
    ensures (0x100_0000_0000 * h + f) % 0x100_0000_0000 == f
  {
  }

  lemma EvenPart(x: nat, l: nat)
    ensures (2 * x + l) % 2 == l % 2
  {
  }

  datatype Step = Absent | Table(frame: nat) | Huge(frame: nat, depth: nat)

  /** What the entry `w`, read at depth d - 1, leads to. */
  function Follow(w: nat, d: nat): Step {
    if !Present(w) then Absent
    else if (d == 2 || d == 3) && Large(w) then Huge(FrameOf(w), d)
    else Table(FrameOf(w))
  }

  /** One level down from p, through entry i of its table, to depth d. */
  function Descend(m: Memory, p: Step, i: nat, d: nat): Step {
    match p
    case Table(t) => Follow(Load(m, t, i), d)
    case other => other
  }

  function Walk(m: Memory, root: nat, d: nat, q: nat): Step {
    if d == 0 then Table(root) else Descend(m, Walk(m, root, d - 1, q / 512), q % 512, d)
  }

  /** The frame a page is mapped to, through 4 KiB, 2 MiB or 1 GiB entries. */
  function Translate(m: Memory, root: nat, page: nat): Option<nat> {
    match Walk(m, root, 4, page)
    case Absent => None
    case Table(f) => Some(f)
    case Huge(f, d) => if d == 2 then Some(f - f % 0x4_0000 + page % 0x4_0000) else Some(f - f % 512 + page % 512)
  }

  function Span(d: nat): nat {
    if d == 0 then 1 else 512 * Span(d - 1)
  }

  /** The first d digits of a page number. */
  function Prefix(page: nat, d: nat): nat
    requires d <= 4
    decreases 4 - d
  {
    if d == 4 then page else Prefix(page, d + 1) / 512
  }

  predicate IsPath(d: nat, q: nat) {
    d <= 4 && q < Span(d)
  }

  /** Whether the path starts in one of the PML4 slots `v`. */
  predicate Managed(v: set<nat>, d: nat, q: nat)
  {
    d == 0 || (if d == 1 then q in v else Managed(v, d - 1, q / 512))
  }

  // ---------------------------------------------------------------------------
  // Invariants of a tree
  // ---------------------------------------------------------------------------

  /** The paths whose frames are told apart: all tables, and with `leaves` the
      pages mapped in the managed slots as well. */
  predicate Counted(v: set<nat>, leaves: bool, d: nat, q: nat) {
    IsPath(d, q) && (d <= 3 || (leaves && Managed(v, d, q)))
  }

  /** No other counted path ends at the frame of this one. */
  ghost predicate Unique(m: Memory, root: nat, v: set<nat>, leaves: bool, d: nat, q: nat) {
    Walk(m, root, d, q).Table? ==>
      forall e, r | Counted(v, leaves, e, r) && (e != d || r != q) :: Walk(m, root, e, r) != Walk(m, root, d, q)
  }

  /** The tables under the managed slots are shared with no other path, whatever
      sharing (as in the mirror of physical memory) there is elsewhere. */
  ghost predicate Private(m: Memory, root: nat, v: set<nat>, leaves: bool) {
    forall d, q | Counted(v, leaves, d, q) && Managed(v, d, q) :: Unique(m, root, v, leaves, d, q)
  }

  ghost predicate NoHuge(m: Memory, root: nat, v: set<nat>) {
    forall d, q | IsPath(d, q) && Managed(v, d, q) :: !Walk(m, root, d, q).Huge?
  }

  /** No counted path ends at frame z. */
  ghost predicate Unreached(m: Memory, root: nat, v: set<nat>, leaves: bool, z: nat) {
    forall d, q | Counted(v, leaves, d, q) :: Walk(m, root, d, q) != Table(z)
  }

  // ---------------------------------------------------------------------------
  // Writing one entry
  // ---------------------------------------------------------------------------

  /** m' is m with word i of frame t set to w and, if there is one, frame z cleared. */
  ghost predicate Wrote(m: Memory, m': Memory, t: nat, i: nat, w: nat, z: Option<nat>) {
    forall f: nat, j: nat | j < 512 ::
      Load(m', f, j) == if f == t && j == i then w else if z == Some(f) then 0 else Load(m, f, j)
  }

  /** Path (d, x) is the only one of depth at most 3 that ends at table t. */
  ghost predicate OnlyAt(m: Memory, root: nat, t: nat, d: nat, x: nat) {
    forall e: nat, r: nat | e <= 3 && IsPath(e, r) && Walk(m, root, e, r) == Table(t) :: e == d && r == x
  }

  /** No path of depth at most 3 ends at frame z. */
  ghost predicate NowhereTable(m: Memory, root: nat, z: nat) {
    forall e: nat, r: nat | e <= 3 && IsPath(e, r) :: Walk(m, root, e, r) != Table(z)
  }

  /** A path is one digit longer than its parent's. */
  lemma ParentIsPath(d: nat, q: nat)
    requires d > 0 && IsPath(d, q)
    ensures IsPath(d - 1, q / 512)
  {
  }

  lemma DescendSame(m: Memory, m': Memory, t: nat, i: nat, w: nat, z: Option<nat>, p: Step, j: nat, d: nat)
    requires Wrote(m, m', t, i, w, z) && j < 512
    requires p.Table? ==> z != Some(p.frame) && (p.frame != t || j != i)
    ensures Descend(m', p, j, d) == Descend(m, p, j, d)
  {
    if p.Table? {
      assert Load(m', p.frame, j) == Load(m, p.frame, j);
    }
  }

  /** What writing word x % 512 of table t at depth d - 1 must respect for one
      path to change only: the table is reached by the parent of (d, x) alone,
      and the entry is a last-level one, or was absent and comes to lead to a
      cleared frame that nothing reached before. */
  ghost predicate SafeWrite(m: Memory, m': Memory, root: nat, t: nat, d: nat, x: nat, w: nat, z: Option<nat>) {
    && 1 <= d && IsPath(d, x)
    && Walk(m, root, d - 1, x / 512) == Table(t) && OnlyAt(m, root, t, d - 1, x / 512)
    && Wrote(m, m', t, x % 512, w, z)
    && (if d == 4 then z == None
        else z.Some? && z.value != t && NowhereTable(m, root, z.value)
             && Walk(m, root, d, x) == Absent && Follow(w, d) == Table(z.value))
  }

  /** Such a write changes the walk along (d, x) and along no other path. */
  lemma {:induction false} WriteChangesOnePath(m: Memory, m': Memory, root: nat, t: nat, d: nat, x: nat, w: nat,
        z: Option<nat>, e: nat, r: nat)
    requires SafeWrite(m, m', root, t, d, x, w, z) && IsPath(e, r)
    ensures Walk(m', root, e, r) == if e == d && r == x then Follow(w, d) else Walk(m, root, e, r)
    decreases e
  {
    if e > 0 {
      ParentIsPath(e, r);
      WriteChangesOnePath(m, m', root, t, d, x, w, z, e - 1, r / 512);
      var p := Walk(m, root, e - 1, r / 512);
      if e - 1 == d && r / 512 == x {
        assert Load(m', z.value, r % 512) == 0;
      } else if p == Table(t) && r % 512 == x % 512 {
        assert e == d && r == x;
        assert Load(m', t, x % 512) == w;
      } else {
        DescendSame(m, m', t, x % 512, w, z, p, r % 512, e);
      }
    }
  }

  /** The walk to depth 4 decides the translation. */
  lemma SameWalkSameTranslation(m: Memory, root: nat, m': Memory, root': nat, page: nat)
    requires Walk(m, root, 4, page) == Walk(m', root', 4, page)
    ensures Translate(m, root, page) == Translate(m', root', page)
  {
  }

  lemma PrefixIs(page: nat)
    ensures Prefix(page, 4) == page && Prefix(page, 3) == page / 512
    ensures Prefix(page, 2) == page / 512 / 512 && Prefix(page, 1) == page / 512 / 512 / 512 && Prefix(page, 0) == page / 512 / 512 / 512 / 512
    ensures Span(0) == 1 && Span(1) == 512 && Span(2) == 0x4_0000 && Span(3) == 0x800_0000 && Span(4) == PAGES
  {
    assert Span(2) == 512 * Span(1);
    assert Span(3) == 512 * Span(2);
    assert Span(4) == 512 * Span(3);
  }

  lemma PrefixIsPath(page: nat, d: nat)
    requires page < PAGES && d <= 4
    ensures IsPath(d, Prefix(page, d))
    decreases 4 - d
  {
    PrefixIs(page);
  }
}
