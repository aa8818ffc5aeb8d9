/**
 How many tables are missing on the way to a number of consecutive pages, and
 how that grows as they are mapped one after the other.
 */
module TableCounts {
  import opened Addresses
  import opened PageTables
  import opened Mapping
  import opened Paging

  /** Path (d, q) leads to one of the n pages from `first`. */
  predicate OnTheWay(first: nat, n: nat, d: nat, q: nat)
    requires d <= 4
  {
    n > 0 && Prefix(first, d) <= q <= Prefix(first + n - 1, d)
  }

  ghost function AbsentBetween(m: Memory, root: nat, d: nat, lo: nat, hi: nat): set<nat> {
    set q | lo <= q <= hi && Walk(m, root, d, q) == Absent
  }

  /** The tables of depth d that the n pages from `first` need and do not have. */
  ghost function AbsentTables(m: Memory, root: nat, first: nat, n: nat, d: nat): set<nat>
    requires 1 <= d <= 3
  {
    if n == 0 then {} else AbsentBetween(m, root, d, Prefix(first, d), Prefix(first + n - 1, d))
  }

  ghost function Needed(m: Memory, root: nat, first: nat, n: nat): nat {
    |AbsentTables(m, root, first, n, 1)| + |AbsentTables(m, root, first, n, 2)| + |AbsentTables(m, root, first, n, 3)|
  }

  // ---------------------------------------------------------------------------
  // Counting
  // ---------------------------------------------------------------------------

  lemma NextPrefix(page: nat, d: nat)
    requires d <= 4
    ensures Prefix(page, d) <= Prefix(page + 1, d) <= Prefix(page, d) + 1
  {
    PrefixIs(page);
    PrefixIs(page + 1);
  }

  lemma {:induction false} PrefixGrows(first: nat, n: nat, d: nat)
    requires d <= 4
    ensures Prefix(first, d) <= Prefix(first + n, d)
  {
    if n > 0 {
      PrefixGrows(first, n - 1, d);
      NextPrefix(first + n - 1, d);
    }
  }

  lemma OneMoreAbsent(m: Memory, root: nat, d: nat, lo: nat, hi: nat, x: nat)
    requires lo <= hi && hi <= x <= hi + 1
    ensures |AbsentBetween(m, root, d, lo, x)| == |AbsentBetween(m, root, d, lo, hi)|
              + if x == hi + 1 && Walk(m, root, d, x) == Absent then 1 else 0
  {
    hide Walk;
    var before, after := AbsentBetween(m, root, d, lo, hi), AbsentBetween(m, root, d, lo, x);
    if x == hi + 1 && Walk(m, root, d, x) == Absent {
      assert after == before + {x} && x !in before;
    } else {
      assert after == before;
    }
  }

  lemma FirstAbsent(m: Memory, root: nat, d: nat, x: nat)
    ensures |AbsentBetween(m, root, d, x, x)| == if Walk(m, root, d, x) == Absent then 1 else 0
  {
    hide Walk;
    assert AbsentBetween(m, root, d, x, x) == if Walk(m, root, d, x) == Absent then {x} else {};
  }

  /** The next page needs one table more at depth d just when its prefix is new
      and nothing is there. */
  lemma OneMoreTable(m: Memory, root: nat, first: nat, n: nat, d: nat)
    requires 1 <= d <= 3
    ensures var x := Prefix(first + n, d);
            |AbsentTables(m, root, first, n + 1, d)| == |AbsentTables(m, root, first, n, d)|
              + if !OnTheWay(first, n, d, x) && Walk(m, root, d, x) == Absent then 1 else 0
    ensures forall q: nat :: OnTheWay(first, n + 1, d, q) <==> OnTheWay(first, n, d, q) || q == Prefix(first + n, d)
  {
    hide Walk, Prefix, AbsentBetween;
    var x := Prefix(first + n, d);
    PrefixGrows(first, n, d);
    if n > 0 {
      PrefixGrows(first, n - 1, d);
      NextPrefix(first + n - 1, d);
      OneMoreAbsent(m, root, d, Prefix(first, d), Prefix(first + n - 1, d), x);
    } else {
      FirstAbsent(m, root, d, x);
    }
  }

  lemma {:induction false} RangeSize(s: set<nat>, lo: nat, n: nat)
    requires forall q | q in s :: lo <= q < lo + n
    ensures |s| <= n
    decreases n
  {
    if n > 0 {
      var last := lo + n - 1;
      RangeSize(s - {last}, lo, n - 1);
      assert |s - {last}| >= |s| - 1 by {
        if last in s {
          assert s == (s - {last}) + {last};
        } else {
          assert s == s - {last};
        }
      }
    } else {
      assert forall q :: q !in s;
      assert s == {};
    }
  }

  function CeilDiv(n: nat, k: nat): nat
    requires k > 0
  {
    (n + k - 1) / k
  }

  /** At most one table per 512 pages of each level, and one more. */
  lemma NeededBound(m: Memory, root: nat, first: nat, n: nat)
    requires n > 0
    ensures Needed(m, root, first, n) <= (CeilDiv(n, 0x200) + 1) + (CeilDiv(n, 0x4_0000) + 1) + (CeilDiv(n, 0x800_0000) + 1)
  {
    var last := first + n - 1;
    PrefixIs(first);
    PrefixIs(last);
    RangeSize(AbsentTables(m, root, first, n, 3), Prefix(first, 3), CeilDiv(n, 0x200) + 1);
    assert first / 512 / 512 == first / 0x4_0000 && last / 512 / 512 == last / 0x4_0000;
    RangeSize(AbsentTables(m, root, first, n, 2), Prefix(first, 2), CeilDiv(n, 0x4_0000) + 1);
    assert first / 512 / 512 / 512 == first / 0x800_0000 && last / 512 / 512 / 512 == last / 0x800_0000;
    RangeSize(AbsentTables(m, root, first, n, 1), Prefix(first, 1), CeilDiv(n, 0x800_0000) + 1);
  }

  lemma {:induction false} NeededGrows(m: Memory, root: nat, first: nat, n: nat, k: nat)
    requires n <= k
    ensures Needed(m, root, first, n) <= Needed(m, root, first, k)
    decreases k
  {
    hide AbsentTables, Walk, OnTheWay, Prefix;
    if n < k {
      NeededGrows(m, root, first, n, k - 1);
      OneMoreTable(m, root, first, k - 1, 1);
      OneMoreTable(m, root, first, k - 1, 2);
      OneMoreTable(m, root, first, k - 1, 3);
    }
  }

  // ---------------------------------------------------------------------------
  // While the pages are being mapped
  // ---------------------------------------------------------------------------

  /** Tables: on the way to the n pages all are there, elsewhere nothing changed. */
  ghost predicate TablesThere(m: Memory, m': Memory, root: nat, first: nat, n: nat) {
    forall d: nat, q: nat | 1 <= d <= 3 && IsPath(d, q) ::
      if OnTheWay(first, n, d, q) && Walk(m, root, d, q) == Absent then Walk(m', root, d, q).Table?
      else Walk(m', root, d, q) == Walk(m, root, d, q) && (OnTheWay(first, n, d, q) ==> Walk(m', root, d, q).Table?)
  }

  /** The tables missing on the way to the next page are those that no page before it needed. */
  lemma MissingNext(m: Memory, m1: Memory, root: nat, first: nat, n: nat)
    requires TablesThere(m, m1, root, first, n) && first + n < PAGES
    ensures Missing(m1, root, first + n, 0) == Needed(m, root, first, n + 1) - Needed(m, root, first, n)
  {
    hide Walk, AbsentTables, OnTheWay, Span, Prefix;
    var page := first + n;
    MissingIs(m1, root, page);
    forall d | 1 <= d <= 3
      ensures Walk(m1, root, d, Prefix(page, d)) == Absent <==>
                !OnTheWay(first, n, d, Prefix(page, d)) && Walk(m, root, d, Prefix(page, d)) == Absent
    {
      PrefixIsPath(page, d);
    }
    OneMoreTable(m, root, first, n, 1);
    OneMoreTable(m, root, first, n, 2);
    OneMoreTable(m, root, first, n, 3);
  }

  lemma MissingIs(m: Memory, root: nat, page: nat)
    ensures Missing(m, root, page, 0) ==
              (if Walk(m, root, 1, Prefix(page, 1)) == Absent then 1 else 0)
              + (if Walk(m, root, 2, Prefix(page, 2)) == Absent then 1 else 0)
              + (if Walk(m, root, 3, Prefix(page, 3)) == Absent then 1 else 0)
  {
    hide Walk, Prefix;
    assert Missing(m, root, page, 2) == if Walk(m, root, 3, Prefix(page, 3)) == Absent then 1 else 0;
    assert Missing(m, root, page, 1) == Missing(m, root, page, 2) + if Walk(m, root, 2, Prefix(page, 2)) == Absent then 1 else 0;
  }

  lemma TablesNext(m: Memory, m1: Memory, m2: Memory, root: nat, first: nat, n: nat)
    requires TablesThere(m, m1, root, first, n) && first + n < PAGES
    requires GrowsAlong(m1, m2, root, first + n) && HasTables(m2, root, first + n)
    ensures TablesThere(m, m2, root, first, n + 1)
  {
    forall d: nat, q: nat | 1 <= d <= 3 && IsPath(d, q)
      ensures if OnTheWay(first, n + 1, d, q) && Walk(m, root, d, q) == Absent then Walk(m2, root, d, q).Table?
        else Walk(m2, root, d, q) == Walk(m, root, d, q) && (OnTheWay(first, n + 1, d, q) ==> Walk(m2, root, d, q).Table?)
    {
      OneTableNext(m, m1, m2, root, first, n, d, q);
    }
  }

  lemma OneTableNext(m: Memory, m1: Memory, m2: Memory, root: nat, first: nat, n: nat, d: nat, q: nat)
    requires TablesThere(m, m1, root, first, n) && first + n < PAGES && 1 <= d <= 3 && IsPath(d, q)
    requires GrowsAlong(m1, m2, root, first + n) && HasTables(m2, root, first + n)
    ensures if OnTheWay(first, n + 1, d, q) && Walk(m, root, d, q) == Absent then Walk(m2, root, d, q).Table?
      else Walk(m2, root, d, q) == Walk(m, root, d, q) && (OnTheWay(first, n + 1, d, q) ==> Walk(m2, root, d, q).Table?)
  {
    hide Walk, OnTheWay, Span, Prefix, AbsentTables;
    OneMoreTable(m, root, first, n, d);
    assert Walk(m2, root, d, Prefix(first + n, d)).Table?;
  }
}
