/**
 The address macros. Addresses and table words are natural numbers below 2^64.
 A mask followed by a shift selects a field, which is written here as a
 quotient and a remainder; the first group of lemmas shows, on 64-bit vectors,
 that the mask expressions of the header select exactly these fields.
 */
module Addresses {

  const PAGES: nat := 0x10_0000_0000       // 2^36 pages of 48-bit addresses
  const HIGH_HALF: nat := 0xFFFF_0000_0000_0000

  function Pml4Index(va: nat): nat { va / 0x80_0000_0000 % 512 }

  function PdpIndex(va: nat): nat { va / 0x4000_0000 % 512 }

  function PdIndex(va: nat): nat { va / 0x20_0000 % 512 }

  function PtIndex(va: nat): nat { va / 0x1000 % 512 }

  function OffsetsToAddr(pml4: nat, pdp: nat, pd: nat, pt: nat): nat {
    (if pml4 / 0x100 % 2 == 1 then HIGH_HALF else 0)
    + pml4 * 0x80_0000_0000 + pdp * 0x4000_0000 + pd * 0x20_0000 + pt * 0x1000
  }

  /** The number of the page that the hardware walks to for `va`. */
  function Page(va: nat): nat { va / 0x1000 % PAGES }

  /** Bits 48 to 63 repeat bit 47. */
  predicate Canonical(va: nat) {
    va < 0x8000_0000_0000 || 0xFFFF_8000_0000_0000 <= va < 0x1_0000_0000_0000_0000
  }

  /** The canonical address of a page. */
  function AddressOf(page: nat): nat {
    page * 0x1000 + if page < PAGES / 2 then 0 else HIGH_HALF
  }

  // ---------------------------------------------------------------------------
  // The masks, on 64-bit vectors
  // ---------------------------------------------------------------------------

  lemma IndexMasks(x: bv64)
    ensures (x & 0x0000_ff80_0000_0000) >> 39 == x / 0x80_0000_0000 % 512
    ensures (x & 0x0000_007f_c000_0000) >> 30 == x / 0x4000_0000 % 512
    ensures (x & 0x0000_0000_3fe0_0000) >> 21 == x / 0x20_0000 % 512
    ensures (x & 0x0000_0000_001f_f000) >> 12 == x / 0x1000 % 512
  {
  }

  /** The fields of an entry. */
  lemma EntryMasks(w: bv64)
    ensures w & 0x000F_FFFF_FFFF_F000 == w / 0x1000 % 0x100_0000_0000 * 0x1000
    ensures (w & 1 != 0) == (w % 2 == 1) && (w & 0x80 != 0) == (w / 0x80 % 2 == 1)
  {
  }

  /** What is left of an entry without them. */
  lemma EntryRemainders(w: bv64)
    ensures w & !0x000F_FFFF_FFFF_F000 == w - (w & 0x000F_FFFF_FFFF_F000)
    ensures w & !1 == w - w % 2
  {
  }

  /** Setting the address field, and nothing else: `|` is addition wherever
      the code uses it. */
  lemma EntryUpdates(w: bv64, a: bv64)
    requires a & 0x000F_FFFF_FFFF_F000 == a
    ensures (7 | a) & 0x000F_FFFF_FFFF_F000 == a && (7 | a) & !0x000F_FFFF_FFFF_F000 == 7
    ensures (3 | a) & 0x000F_FFFF_FFFF_F000 == a && (3 | a) & !0x000F_FFFF_FFFF_F000 == 3
    ensures ((w & !0x000F_FFFF_FFFF_F000) | a) & 0x000F_FFFF_FFFF_F000 == a
    ensures ((w & !0x000F_FFFF_FFFF_F000) | a) & !0x000F_FFFF_FFFF_F000 == w & !0x000F_FFFF_FFFF_F000
  {
  }

  /** OFFSETS_TO_ADDR adds its fields up. */
  lemma AddressFields(i4: bv64, i3: bv64, i2: bv64, i1: bv64)
    requires i4 < 512 && i3 < 512 && i2 < 512 && i1 < 512
    ensures (i4 << 39) | (i3 << 30) | (i2 << 21) | (i1 << 12) == (i4 << 39) + (i3 << 30) + (i2 << 21) + (i1 << 12)
    ensures ((0xffff as bv64) << 48) | (i4 << 39) == ((0xffff as bv64) << 48) + (i4 << 39)
    ensures (i4 & 0x100 != 0) == (i4 / 0x100 % 2 == 1)
  {
  }

  // ---------------------------------------------------------------------------
  // Extractors and OFFSETS_TO_ADDR are mutually inverse
  // ---------------------------------------------------------------------------

  lemma IndicesOfAddress(i4: nat, i3: nat, i2: nat, i1: nat)
    requires i4 < 512 && i3 < 512 && i2 < 512 && i1 < 512
    ensures var va := OffsetsToAddr(i4, i3, i2, i1);
            && Canonical(va) && va % 0x1000 == 0
            && Pml4Index(va) == i4 && PdpIndex(va) == i3 && PdIndex(va) == i2 && PtIndex(va) == i1
            && Page(va) == ((i4 * 512 + i3) * 512 + i2) * 512 + i1 && AddressOf(Page(va)) == va
  {
    var page := ((i4 * 512 + i3) * 512 + i2) * 512 + i1;
    var va := OffsetsToAddr(i4, i3, i2, i1);
    assert va == AddressOf(page);
    PageOfAddress(page);
    PageDigits(va);
  }

  lemma PageOfAddress(page: nat)
    requires page < PAGES
    ensures Canonical(AddressOf(page)) && AddressOf(page) % 0x1000 == 0 && Page(AddressOf(page)) == page
  {
    if page >= PAGES / 2 {
      assert AddressOf(page) == 0x1000 * (page + 0xFFFF * PAGES);
    }
  }

  lemma AddressOfPage(va: nat)
    requires Canonical(va) && va % 0x1000 == 0
    ensures Page(va) < PAGES && AddressOf(Page(va)) == va
  {
    if va >= 0x8000_0000_0000 {
      HighPage(va);
      assert va - HIGH_HALF == 0x1000 * ((va - HIGH_HALF) / 0x1000);
    } else {
      SmallPage(va / 0x1000);
    }
  }

  lemma SmallPage(n: nat)
    requires n < PAGES
    ensures n % PAGES == n
  {
  }

  /** Addresses in the high half lie 16 bits of ones above their 48-bit part. */
  lemma HighPage(x: nat)
    requires HIGH_HALF <= x < 0x1_0000_0000_0000_0000
    ensures Page(x) == (x - HIGH_HALF) / 0x1000 < PAGES
  {
    var y := x - HIGH_HALF;
    assert x == y + 0xFFFF * PAGES * 0x1000;
    PagesOn(y, 0xFFFF * PAGES);
    PageField(y / 0x1000);
  }

  lemma PagesOn(y: nat, n: nat)
    ensures (y + n * 0x1000) / 0x1000 == y / 0x1000 + n
  {
  }

  lemma PageField(x: nat)
    requires x < PAGES
    ensures (0xFFFF * PAGES + x) % PAGES == x
  {
  }

  /** The four indices are the digits of the page number. */
  lemma PageDigits(va: nat)
    ensures PtIndex(va) == Page(va) % 512
    ensures PdIndex(va) == Page(va) / 512 % 512
    ensures PdpIndex(va) == Page(va) / 512 / 512 % 512
    ensures Pml4Index(va) == Page(va) / 512 / 512 / 512
  {
    var n, h, p := va / 0x1000, va / 0x1000 / PAGES, Page(va);
    assert n == PAGES * h + p;
    assert va / 0x20_0000 == n / 512 == 0x800_0000 * h + p / 512;
    assert va / 0x4000_0000 == n / 512 / 512 == 0x4_0000 * h + p / 512 / 512;
    assert va / 0x80_0000_0000 == n / 512 / 512 / 512 == 512 * h + p / 512 / 512 / 512;
  }

  lemma AddressOfIndices(va: nat)
    requires Canonical(va) && va % 0x1000 == 0
    ensures OffsetsToAddr(Pml4Index(va), PdpIndex(va), PdIndex(va), PtIndex(va)) == va
  {
    PageDigits(va);
    AddressOfPage(va);
    var i4, i3, i2, i1 := Pml4Index(va), PdpIndex(va), PdIndex(va), PtIndex(va);
    Digits(Page(va));
    assert i4 / 0x100 % 2 == 1 <==> Page(va) >= PAGES / 2;
  }

  lemma Digits(p: nat)
    ensures p == p / 512 / 512 / 512 * 0x800_0000 + p / 512 / 512 % 512 * 0x4_0000 + p / 512 % 512 * 512 + p % 512
  {
    assert p / 512 == p / 512 / 512 * 512 + p / 512 % 512;
    assert p / 512 / 512 == p / 512 / 512 / 512 * 512 + p / 512 / 512 % 512;
  }

  /** Adding 0x1000 carries across the indices: it counts pages, and stays
      canonical except at the end of either half. */
  lemma NextPage(va: nat)
    requires Canonical(va) && va % 0x1000 == 0
    ensures Canonical(va + 0x1000) <==> Page(va) != PAGES / 2 - 1 && Page(va) != PAGES - 1
    ensures Canonical(va + 0x1000) ==> Page(va + 0x1000) == Page(va) + 1
  {
    if va >= 0x8000_0000_0000 {
      HighPage(va);
      var y := (va - HIGH_HALF) / 0x1000;
      assert va == HIGH_HALF + 0x1000 * y;
      PagesOn(va - HIGH_HALF, 1);
      if y + 1 < PAGES {
        HighPage(va + 0x1000);
      }
    } else {
      var n := va / 0x1000;
      assert va == 0x1000 * n;
      PagesOn(va, 1);
      SmallPage(n);
      SmallPage(n + 1);
    }
  }

  /** The i-th page after `va` within 48 bits. */
  lemma PageAfter(va: nat, i: nat)
    requires Page(va) + i < PAGES
    ensures Page(va + i * 0x1000) == Page(va) + i
  {
    assert (va + i * 0x1000) / 0x1000 == va / 0x1000 + i;
  }
}
