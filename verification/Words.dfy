/**
 The 64-bit words of the two allocation bitmaps. A word is the sequence of its
 bits, index k standing for 2^k, so that `word & (1 << k)` is an index and
 `word ^ (1 << k)` an update. The comparison with INT64_MAX, by which both scan
 loops decide whether to look into a word, is on the word's value.
 */
module Words {

  const WORD: nat := 0x1_0000_0000_0000_0000

  function Max(x: nat, y: nat): nat { if x < y then y else x }

  type Word64 = s: seq<bool> | |s| == 64 witness seq(64, _ => false)

  function Pow2(k: nat): (r: nat)
    ensures r > 0
  {
    if k == 0 then 1 else 2 * Pow2(k - 1)
  }

  const INT64_MAX: nat := Pow2(63) - 1

  /** The number that a sequence of bits denotes, least significant bit first. */
  function Value(s: seq<bool>): nat {
    if s == [] then 0
    else Value(s[..|s| - 1]) + if s[|s| - 1] then Pow2(|s| - 1) else 0
  }

  /** The guard of both scan loops: `word < INT64_MAX`. */
  predicate HasRoom(w: Word64) {
    Value(w) < INT64_MAX
  }

  /** The offset at which `for (offset = 63; offset >= 0; offset--)` finds a
      clear bit, or -1. */
  function TopClear(s: seq<bool>): int {
    if s == [] then -1
    else if !s[|s| - 1] then |s| - 1
    else TopClear(s[..|s| - 1])
  }

  lemma {:induction false} ValueBound(s: seq<bool>)
    ensures Value(s) < Pow2(|s|)
    ensures Value(s) == Pow2(|s|) - 1 <==> forall k | 0 <= k < |s| :: s[k]
  {
    if s != [] {
      var t := s[..|s| - 1];
      ValueBound(t);
      assert (forall k | 0 <= k < |s| :: s[k]) <==> (s[|s| - 1] && forall k | 0 <= k < |t| :: t[k]) by {
        if forall k | 0 <= k < |s| :: s[k] {
          assert forall k | 0 <= k < |t| :: t[k] == s[k];
        }
        if s[|s| - 1] && forall k | 0 <= k < |t| :: t[k] {
          assert forall k | 0 <= k < |t| :: t[k] == s[k];
        }
      }
    }
  }

  /** A word passes the guard exactly when its top bit is clear and some lower
      bit is clear too: the guard is not "some bit is clear". */
  lemma RoomIff(w: Word64)
    ensures HasRoom(w) <==> !w[63] && exists k :: 0 <= k < 63 && !w[k]
  {
    var t := w[..63];
    ValueBound(t);
    assert (forall k | 0 <= k < 63 :: t[k]) <==> (forall k | 0 <= k < 63 :: w[k]) by {
      assert forall k | 0 <= k < 63 :: t[k] == w[k];
    }
  }

  lemma {:induction false} TopClearIs(s: seq<bool>)
    ensures -1 <= TopClear(s) < |s|
    ensures TopClear(s) >= 0 ==> !s[TopClear(s)]
    ensures forall k | TopClear(s) < k < |s| :: s[k]
  {
    if s != [] && s[|s| - 1] {
      var t := s[..|s| - 1];
      TopClearIs(t);
      assert forall k | TopClear(t) < k < |t| :: t[k] == s[k];
    }
  }

  /** Hence the only bit a guarded scan ever picks is bit 63. */
  lemma RoomPicksTopBit(w: Word64)
    requires HasRoom(w)
    ensures TopClear(w) == 63
  {
    RoomIff(w);
  }

  /** The inner loop of both scans. */
  method ScanDown(w: Word64) returns (offset: int)
    ensures offset == TopClear(w)
  {
    offset := 63;
    assert w[..64] == w;
    while offset >= 0
      invariant -1 <= offset <= 63
      invariant TopClear(w[..offset + 1]) == TopClear(w)
    {
      assert w[..offset + 1][..offset] == w[..offset];
      if !w[offset] {
        return;
      }
      offset := offset - 1;
    }
  }
}
