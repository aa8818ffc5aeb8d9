/**
 The digit generators of printf: a power of the base above the number is found
 by multiplying, and then divided down again, one digit a step. Which numbers
 come out right is decided for all 64-bit arguments.
 */
module Numerals {
  import opened Options
  import opened Words

  function Pow(b: nat, k: nat): (r: nat)
    ensures b > 0 ==> r > 0
  {
    if k == 0 then 1 else b * Pow(b, k - 1)
  }

  /** The number that digits denote, most significant first. */
  function Decode(ds: seq<nat>, radix: nat): nat {
    if ds == [] then 0 else ds[0] * Pow(radix, |ds| - 1) + Decode(ds[1..], radix)
  }

  predicate Below(ds: seq<nat>, radix: nat) {
    forall k | 0 <= k < |ds| :: ds[k] < radix
  }

  /** A numeral of num without a superfluous leading digit. */
  predicate Denotes(ds: seq<nat>, radix: nat, num: nat) {
    Below(ds, radix) && Decode(ds, radix) == num && |ds| > 0 && (|ds| > 1 ==> ds[0] > 0)
  }

  /** `while (val > 1) { val /= radix; emit num / val; num %= val; }`; None where
      the program would divide by zero. */
  function Digits(num: nat, val: nat, radix: nat): Option<seq<nat>>
    requires radix >= 2
    decreases val
  {
    if val <= 1 then Some([])
    else
      QuotientSmaller(val, radix);
      var v := val / radix;
      if v == 0 then None
      else
        match Digits(num % v, v, radix)
        case None => None
        case Some(ds) => Some([Quotient(num, v)] + ds)
  }

  function Quotient(x: nat, y: nat): nat
    requires y > 0
  {
    QuotientNat(x, y);
    x / y
  }

  lemma QuotientNat(x: nat, y: nat)
    requires y > 0
    ensures 0 <= x / y
  {
    var q := x / y;
    assert x == y * q + x % y;
    if q < 0 {
      MulMono(q, -1, y);
    }
  }

  lemma DigitsStep(num: nat, val: nat)
    requires val > 1
    ensures var v := val / 10;
            if v == 0 then Digits(num, val, 10).None?
            else Digits(num, val, 10) == match Digits(num % v, v, 10) case None => None case Some(ds) => Some([Quotient(num, v)] + ds)
  {
    hide Quotient;
  }

  // ---------------------------------------------------------------------------
  // Arithmetic
  // ---------------------------------------------------------------------------

  lemma QuotientSmaller(x: nat, y: nat)
    requires x > 0 && y >= 2
    ensures 0 <= x / y < x
  {
    var q := x / y;
    assert x == y * q + x % y;
    MulMono(2, y, q);
  }

  lemma MulMono(a: int, b: int, c: nat)
    requires a <= b
    ensures a * c <= b * c
  {
  }

  lemma DivideDown(radix: nat, v: nat, num: nat)
    requires radix >= 2 && v > 0 && num < radix * v
    ensures (radix * v) / radix == v && radix * v > 1
    ensures num / v < radix && num % v < v && num == num / v * v + num % v
  {
    CancelFactor(radix, v);
    MulMono(2, radix, v);
    QuotientBelow(num, v, radix);
  }

  lemma QuotientBelow(num: nat, v: nat, radix: nat)
    requires v > 0 && num < radix * v
    ensures num / v < radix && num == num / v * v + num % v
  {
    if num / v >= radix {
      MulMono(radix, num / v, v);
    }
  }

  lemma CancelFactor(a: nat, b: nat)
    requires a > 0
    ensures (a * b) / a == b
  {
    var q, r := (a * b) / a, (a * b) % a;
    assert a * b == a * q + r;
    if q < b {
      MulMono(q + 1, b, a);
    } else if q > b {
      MulMono(b + 1, q, a);
    }
  }

  lemma DigitsUnfold(num: nat, v: nat, radix: nat)
    requires radix >= 2 && v > 0 && num < radix * v && Digits(num % v, v, radix).Some?
    ensures Digits(num, radix * v, radix) == Some([Quotient(num, v)] + Digits(num % v, v, radix).value)
  {
    DivideDown(radix, v, num);
  }

  lemma {:induction false} DigitsOfPower(num: nat, k: nat, radix: nat)
    requires radix >= 2 && num < Pow(radix, k)
    ensures var r := Digits(num, Pow(radix, k), radix);
            r.Some? && |r.value| == k && Below(r.value, radix) && Decode(r.value, radix) == num
  {
    hide Digits, Pow, Quotient;
    PowUnfold(radix, k);
    if k == 0 {
      NoDigitsLeft(num, radix);
    } else {
      var v := Pow(radix, k - 1);
      RemainderBelow(num, v);
      DigitsOfPower(num % v, k - 1, radix);
      OneMoreDigit(num, v, k, radix);
    }
  }

  lemma RemainderBelow(x: nat, y: nat)
    requires y > 0
    ensures 0 <= x % y < y
  {
  }

  lemma OneMoreDigit(num: nat, v: nat, k: nat, radix: nat)
    requires k > 0 && radix >= 2 && v > 0 && v == Pow(radix, k - 1) && num < radix * v
    requires var r := Digits(num % v, v, radix);
             r.Some? && |r.value| == k - 1 && Below(r.value, radix) && Decode(r.value, radix) == num % v
    ensures var r := Digits(num, radix * v, radix);
            r.Some? && |r.value| == k && Below(r.value, radix) && Decode(r.value, radix) == num
  {
    hide Digits, Pow, Quotient, Below, Decode;
    DivideDown(radix, v, num);
    DigitsUnfold(num, v, radix);
    DigitInFront(num, v, Digits(num % v, v, radix).value, k - 1, radix);
  }

  lemma PowUnfold(b: nat, k: nat)
    ensures Pow(b, k) == if k == 0 then 1 else b * Pow(b, k - 1)
    ensures b > 0 ==> Pow(b, k) > 0 && (k > 0 ==> Pow(b, k - 1) > 0)
  {
  }

  lemma NoDigitsLeft(num: nat, radix: nat)
    requires radix >= 2 && num < 1
    ensures Digits(num, 1, radix) == Some([]) && Decode([], radix) == num
  {
  }

  lemma DigitInFront(num: nat, v: nat, ds: seq<nat>, k: nat, radix: nat)
    requires v > 0 && v == Pow(radix, k) && |ds| == k && Below(ds, radix) && Decode(ds, radix) == num % v
    requires num / v < radix && num == num / v * v + num % v
    ensures var all := [Quotient(num, v)] + ds; Below(all, radix) && Decode(all, radix) == num
  {
    hide Pow;
    assert ([Quotient(num, v)] + ds)[1..] == ds;
  }

  /** With the least power above it a number has no leading zero. */
  lemma LeastPowerDenotes(num: nat, k: nat, radix: nat)
    requires radix >= 2 && k > 0 && num < Pow(radix, k) && (k > 1 ==> Pow(radix, k - 1) <= num)
    ensures var r := Digits(num, Pow(radix, k), radix); r.Some? && |r.value| == k && Denotes(r.value, radix, num)
  {
    var v := Pow(radix, k - 1);
    DigitsOfPower(num, k, radix);
    DivideDown(radix, v, num);
    DigitsOfPower(num % v, k - 1, radix);
    if k > 1 {
      assert num / v > 0 by {
        assert num == num / v * v + num % v;
      }
    }
  }

  lemma {:induction false} DecodeBound(ds: seq<nat>, radix: nat)
    requires Below(ds, radix) && radix >= 2
    ensures Decode(ds, radix) < Pow(radix, |ds|)
  {
    if ds != [] {
      DecodeBound(ds[1..], radix);
      var p := Pow(radix, |ds| - 1);
      MulMono(ds[0] + 1, radix, p);
      Distribute(ds[0], p);
      assert Pow(radix, |ds|) == radix * p;
      hide Pow;
    }
  }

  lemma Distribute(a: nat, b: nat)
    ensures (a + 1) * b == a * b + b
  {
  }

  lemma {:induction false} PowAdd(b: nat, i: nat, j: nat)
    ensures Pow(b, i + j) == Pow(b, i) * Pow(b, j)
  {
    if i > 0 {
      PowAdd(b, i - 1, j);
      assert Pow(b, i + j) == b * (Pow(b, i - 1) * Pow(b, j));
    }
  }

  // ---------------------------------------------------------------------------
  // Decimal
  // ---------------------------------------------------------------------------

  /** `val *= 10`. */
  function TimesTen(val: nat): nat { val * 10 % WORD }

  /** The loop that multiplies by ten in 64 bits until the value exceeds num:
      how often, and the value. None if it never does. */
  function ScaleTen(num: nat, exp: nat, val: nat): Option<(nat, nat)>
    decreases 64 - exp
  {
    var v := TimesTen(val);
    if v > num then Some((exp + 1, v))
    else if exp + 1 >= 64 then None
    else ScaleTen(num, exp + 1, v)
  }

  /** The digits of a decimal conversion; None if the program gets stuck. */
  function Decimal(num: nat): Option<seq<nat>> {
    match ScaleTen(num, 0, 1)
    case None => None
    case Some((_, val)) => Digits(num, val, 10)
  }

  lemma TenToThe(k: nat)
    ensures Pow(10, 0) == 1 && Pow(10, 5) == 100000 && Pow(10, 10) == 1_0000000000
    ensures Pow(10, 19) == 10_000_000_000_000_000_000
  {
    assert Pow(10, 2) == 100 && Pow(10, 4) == 10000;
    PowAdd(10, 5, 5);
    PowAdd(10, 10, 9);
    PowAdd(10, 5, 4);
  }

  /** After 64 multiplications the value is 0 and stays so: the loop that has
      not ended by then never ends. */
  lemma ZeroFrom64(e: nat)
    requires e >= 64
    ensures Pow(10, e) % WORD == 0
  {
    hide Pow;
    TwosAndFives(64);
    PowTwo64();
    PowAdd(10, 64, e - 64);
    Regroup(WORD, Pow(5, 64), Pow(10, e - 64));
    MultipleOfWord(Pow(5, 64) * Pow(10, e - 64));
  }

  lemma Regroup(a: nat, b: nat, c: nat)
    ensures (a * b) * c == a * (b * c)
  {
  }

  lemma MultipleOfWord(k: nat)
    ensures WORD * k % WORD == 0
  {
  }

  lemma {:induction false} TwosAndFives(k: nat)
    ensures Pow(10, k) == Pow(2, k) * Pow(5, k)
  {
    if k > 0 {
      TwosAndFives(k - 1);
      assert Pow(2, k) * Pow(5, k) == 10 * (Pow(2, k - 1) * Pow(5, k - 1));
    }
  }

  lemma PowTwo64()
    ensures Pow(2, 64) == WORD && Pow(16, 15) == 0x1000_0000_0000_0000 && Pow(8, 21) == 0x8000_0000_0000_0000
  {
    assert Pow(2, 4) == 16 && Pow(16, 3) == 0x1000 && Pow(8, 3) == 0x200;
    PowAdd(2, 4, 4);
    PowAdd(2, 8, 8);
    PowAdd(2, 16, 16);
    PowAdd(2, 32, 32);
    PowAdd(16, 3, 3);
    PowAdd(16, 6, 6);
    PowAdd(16, 12, 3);
    PowAdd(8, 3, 3);
    PowAdd(8, 6, 6);
    PowAdd(8, 12, 6);
    PowAdd(8, 18, 3);
  }

  /** Multiplying the remainder multiplies the power. */
  lemma NextPower(e: nat)
    ensures TimesTen(Pow(10, e) % WORD) == Pow(10, e + 1) % WORD
  {
    var q, r := Pow(10, e) / WORD, Pow(10, e) % WORD;
    assert Pow(10, e + 1) == WORD * (10 * q) + r * 10;
    SameRemainder(10 * q, r * 10);
  }

  lemma SameRemainder(k: nat, x: nat)
    ensures (WORD * k + x) % WORD == x % WORD
  {
    var q, r := x / WORD, x % WORD;
    assert WORD * k + x == WORD * (k + q) + r;
    RemainderIs(k + q, r);
  }

  lemma RemainderIs(k: nat, r: nat)
    requires r < WORD
    ensures (WORD * k + r) % WORD == r
  {
  }

  /** The loop stops at the first power that exceeds the number, in 64 bits. */
  lemma {:induction false} ScaleTenIs(num: nat, exp: nat)
    requires exp < 64
    ensures match ScaleTen(num, exp, Pow(10, exp) % WORD)
            case None => forall e: nat | exp < e :: Pow(10, e) % WORD <= num
            case Some((k, val)) => && exp < k <= 64 && val == Pow(10, k) % WORD && val > num
                                   && (forall e: nat | exp < e < k :: Pow(10, e) % WORD <= num)
    decreases 64 - exp
  {
    NextPower(exp);
    if Pow(10, exp + 1) % WORD <= num {
      if exp + 1 < 64 {
        ScaleTenIs(num, exp + 1);
      } else {
        forall e: nat | exp < e ensures Pow(10, e) % WORD <= num {
          ZeroFrom64(e);
        }
      }
    }
  }

  lemma {:induction false} PowGrows(b: nat, i: nat, j: nat)
    requires b > 0 && i <= j
    ensures Pow(b, i) <= Pow(b, j)
  {
    PowAdd(b, i, j - i);
    assert Pow(b, i) * 1 <= Pow(b, i) * Pow(b, j - i);
  }

  /** From 10^19 on the divisor has 20 digits too, and 19 digits come out. */
  lemma {:induction false} TooFewDigits(num: nat, val: nat, k: nat)
    requires Pow(10, k) <= val < 2 * Pow(10, k)
    ensures Digits(num, val, 10).Some? && |Digits(num, val, 10).value| == k
  {
    hide Pow, Quotient;
    TenToThe(0);
    if k > 0 {
      var v := val / 10;
      NextPowerBounds(val, k);
      TooFewDigits(num % v, v, k - 1);
    }
  }

  lemma NextPowerBounds(val: nat, k: nat)
    requires k > 0 && Pow(10, k) <= val < 2 * Pow(10, k)
    ensures Pow(10, k - 1) <= val / 10 < 2 * Pow(10, k - 1) && 1 < val
  {
  }

  lemma SmallDecimal(num: nat)
    requires num < Pow(10, 19)
    ensures Decimal(num).Some? && Denotes(Decimal(num).value, 10, num) && |Decimal(num).value| <= 19
    ensures ScaleTen(num, 0, 1) == Some((|Decimal(num).value|, Pow(10, |Decimal(num).value|)))
  {
    TenToThe(0);
    ScaleTenIs(num, 0);
    PowBelowWord(19);
    assert Pow(10, 0) % WORD == 1;
    var (k, val) := ScaleTen(num, 0, 1).value;
    assert k <= 19;
    PowBelowWord(k);
    if k > 1 {
      PowBelowWord(k - 1);
    }
    LeastPowerDenotes(num, k, 10);
  }

  lemma PowBelowWord(k: nat)
    requires k <= 19
    ensures Pow(10, k) % WORD == Pow(10, k)
  {
    TenToThe(0);
    PowGrows(10, k, 19);
  }

  /** A 64-bit number comes out right in decimal exactly if it is below 10^19:
      beyond that either the power wraps around without ever exceeding the
      number, or one digit too few is printed. */
  lemma DecimalRightIff(num: nat)
    requires num < WORD
    ensures (Decimal(num).Some? && Denotes(Decimal(num).value, 10, num)) <==> num < Pow(10, 19)
  {
    TenToThe(0);
    if num < Pow(10, 19) {
      SmallDecimal(num);
    } else {
      ScaleTenIs(num, 0);
      assert Pow(10, 0) % WORD == 1;
      if ScaleTen(num, 0, 1).Some? {
        var (k, val) := ScaleTen(num, 0, 1).value;
        TooFewDigits(num, val, 19);
        var ds := Decimal(num).value;
        if Below(ds, 10) {
          DecodeBound(ds, 10);
        }
      }
    }
  }

  // ---------------------------------------------------------------------------
  // Where a decimal conversion gets stuck
  // ---------------------------------------------------------------------------

  /** The largest power of ten in 64 bits: 10^49 modulo 2^64. */
  const LARGEST_POWER: nat := 0xF88A_0000_0000_0000

  /** One multiplication that wraps around q times. */
  lemma Wraps(e: nat, v: nat, q: nat, w: nat)
    requires Pow(10, e) % WORD == v && v * 10 == WORD * q + w && w < WORD
    ensures Pow(10, e + 1) % WORD == w
  {
    hide Pow;
    NextPower(e);
    RemainderIs(q, w);
  }

  lemma PowersTo34()
    requires Pow(10, 19) % WORD == 0x8AC7_2304_89E8_0000
    ensures Pow(10, 34) % WORD == 0x378D_8E64_0000_0000 && forall e | 19 < e <= 34 :: Pow(10, e) % WORD <= LARGEST_POWER
  {
    hide Pow;
    Wraps(19, 0x8AC7_2304_89E8_0000, 5, 0x6BC7_5E2D_6310_0000);
    Wraps(20, 0x6BC7_5E2D_6310_0000, 4, 0x35C9_ADC5_DEA0_0000);
    Wraps(21, 0x35C9_ADC5_DEA0_0000, 2, 0x19E0_C9BA_B240_0000);
    Wraps(22, 0x19E0_C9BA_B240_0000, 1, 0x2C7_E14A_F680_0000);
    Wraps(23, 0x2C7_E14A_F680_0000, 0, 0x1BCE_CCED_A100_0000);
    Wraps(24, 0x1BCE_CCED_A100_0000, 1, 0x1614_0148_4A00_0000);
    Wraps(25, 0x1614_0148_4A00_0000, 0, 0xDCC8_0CD2_E400_0000);
    Wraps(26, 0xDCC8_0CD2_E400_0000, 8, 0x9FD0_803C_E800_0000);
    Wraps(27, 0x9FD0_803C_E800_0000, 6, 0x3E25_0261_1000_0000);
    Wraps(28, 0x3E25_0261_1000_0000, 2, 0x6D72_17CA_A000_0000);
    Wraps(29, 0x6D72_17CA_A000_0000, 4, 0x4674_EDEA_4000_0000);
    Wraps(30, 0x4674_EDEA_4000_0000, 2, 0xC091_4B26_8000_0000);
    Wraps(31, 0xC091_4B26_8000_0000, 7, 0x85AC_EF81_0000_0000);
    Wraps(32, 0x85AC_EF81_0000_0000, 5, 0x38C1_5B0A_0000_0000);
    Wraps(33, 0x38C1_5B0A_0000_0000, 2, 0x378D_8E64_0000_0000);
  }

  lemma PowersTo49()
    requires Pow(10, 34) % WORD == 0x378D_8E64_0000_0000
    ensures Pow(10, 49) % WORD == 0xF88A_0000_0000_0000 && forall e | 34 < e <= 49 :: Pow(10, e) % WORD <= LARGEST_POWER
  {
    hide Pow;
    Wraps(34, 0x378D_8E64_0000_0000, 2, 0x2B87_8FE8_0000_0000);
    Wraps(35, 0x2B87_8FE8_0000_0000, 1, 0xB34B_9F10_0000_0000);
    Wraps(36, 0xB34B_9F10_0000_0000, 7, 0xF4_36A0_0000_0000);
    Wraps(37, 0xF4_36A0_0000_0000, 0, 0x98A_2240_0000_0000);
    Wraps(38, 0x98A_2240_0000_0000, 0, 0x5F65_5680_0000_0000);
    Wraps(39, 0x5F65_5680_0000_0000, 3, 0xB9F5_6100_0000_0000);
    Wraps(40, 0xB9F5_6100_0000_0000, 7, 0x4395_CA00_0000_0000);
    Wraps(41, 0x4395_CA00_0000_0000, 2, 0xA3D9_E400_0000_0000);
    Wraps(42, 0xA3D9_E400_0000_0000, 6, 0x6682_E800_0000_0000);
    Wraps(43, 0x6682_E800_0000_0000, 4, 0x11D_1000_0000_0000);
    Wraps(44, 0x11D_1000_0000_0000, 0, 0xB22_A000_0000_0000);
    Wraps(45, 0xB22_A000_0000_0000, 0, 0x6F5A_4000_0000_0000);
    Wraps(46, 0x6F5A_4000_0000_0000, 4, 0x5986_8000_0000_0000);
    Wraps(47, 0x5986_8000_0000_0000, 3, 0x7F41_0000_0000_0000);
    Wraps(48, 0x7F41_0000_0000_0000, 4, 0xF88A_0000_0000_0000);
  }

  lemma PowersTo64()
    requires Pow(10, 49) % WORD == 0xF88A_0000_0000_0000
    ensures Pow(10, 64) % WORD == 0x0 && forall e | 49 < e <= 64 :: Pow(10, e) % WORD <= LARGEST_POWER
  {
    hide Pow;
    Wraps(49, 0xF88A_0000_0000_0000, 9, 0xB564_0000_0000_0000);
    Wraps(50, 0xB564_0000_0000_0000, 7, 0x15E8_0000_0000_0000);
    Wraps(51, 0x15E8_0000_0000_0000, 0, 0xDB10_0000_0000_0000);
    Wraps(52, 0xDB10_0000_0000_0000, 8, 0x8EA0_0000_0000_0000);
    Wraps(53, 0x8EA0_0000_0000_0000, 5, 0x9240_0000_0000_0000);
    Wraps(54, 0x9240_0000_0000_0000, 5, 0xB680_0000_0000_0000);
    Wraps(55, 0xB680_0000_0000_0000, 7, 0x2100_0000_0000_0000);
    Wraps(56, 0x2100_0000_0000_0000, 1, 0x4A00_0000_0000_0000);
    Wraps(57, 0x4A00_0000_0000_0000, 2, 0xE400_0000_0000_0000);
    Wraps(58, 0xE400_0000_0000_0000, 8, 0xE800_0000_0000_0000);
    Wraps(59, 0xE800_0000_0000_0000, 9, 0x1000_0000_0000_0000);
    Wraps(60, 0x1000_0000_0000_0000, 0, 0xA000_0000_0000_0000);
    Wraps(61, 0xA000_0000_0000_0000, 6, 0x4000_0000_0000_0000);
    Wraps(62, 0x4000_0000_0000_0000, 2, 0x8000_0000_0000_0000);
    Wraps(63, 0x8000_0000_0000_0000, 5, 0x0);
  }

  lemma PowersBounded(e: nat)
    ensures Pow(10, e) % WORD <= LARGEST_POWER && Pow(10, 49) % WORD == LARGEST_POWER
  {
    hide Pow;
    TenToThe(0);
    PowersTo34();
    PowersTo49();
    PowersTo64();
    if e <= 19 {
      PowGrows(10, e, 19);
    } else if e >= 64 {
      ZeroFrom64(e);
    }
  }

  /** The loop that looks for a power above the number ends exactly for numbers
      below that power. */
  lemma ScaleTenEndsIff(num: nat)
    ensures ScaleTen(num, 0, 1).Some? <==> num < LARGEST_POWER
  {
    hide Pow, ScaleTen;
    TenToThe(0);
    ScaleTenIs(num, 0);
    PowersBounded(49);
    if ScaleTen(num, 0, 1).Some? {
      PowersBounded(ScaleTen(num, 0, 1).value.0);
    }
  }

  /** From 10^19 on, where the loop ends, there are 19 digits and a count of 20 or more. */
  lemma LargeDecimal(num: nat)
    requires Pow(10, 19) <= num < LARGEST_POWER
    ensures ScaleTen(num, 0, 1).Some? && Decimal(num).Some? && |Decimal(num).value| == 19 && ScaleTen(num, 0, 1).value.0 >= 20
  {
    hide Pow, ScaleTen, Digits;
    TenToThe(0);
    ScaleTenEndsIff(num);
    ScaleTenIs(num, 0);
    var (k, val) := ScaleTen(num, 0, 1).value;
    if k <= 19 {
      PowGrows(10, k, 19);
    }
    TooFewDigits(num, val, 19);
  }

  // ---------------------------------------------------------------------------
  // Hexadecimal and octal
  // ---------------------------------------------------------------------------

  /** `while (val < radix^limit) { exp++; val *= radix; if (val > num) break; }` */
  function Grow(num: nat, exp: nat, radix: nat, limit: nat): (k: nat)
    requires exp <= limit
    ensures exp <= k <= limit
    decreases limit - exp
  {
    if exp == limit then exp
    else if Pow(radix, exp + 1) > num then exp + 1
    else Grow(num, exp + 1, radix, limit)
  }

  /** The digit printed before the padding, the digits printed after it, and
      the number of digits the padding counts on. */
  datatype Numeral = Numeral(early: seq<nat>, rest: seq<nat>, exp: nat)

  function Shifted(num: nat, radix: nat, limit: nat): Option<Numeral>
    requires radix >= 2
  {
    var k := Grow(num, 0, radix, limit);
    var val := Pow(radix, k);
    var early := if val < num then [Quotient(num, val)] else [];
    match Digits(if val < num then num % val else num, val, radix)
    case None => None
    case Some(rest) => Some(Numeral(early, rest, k + |early|))
  }

  lemma {:induction false} GrowIs(num: nat, exp: nat, radix: nat, limit: nat)
    requires radix >= 2 && exp < limit && (exp > 0 ==> Pow(radix, exp) <= num)
    ensures var k := Grow(num, exp, radix, limit);
            k > exp && (k > 1 ==> Pow(radix, k - 1) <= num) && (Pow(radix, k) > num || k == limit)
    decreases limit - exp
  {
    if Pow(radix, exp + 1) <= num && exp + 1 < limit {
      GrowIs(num, exp + 1, radix, limit);
    }
  }

  /** A number comes out right, early digit and rest taken together, exactly if
      it is not the limiting power itself: that one has a digit equal to the base. */
  lemma ShiftedRightIff(num: nat, radix: nat, limit: nat)
    requires radix >= 2 && limit > 0 && num < radix * Pow(radix, limit)
    ensures var s := Shifted(num, radix, limit);
            && s.Some? && |s.value.early| + |s.value.rest| == s.value.exp
            && (Denotes(s.value.early + s.value.rest, radix, num) <==> num != Pow(radix, limit))
            && (|s.value.early| > 0 <==> num > Pow(radix, limit)) && |s.value.early| <= 1
            && (num >= Pow(radix, limit) ==> |s.value.rest| == limit)
  {
    var k, top := Grow(num, 0, radix, limit), Pow(radix, limit);
    GrowIs(num, 0, radix, limit);
    if num < Pow(radix, k) {
      LeastPowerDenotes(num, k, radix);
      var rest := Digits(num, Pow(radix, k), radix).value;
      assert [] + rest == rest;
      PowGrows(radix, k, limit);
    } else if num > top {
      DivideDown(radix, top, num);
      DigitsOfPower(num % top, limit, radix);
      EarlyDigit(num, radix, limit);
    } else {
      LimitMisses(radix, limit);
    }
  }

  lemma EarlyDigit(num: nat, radix: nat, limit: nat)
    requires radix >= 2 && num > Pow(radix, limit) && num < radix * Pow(radix, limit)
    requires var r := Digits(num % Pow(radix, limit), Pow(radix, limit), radix);
             r.Some? && |r.value| == limit && Below(r.value, radix) && Decode(r.value, radix) == num % Pow(radix, limit)
    ensures Denotes([Quotient(num, Pow(radix, limit))] + Digits(num % Pow(radix, limit), Pow(radix, limit), radix).value, radix, num)
  {
    var top := Pow(radix, limit);
    var rest := Digits(num % top, top, radix).value;
    DivideDown(radix, top, num);
    assert ([Quotient(num, top)] + rest)[1..] == rest;
    assert num / top > 0 by {
      assert num == num / top * top + num % top;
    }
  }

  lemma LimitMisses(radix: nat, limit: nat)
    requires radix >= 2 && limit > 0
    ensures var r := Digits(Pow(radix, limit), Pow(radix, limit), radix);
            r.Some? && |r.value| == limit && r.value[0] == radix
  {
    var top, v := Pow(radix, limit), Pow(radix, limit - 1);
    CancelFactor(radix, v);
    CancelFactor(v, radix);
    assert top == v * radix;
    DigitsOfPower(top % v, limit - 1, radix);
  }

  /** And zeros after it. */
  lemma LimitZeros(radix: nat, limit: nat)
    requires radix >= 2 && limit > 0
    requires Digits(Pow(radix, limit), Pow(radix, limit), radix).Some?
    ensures var r := Digits(Pow(radix, limit), Pow(radix, limit), radix);
            forall k | 1 <= k < |r.value| :: r.value[k] == 0
  {
    hide Decode, Digits, Pow, Below;
    var v := Pow(radix, limit - 1);
    TopDivided(radix, limit);
    TopDigits(Pow(radix, limit), v, radix);
    DigitsOfPower(0, limit - 1, radix);
    ZeroDigits(Digits(0, v, radix).value, radix);
  }

  lemma TopDivided(radix: nat, limit: nat)
    requires radix >= 2 && limit > 0
    ensures var top, v := Pow(radix, limit), Pow(radix, limit - 1);
            top > 1 && v > 0 && top / radix == v && top % v == 0
  {
    hide Pow;
    var v := Pow(radix, limit - 1);
    PowUnfold(radix, limit);
    CancelFactor(radix, v);
    CancelFactor(v, radix);
    MulMono(2, radix, v);
    assert radix * v == v * radix;
    assert v * radix == v * (v * radix / v) + v * radix % v;
  }

  lemma TopDigits(top: nat, v: nat, radix: nat)
    requires radix >= 2 && top > 1 && v > 0 && top / radix == v && top % v == 0 && Digits(top, top, radix).Some?
    ensures Digits(0, v, radix).Some? && Digits(top, top, radix).value[1..] == Digits(0, v, radix).value
  {
  }

  lemma {:induction false} ZeroDigits(ds: seq<nat>, radix: nat)
    requires radix >= 2 && Decode(ds, radix) == 0
    ensures forall k | 0 <= k < |ds| :: ds[k] == 0
  {
    if ds != [] {
      var q := Pow(radix, |ds| - 1);
      assert ds[0] * q >= 0;
      assert ds[0] == 0 by {
        if ds[0] > 0 {
          MulMono(1, ds[0], q);
        }
      }
      ZeroDigits(ds[1..], radix);
      assert forall k | 1 <= k < |ds| :: ds[k] == ds[1..][k - 1];
    }
  }

  /** Every 64-bit number but 2^60 comes out right in hexadecimal. */
  lemma HexRightIff(num: nat)
    requires num < WORD
    ensures var s := Shifted(num, 16, 15);
            && s.Some? && (Denotes(s.value.early + s.value.rest, 16, num) <==> num != 0x1000_0000_0000_0000)
            && (|s.value.early| > 0 <==> num > 0x1000_0000_0000_0000)
  {
    PowTwo64();
    ShiftedRightIff(num, 16, 15);
  }

  /** Every 64-bit number but 2^63 comes out right in octal. */
  lemma OctalRightIff(num: nat)
    requires num < WORD
    ensures var s := Shifted(num, 8, 21);
            && s.Some? && (Denotes(s.value.early + s.value.rest, 8, num) <==> num != 0x8000_0000_0000_0000)
            && (|s.value.early| > 0 <==> num > 0x8000_0000_0000_0000)
  {
    PowTwo64();
    ShiftedRightIff(num, 8, 21);
  }
}
