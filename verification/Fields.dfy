/**
 How printf lays a number out: sign or prefix, padding, digits, separators.
 */
module Fields {
  import opened Options
  import opened Words
  import opened Numerals

  datatype Style = Style(left: bool, zero: bool, commas: bool, width: nat)

  /** How often `while ((signed long long) (width - exp) > 0) exp++` runs. */
  function PadCount(width: nat, exp: nat): nat {
    if exp < width && width - exp < 0x8000_0000_0000_0000 then width - exp else 0
  }

  function Repeat(c: char, n: nat): seq<char> { seq(n, _ => c) }

  function Fill(zero: bool): char { if zero then '0' else ' ' }

  /** The width left after a sign or prefix of n characters. */
  function Reduced(width: nat, n: nat): nat { if width < n then 0 else width - n }

  /** The width of a field with n characters to print: the width asked for, if
      it is larger, but not by 2^63 or more, which is read as a negative number. */
  function FieldWidth(width: nat, n: nat): nat {
    if n < width && width - n < 0x8000_0000_0000_0000 then width else n
  }

  // ---------------------------------------------------------------------------
  // Decimal
  // ---------------------------------------------------------------------------

  /** '0' + d. */
  function DigitChar(d: nat): char { ((0x30 + d) % 0x100) as char }

  /** The comma that follows when `left` digits are counted to remain. */
  predicate CommaAfter(left: int) { left % 3 == 0 && left != 0 }

  /** The loop over the digits; exp counts down and decides about the commas. */
  function DigitChars(ds: seq<nat>, exp: int, commas: bool): seq<char> {
    if ds == [] then []
    else [DigitChar(ds[0])] + (if commas && CommaAfter(exp - 1) then [','] else []) + DigitChars(ds[1..], exp - 1, commas)
  }

  /** A conversion to decimal; None if the program gets stuck in it. */
  function DecimalField(num: nat, sign: seq<char>, st: Style): Option<seq<char>> {
    match ScaleTen(num, 0, 1)
    case None => None
    case Some((k, val)) =>
      match Digits(num, val, 10)
      case None => None
      case Some(ds) =>
        var pads := if st.left then 0 else PadCount(Reduced(st.width, |sign|), k);
        if st.left && |ds| < k then None
        else Some(sign + Repeat(Fill(st.zero), pads) + DigitChars(ds, k + pads, st.commas))
  }

  /** Digits in groups of three, counted from the right. */
  function Grouped(ds: seq<nat>): seq<char> {
    if |ds| <= 3 then DigitChars(ds, |ds|, false)
    else Grouped(ds[..|ds| - 3]) + [','] + DigitChars(ds[|ds| - 3..], 3, false)
  }

  lemma {:induction false} PlainDigits(ds: seq<nat>, exp: int, exp': int)
    ensures DigitChars(ds, exp, false) == DigitChars(ds, exp', false) && |DigitChars(ds, exp, false)| == |ds|
  {
    if ds != [] {
      PlainDigits(ds[1..], exp - 1, exp' - 1);
    }
  }

  lemma {:induction false} DigitsConcat(a: seq<nat>, b: seq<nat>, exp: int, commas: bool)
    ensures DigitChars(a + b, exp, commas) == DigitChars(a, exp, commas) + DigitChars(b, exp - |a|, commas)
  {
    if a == [] {
      assert a + b == b;
    } else {
      assert (a + b)[1..] == a[1..] + b;
      DigitsConcat(a[1..], b, exp - 1, commas);
    }
  }

  /** Counting three more puts a comma after the last digit, and nowhere else. */
  lemma {:induction false} ThreeMore(ds: seq<nat>)
    requires ds != []
    ensures DigitChars(ds, |ds| + 3, true) == DigitChars(ds, |ds|, true) + [',']
  {
    if |ds| == 1 {
      assert ds[1..] == [];
    } else {
      ThreeMore(ds[1..]);
    }
  }

  lemma {:induction false} LastGroup(ds: seq<nat>)
    requires |ds| <= 3
    ensures DigitChars(ds, |ds|, true) == DigitChars(ds, |ds|, false)
  {
    if ds != [] {
      LastGroup(ds[1..]);
    }
  }

  /** Without padding the commas fall exactly between groups of three. */
  lemma {:induction false} CommasEveryThree(ds: seq<nat>)
    ensures DigitChars(ds, |ds|, true) == Grouped(ds)
  {
    if |ds| <= 3 {
      LastGroup(ds);
    } else {
      var a, b := ds[..|ds| - 3], ds[|ds| - 3..];
      assert ds == a + b;
      DigitsConcat(a, b, |ds|, true);
      ThreeMore(a);
      LastGroup(b);
      CommasEveryThree(a);
    }
  }

  /** Counting `pads` more digits than there are puts the same commas. */
  predicate SameCommas(n: nat, pads: nat) {
    forall r | 0 <= r < n :: CommaAfter(r + pads) <==> CommaAfter(r)
  }

  lemma DigitIsNoComma(d: nat)
    requires d < 10
    ensures DigitChar(d) != ','
  {
  }

  lemma {:induction false} PaddedDiffers(ds: seq<nat>, pads: nat)
    requires Below(ds, 10)
    ensures DigitChars(ds, |ds| + pads, true) == DigitChars(ds, |ds|, true) <==> SameCommas(|ds|, pads)
  {
    if ds != [] {
      var n := |ds| - 1;
      PaddedDiffers(ds[1..], pads);
      assert SameCommas(|ds|, pads) <==> SameCommas(n, pads) && (CommaAfter(n + pads) <==> CommaAfter(n));
      HeadDecides(ds, pads);
    }
  }

  lemma HeadDecides(ds: seq<nat>, pads: nat)
    requires ds != [] && Below(ds, 10)
    ensures var n := |ds| - 1;
            DigitChars(ds, |ds| + pads, true) == DigitChars(ds, |ds|, true) <==>
              (CommaAfter(n + pads) <==> CommaAfter(n)) && DigitChars(ds[1..], n + pads, true) == DigitChars(ds[1..], n, true)
  {
    var n := |ds| - 1;
    var c := DigitChar(ds[0]);
    var t, u := DigitChars(ds[1..], n + pads, true), DigitChars(ds[1..], n, true);
    var x, y := CommaAfter(n + pads), CommaAfter(n);
    assert DigitChars(ds, |ds| + pads, true) == [c] + (if x then [','] else []) + t;
    assert DigitChars(ds, |ds|, true) == [c] + (if y then [','] else []) + u;
    if n > 0 {
      DigitIsNoComma(ds[1]);
      assert t[0] == u[0] == DigitChar(ds[1]);
    }
    SplitHead(c, x, y, t, u);
  }

  lemma SplitHead(c: char, x: bool, y: bool, t: seq<char>, u: seq<char>)
    requires |t| > 0 ==> t[0] != ','
    requires |u| > 0 ==> u[0] != ','
    ensures [c] + (if x then [','] else []) + t == [c] + (if y then [','] else []) + u <==> (x <==> y) && t == u
  {
    var s, r := [c] + (if x then [','] else []) + t, [c] + (if y then [','] else []) + u;
    var i, j := if x then 2 else 1, if y then 2 else 1;
    assert s[i..] == t && r[j..] == u;
    if x != y {
      assert |s| > 1 && |r| > 1 ==> s[1] != r[1];
    }
  }

  lemma CommaCases(n: nat, pads: nat)
    ensures SameCommas(n, pads) <==> n == 0 || pads == 0 || (pads % 3 == 1 && n <= 2) || (pads % 3 == 2 && n <= 1)
  {
    hide CommaAfter;
    FirstCommas(pads);
    if n > 0 && pads > 0 {
      if SameCommas(n, pads) {
        assert CommaAfter(0 + pads) <==> CommaAfter(0);
        assert n > 1 ==> (CommaAfter(1 + pads) <==> CommaAfter(1));
        assert n > 2 ==> (CommaAfter(2 + pads) <==> CommaAfter(2));
      }
    }
  }

  lemma FirstCommas(pads: nat)
    ensures !CommaAfter(0) && !CommaAfter(1) && !CommaAfter(2)
    ensures pads > 0 ==> (CommaAfter(0 + pads) <==> pads % 3 == 0)
    ensures CommaAfter(1 + pads) <==> pads % 3 == 2
    ensures CommaAfter(2 + pads) <==> pads % 3 == 1
  {
  }

  /** The separators of a padded number are those of the number itself exactly
      if there is no padding, but for numbers of one or two digits. */
  lemma CommasRightIff(ds: seq<nat>, pads: nat)
    requires Below(ds, 10) && ds != []
    ensures DigitChars(ds, |ds| + pads, true) == Grouped(ds) <==>
              pads == 0 || (pads % 3 == 1 && |ds| <= 2) || (pads % 3 == 2 && |ds| == 1)
  {
    CommasEveryThree(ds);
    PaddedDiffers(ds, pads);
    CommaCases(|ds|, pads);
  }

  /** A decimal field below 10^19. Left alignment does not pad; otherwise the
      field is as wide as asked for, or as its sign and digits. */
  lemma DecimalFieldIs(num: nat, sign: seq<char>, st: Style)
    requires num < Pow(10, 19) && |sign| <= 1
    ensures Decimal(num).Some? && DecimalField(num, sign, st).Some?
    ensures var ds := Decimal(num).value;
            var pads := if st.left then 0 else PadCount(Reduced(st.width, |sign|), |ds|);
            && Denotes(ds, 10, num)
            && DecimalField(num, sign, st) == Some(sign + Repeat(Fill(st.zero), pads) + DigitChars(ds, |ds| + pads, st.commas))
            && (!st.commas ==>
                  |DecimalField(num, sign, st).value| == if st.left then |sign| + |ds| else FieldWidth(st.width, |sign| + |ds|))
  {
    hide Digits, ScaleTen, Pow, Denotes, PadCount, Reduced, DigitChars, Decimal, Fill, Repeat;
    SmallDecimal(num);
    DecimalUnfolds(num);
    var ds := Decimal(num).value;
    var pads := if st.left then 0 else PadCount(Reduced(st.width, |sign|), |ds|);
    PadWidth(st.width, |sign|, |ds|);
    DecimalWidth(sign, Fill(st.zero), pads, ds);
  }

  /** A decimal conversion gets stuck exactly if the number is too large: for
      left alignment, from 10^19 on, for then the count never comes down to
      zero; otherwise, from the largest power of ten in 64 bits on. */
  lemma DecimalStuckIff(num: nat, sign: seq<char>, st: Style)
    ensures DecimalField(num, sign, st).None? <==> num >= if st.left then Pow(10, 19) else LARGEST_POWER
  {
    hide Digits, ScaleTen, Pow, PadCount, Reduced, DigitChars, Fill, Repeat;
    TenToThe(0);
    if num < Pow(10, 19) {
      DecimalUnfolds(num);
    } else {
      ScaleTenEndsIff(num);
      if num < LARGEST_POWER {
        LargeDecimal(num);
      }
    }
  }

  lemma DecimalWidth(sign: seq<char>, fill: char, pads: nat, ds: seq<nat>)
    ensures |sign + Repeat(fill, pads) + DigitChars(ds, |ds| + pads, false)| == |sign| + pads + |ds|
  {
    hide DigitChars;
    PlainDigits(ds, |ds| + pads, 0);
    assert |Repeat(fill, pads)| == pads;
  }

  lemma PadWidth(width: nat, n: nat, k: nat)
    requires k > 0
    ensures n + PadCount(Reduced(width, n), k) + k == FieldWidth(width, n + k)
  {
  }

  lemma DecimalUnfolds(num: nat)
    requires num < Pow(10, 19)
    ensures ScaleTen(num, 0, 1).Some? && Decimal(num).Some?
    ensures ScaleTen(num, 0, 1).value.0 == |Decimal(num).value|
    ensures Digits(num, ScaleTen(num, 0, 1).value.1, 10) == Decimal(num)
  {
    SmallDecimal(num);
  }

  // ---------------------------------------------------------------------------
  // Hexadecimal and octal
  // ---------------------------------------------------------------------------

  /** Indexing the string of digits; past the last one stands its terminator. */
  function BaseChar(d: nat, radix: nat, capitals: bool): char {
    if d >= radix then '\0'
    else if d < 10 then ((0x30 + d) % 0x100) as char
    else (((if capitals then 0x41 else 0x61) + d - 10) % 0x100) as char
  }

  function BaseChars(ds: seq<nat>, radix: nat, capitals: bool): (r: seq<char>)
    ensures |r| == |ds|
    ensures forall k | 0 <= k < |ds| :: r[k] == BaseChar(ds[k], radix, capitals)
  {
    seq(|ds|, k requires 0 <= k < |ds| => BaseChar(ds[k], radix, capitals))
  }

  /** `%x`, `%X`: left alignment appends as many blanks as there are digits. */
  function HexField(num: nat, prefix: seq<char>, capitals: bool, st: Style): Option<seq<char>> {
    match Shifted(num, 16, 15)
    case None => None
    case Some(s) =>
      var pads := if st.left then 0 else PadCount(Reduced(st.width, |prefix|), s.exp);
      Some(prefix + BaseChars(s.early, 16, capitals) + Repeat(Fill(st.zero), pads) + BaseChars(s.rest, 16, capitals)
           + if st.left then Repeat(' ', s.exp) else [])
  }

  /** `%o`: the loop that is to append blanks never ends. */
  function OctalField(num: nat, prefix: seq<char>, st: Style): Option<seq<char>> {
    match Shifted(num, 8, 21)
    case None => None
    case Some(s) =>
      var pads := PadCount(Reduced(st.width, |prefix|), s.exp);
      if st.left then None
      else Some(prefix + BaseChars(s.early, 8, false) + Repeat(Fill(st.zero), pads) + BaseChars(s.rest, 8, false))
  }

  lemma DigitIsNoFill(d: nat, radix: nat, capitals: bool, zero: bool)
    requires 0 < d < radix <= 16
    ensures BaseChar(d, radix, capitals) != Fill(zero)
  {
  }

  /** Padding comes before all digits exactly if none has been printed early, or there is none. */
  lemma PaddingInFrontIff(prefix: seq<char>, early: seq<char>, fill: char, pads: nat, rest: seq<char>)
    requires |early| <= 1 && (|early| > 0 ==> early[0] != fill)
    ensures prefix + early + Repeat(fill, pads) + rest == prefix + Repeat(fill, pads) + (early + rest) <==> early == [] || pads == 0
  {
    var t, u := prefix + early + Repeat(fill, pads) + rest, prefix + Repeat(fill, pads) + (early + rest);
    if early == [] {
      assert early + rest == rest && prefix + early == prefix;
    } else if pads == 0 {
      assert Repeat(fill, pads) == [] && prefix + early + [] + rest == prefix + [] + (early + rest);
    } else {
      assert t[|prefix|] == early[0] && u[|prefix|] == fill;
    }
  }

  /** What both bases have in common, with the text up to where blanks may follow. */
  function ShiftedText(s: Numeral, radix: nat, capitals: bool, prefix: seq<char>, fill: char, pads: nat): seq<char> {
    prefix + BaseChars(s.early, radix, capitals) + Repeat(fill, pads) + BaseChars(s.rest, radix, capitals)
  }

  lemma ShiftedTextIs(s: Numeral, radix: nat, capitals: bool, prefix: seq<char>, zero: bool, pads: nat)
    requires radix <= 16 && |s.early| <= 1 && (|s.early| > 0 ==> 0 < s.early[0] < radix)
    ensures var t := ShiftedText(s, radix, capitals, prefix, Fill(zero), pads);
            && |t| == |prefix| + pads + |s.early| + |s.rest|
            && (t == prefix + Repeat(Fill(zero), pads) + BaseChars(s.early + s.rest, radix, capitals) <==> s.early == [] || pads == 0)
  {
    assert BaseChars(s.early + s.rest, radix, capitals) == BaseChars(s.early, radix, capitals) + BaseChars(s.rest, radix, capitals);
    if |s.early| > 0 {
      DigitIsNoFill(s.early[0], radix, capitals, zero);
    }
    PaddingInFrontIff(prefix, BaseChars(s.early, radix, capitals), Fill(zero), pads, BaseChars(s.rest, radix, capitals));
  }

  lemma ShiftedNumeral(num: nat, radix: nat, limit: nat)
    requires 2 <= radix && limit > 0 && num < radix * Pow(radix, limit)
    ensures Shifted(num, radix, limit).Some?
    ensures var s := Shifted(num, radix, limit).value;
            && |s.early| <= 1 && s.exp == |s.early| + |s.rest| && s.exp > 0
            && (|s.early| > 0 ==> 0 < s.early[0] < radix) && (s.early == [] <==> num <= Pow(radix, limit))
            && (s.early != [] ==> s.exp == limit + 1)
            && (Denotes(s.early + s.rest, radix, num) <==> num != Pow(radix, limit))
  {
    hide Shifted, Pow, Decode;
    ShiftedRightIff(num, radix, limit);
    var s := Shifted(num, radix, limit).value;
    if |s.early| > 0 {
      assert (s.early + s.rest)[0] == s.early[0];
    }
  }

  /** A hexadecimal field: the digits are right unless the number is 2^60. Left
      alignment appends as many blanks as there are digits, whatever the width.
      Otherwise the field is as wide as asked for or as its prefix and digits,
      and these stand together behind the padding exactly if the number is at
      most 2^60 or 16 digits fill the field. */
  lemma HexFieldIs(num: nat, prefix: seq<char>, capitals: bool, st: Style)
    requires num < WORD && |prefix| <= 2
    ensures Shifted(num, 16, 15).Some? && HexField(num, prefix, capitals, st).Some?
    ensures var s := Shifted(num, 16, 15).value;
            var pads := PadCount(Reduced(st.width, |prefix|), s.exp);
            var field := HexField(num, prefix, capitals, st).value;
            && (Denotes(s.early + s.rest, 16, num) <==> num != 0x1000_0000_0000_0000) && s.exp == |s.early| + |s.rest|
            && if st.left then field == prefix + BaseChars(s.early + s.rest, 16, capitals) + Repeat(' ', s.exp)
               else
                 && |field| == FieldWidth(st.width, |prefix| + s.exp)
                 && (field == prefix + Repeat(Fill(st.zero), pads) + BaseChars(s.early + s.rest, 16, capitals)
                     <==> num <= 0x1000_0000_0000_0000 || |field| == |prefix| + 16)
  {
    hide Shifted, Pow, Denotes, PadCount, Reduced;
    PowTwo64();
    ShiftedNumeral(num, 16, 15);
    var s := Shifted(num, 16, 15).value;
    if st.left {
      HexLeft(num, prefix, capitals, st, s);
    } else {
      var pads := PadCount(Reduced(st.width, |prefix|), s.exp);
      PadWidth(st.width, |prefix|, s.exp);
      ShiftedTextIs(s, 16, capitals, prefix, st.zero, pads);
      HexText(num, prefix, capitals, st, s);
    }
    hide HexField, ShiftedText, BaseChars, Repeat, Fill;
  }

  lemma HexText(num: nat, prefix: seq<char>, capitals: bool, st: Style, s: Numeral)
    requires Shifted(num, 16, 15) == Some(s) && !st.left
    ensures var pads := PadCount(Reduced(st.width, |prefix|), s.exp);
            HexField(num, prefix, capitals, st) == Some(ShiftedText(s, 16, capitals, prefix, Fill(st.zero), pads))
  {
    hide Shifted, BaseChars, Repeat, PadCount, Reduced;
    var pads := PadCount(Reduced(st.width, |prefix|), s.exp);
    assert ShiftedText(s, 16, capitals, prefix, Fill(st.zero), pads) + [] == ShiftedText(s, 16, capitals, prefix, Fill(st.zero), pads);
  }

  lemma HexLeft(num: nat, prefix: seq<char>, capitals: bool, st: Style, s: Numeral)
    requires Shifted(num, 16, 15) == Some(s) && st.left
    ensures HexField(num, prefix, capitals, st) == Some(prefix + BaseChars(s.early + s.rest, 16, capitals) + Repeat(' ', s.exp))
  {
    hide Shifted;
    var early, rest := BaseChars(s.early, 16, capitals), BaseChars(s.rest, 16, capitals);
    assert BaseChars(s.early + s.rest, 16, capitals) == early + rest;
    assert Repeat(Fill(st.zero), 0) == [];
    assert prefix + early + [] + rest == prefix + (early + rest);
  }

  /** An octal field: stuck exactly if it is to be left-aligned, and otherwise as
      wide as asked for or as its prefix and digits; the digits are right unless
      the number is 2^63, and stand together under the same kind of condition. */
  lemma OctalFieldIs(num: nat, prefix: seq<char>, st: Style)
    requires num < WORD && |prefix| <= 1
    ensures Shifted(num, 8, 21).Some? && (OctalField(num, prefix, st).None? <==> st.left)
    ensures var s := Shifted(num, 8, 21).value;
            var pads := PadCount(Reduced(st.width, |prefix|), s.exp);
            && (Denotes(s.early + s.rest, 8, num) <==> num != 0x8000_0000_0000_0000) && s.exp == |s.early| + |s.rest|
            && (!st.left ==>
                  var field := OctalField(num, prefix, st).value;
                  && |field| == FieldWidth(st.width, |prefix| + s.exp)
                  && (field == prefix + Repeat(Fill(st.zero), pads) + BaseChars(s.early + s.rest, 8, false)
                      <==> num <= 0x8000_0000_0000_0000 || |field| == |prefix| + 22))
  {
    hide Shifted, Pow, Denotes, PadCount, Reduced;
    PowTwo64();
    ShiftedNumeral(num, 8, 21);
    var s := Shifted(num, 8, 21).value;
    var pads := PadCount(Reduced(st.width, |prefix|), s.exp);
    PadWidth(st.width, |prefix|, s.exp);
    ShiftedTextIs(s, 8, false, prefix, st.zero, pads);
    if !st.left {
      assert OctalField(num, prefix, st).value == ShiftedText(s, 8, false, prefix, Fill(st.zero), pads);
    }
    hide OctalField, ShiftedText, BaseChars, Repeat, Fill;
  }
}
