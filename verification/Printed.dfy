/**
 What the conversions of printf print, on characters: a number that is printed is
 read back from its digits, and what follows in the format sees the arguments
 that are left.
 */
module Printed {
  import opened Options
  import opened Words
  import opened Numerals
  import opened Fields
  import opened Printf

  // ---------------------------------------------------------------------------
  // Reading a number
  // ---------------------------------------------------------------------------

  function DigitValue(c: char): nat {
    if '0' <= c <= '9' then c as nat - 0x30
    else if 'a' <= c <= 'f' then c as nat - 0x61 + 10
    else if 'A' <= c <= 'F' then c as nat - 0x41 + 10
    else 16
  }

  function NumberRead(cs: seq<char>, radix: nat): nat {
    if cs == [] then 0 else NumberRead(cs[..|cs| - 1], radix) * radix + DigitValue(cs[|cs| - 1])
  }

  predicate IsDigitOf(c: char, radix: nat, capitals: bool) {
    DigitValue(c) < radix && (capitals ==> !('a' <= c <= 'f')) && (!capitals ==> !('A' <= c <= 'F'))
  }

  /** Digits of the base, letters of one kind, and no superfluous zero in front. */
  predicate IsNumeral(cs: seq<char>, radix: nat, capitals: bool) {
    cs != [] && (|cs| > 1 ==> cs[0] != '0') && forall k | 0 <= k < |cs| :: IsDigitOf(cs[k], radix, capitals)
  }

  lemma DigitReadBack(d: nat, radix: nat, capitals: bool)
    requires d < radix <= 16
    ensures DigitValue(BaseChar(d, radix, capitals)) == d && IsDigitOf(BaseChar(d, radix, capitals), radix, capitals)
    ensures BaseChar(d, radix, capitals) == '0' <==> d == 0
  {
  }

  lemma {:induction false} DecodeLast(ds: seq<nat>, d: nat, radix: nat)
    ensures Decode(ds + [d], radix) == Decode(ds, radix) * radix + d
  {
    if ds == [] {
      assert [d][1..] == [] && Pow(radix, 0) == 1;
      assert [] + [d] == [d];
    } else {
      DecodeLast(ds[1..], d, radix);
      var all := ds + [d];
      assert all[1..] == ds[1..] + [d];
      var q := Pow(radix, |ds| - 1);
      assert Pow(radix, |ds|) == radix * q;
      assert ds[0] * (radix * q) == ds[0] * q * radix;
      assert (ds[0] * q + Decode(ds[1..], radix)) * radix == ds[0] * q * radix + Decode(ds[1..], radix) * radix;
    }
  }

  lemma {:induction false} DigitsRead(ds: seq<nat>, radix: nat, capitals: bool)
    requires Below(ds, radix) && radix <= 16
    ensures NumberRead(BaseChars(ds, radix, capitals), radix) == Decode(ds, radix)
    decreases |ds|
  {
    hide Decode, BaseChar, DigitValue;
    if ds == [] {
      NothingRead(radix, capitals);
    } else {
      var before, d := ds[..|ds| - 1], ds[|ds| - 1];
      assert ds == before + [d];
      DigitsRead(before, radix, capitals);
      DecodeLast(before, d, radix);
      DigitReadBack(d, radix, capitals);
      assert BaseChars(ds, radix, capitals)[..|ds| - 1] == BaseChars(before, radix, capitals);
    }
  }

  lemma NothingRead(radix: nat, capitals: bool)
    ensures NumberRead(BaseChars([], radix, capitals), radix) == 0 == Decode([], radix)
  {
  }

  /** The characters of a numeral are read back as its number. */
  lemma NumeralRead(ds: seq<nat>, radix: nat, capitals: bool, num: nat)
    requires Denotes(ds, radix, num) && radix <= 16
    ensures IsNumeral(BaseChars(ds, radix, capitals), radix, capitals)
    ensures NumberRead(BaseChars(ds, radix, capitals), radix) == num
  {
    hide BaseChar, IsDigitOf, Decode;
    DigitsRead(ds, radix, capitals);
    forall k | 0 <= k < |ds| ensures IsDigitOf(BaseChar(ds[k], radix, capitals), radix, capitals) {
      DigitReadBack(ds[k], radix, capitals);
    }
    DigitReadBack(ds[0], radix, capitals);
  }

  lemma {:induction false} DecimalChars(ds: seq<nat>, exp: int)
    requires Below(ds, 10)
    ensures DigitChars(ds, exp, false) == BaseChars(ds, 10, false)
  {
    hide BaseChar;
    if ds != [] {
      DecimalChars(ds[1..], exp - 1);
      DecimalChar(ds[0]);
      assert BaseChars(ds, 10, false) == [BaseChar(ds[0], 10, false)] + BaseChars(ds[1..], 10, false);
    }
  }

  lemma DecimalChar(d: nat)
    requires d < 10
    ensures BaseChar(d, 10, false) == DigitChar(d)
  {
  }

  /** A comma before every three digits, counted from the right. */
  function Separated(cs: seq<char>): seq<char> {
    if |cs| <= 3 then cs else Separated(cs[..|cs| - 3]) + [','] + cs[|cs| - 3..]
  }

  lemma {:induction false} GroupedChars(ds: seq<nat>)
    requires Below(ds, 10)
    ensures Grouped(ds) == Separated(BaseChars(ds, 10, false))
  {
    var cs := BaseChars(ds, 10, false);
    if |ds| <= 3 {
      DecimalChars(ds, |ds|);
    } else {
      var a, b := ds[..|ds| - 3], ds[|ds| - 3..];
      GroupedChars(a);
      DecimalChars(b, 3);
      assert cs[..|ds| - 3] == BaseChars(a, 10, false) && cs[|ds| - 3..] == BaseChars(b, 10, false);
    }
  }

  // ---------------------------------------------------------------------------
  // Arguments and widths
  // ---------------------------------------------------------------------------

  /** The argument that an asterisk takes. */
  function ArgsFor(w: Width, n: nat): seq<Arg> { if w.Star? then [Word(n)] else [] }

  /** The width written, in 64 bits, or the argument as an unsigned int. */
  function MeantWidth(w: Width, n: nat): nat {
    if w.Star? then n % 0x1_0000_0000 else NumberRead(WidthChars(w), 10) % WORD
  }

  lemma WidthTaken(w: Width, n: nat, more: seq<Arg>)
    requires IsWidth(w)
    ensures WidthMeant(w, ArgsFor(w, n) + more) == MeantWidth(w, n) && AfterWidth(w, ArgsFor(w, n) + more) == more
  {
    hide NumberRead, Decode, DigitChars;
    match w
    case Given(ds) =>
      DecimalChars(ds, |ds|);
      DigitsRead(ds, 10, false);
      assert ArgsFor(w, n) + more == more;
    case Star =>
      assert ([Word(n)] + more)[1..] == more;
  }

  /** `long`, `long long`, `size_t`, `intmax_t` and `ptrdiff_t`. */
  predicate SixtyFour(size: Size) {
    size == Long || size == LongLong || size == SizeT || size == IntMaxT || size == PtrDiffT
  }

  /** The number that a word holds for a size: the last 64 or 32 bits, signed. */
  predicate Carries(bits: nat, size: Size, x: int) {
    if SixtyFour(size) then -0x8000_0000_0000_0000 <= x < 0x8000_0000_0000_0000 && (bits - x) % 0x1_0000_0000_0000_0000 == 0
    else -0x8000_0000 <= x < 0x8000_0000 && (bits - x) % 0x1_0000_0000 == 0
  }

  lemma ValueCarried(bits: nat, size: Size, x: int)
    requires Carries(bits, size, x)
    ensures SignedValue(Word(bits), size) == x
  {
    hide SixtyFour;
    assert SixtyFour(size) <==> Wide(size) by {
      SizesAgree(size);
    }
    if Wide(size) {
      WideRest(bits, x);
    } else {
      NarrowRest(bits, x);
    }
  }

  lemma CarriedSmall(bits: nat, size: Size, x: int)
    requires Carries(bits, size, x)
    ensures -0x8000_0000_0000_0000 <= x < 0x8000_0000_0000_0000
  {
  }

  lemma SizesAgree(size: Size)
    ensures SixtyFour(size) <==> Wide(size)
  {
  }

  lemma WideRest(bits: int, x: int)
    requires -0x8000_0000_0000_0000 <= x < 0x8000_0000_0000_0000 && (bits - x) % 0x1_0000_0000_0000_0000 == 0
    ensures bits % 0x1_0000_0000_0000_0000 == if x < 0 then x + 0x1_0000_0000_0000_0000 else x
  {
    var q := (bits - x) / 0x1_0000_0000_0000_0000;
    assert bits == x + 0x1_0000_0000_0000_0000 * q;
  }

  lemma NarrowRest(bits: int, x: int)
    requires -0x8000_0000 <= x < 0x8000_0000 && (bits - x) % 0x1_0000_0000 == 0
    ensures bits % 0x1_0000_0000 == if x < 0 then x + 0x1_0000_0000 else x
  {
    var q := (bits - x) / 0x1_0000_0000;
    assert bits == x + 0x1_0000_0000 * q;
  }

  /** The negation overflows: of the smallest `int` where an `int` is negated, and
      of the smallest 64-bit number. */
  predicate Smallest(x: int, size: Size) {
    (x == -0x8000_0000 && (size == HalfHalf || size == Half)) || (x == -0x8000_0000_0000_0000 && SixtyFour(size))
  }

  // ---------------------------------------------------------------------------
  // Decimal
  // ---------------------------------------------------------------------------

  function Absolute(x: int): nat { if x < 0 then -x else x }

  function SignChars(x: int, fs: seq<char>): seq<char> {
    if x < 0 then "-" else if '+' in fs then "+" else if ' ' in fs then " " else ""
  }

  function Filled(fs: seq<char>, n: nat): seq<char> { seq(n, _ => if '0' in fs then '0' else ' ') }

  /** What is missing of the width; 2^63 or more is read as a negative number. */
  function Lacking(width: nat, n: nat): nat { if n < width < n + 0x8000_0000_0000_0000 then width - n else 0 }

  /** Sign, padding unless the text is to be left-aligned, digits; with the
      apostrophe, and nothing to pad, digits with commas. */
  predicate NumberText(text: seq<char>, sign: seq<char>, digits: seq<char>, fs: seq<char>, width: nat) {
    var pads := if '-' in fs then 0 else Lacking(width, |sign| + |digits|);
    if '\'' !in fs then text == sign + Filled(fs, pads) + digits else pads == 0 ==> text == sign + Separated(digits)
  }

  lemma PadsAre(width: nat, n: nat, k: nat)
    requires k > 0
    ensures PadCount(Reduced(width, n), k) == Lacking(width, n + k)
  {
  }

  lemma FieldText(num: nat, sign: seq<char>, fs: seq<char>, width: nat) returns (text: seq<char>, digits: seq<char>)
    requires num < 10_000_000_000_000_000_000 && |sign| <= 1
    ensures DecimalField(num, sign, Style('-' in fs, '0' in fs, '\'' in fs, width)) == Some(text)
    ensures IsNumeral(digits, 10, false) && NumberRead(digits, 10) == num && NumberText(text, sign, digits, fs, width)
  {
    hide Decimal, DigitChars, Reduced, PadCount, DecimalField, Pow, Decode, IsNumeral, NumberRead, Separated, Lacking, Grouped;
    var st := Style('-' in fs, '0' in fs, '\'' in fs, width);
    TenToThe(0);
    DecimalFieldIs(num, sign, st);
    var ds := Decimal(num).value;
    var pads := if st.left then 0 else PadCount(Reduced(width, |sign|), |ds|);
    digits := BaseChars(ds, 10, false);
    text := DecimalField(num, sign, st).value;
    NumeralRead(ds, 10, false, num);
    PadsAre(width, |sign|, |ds|);
    assert Repeat(Fill(st.zero), pads) == Filled(fs, pads);
    if st.commas {
      if pads == 0 {
        CommasEveryThree(ds);
        GroupedChars(ds);
        assert sign + Repeat(Fill(st.zero), 0) == sign;
      }
    } else {
      DecimalChars(ds, |ds| + pads);
    }
  }

  /** `%d` and `%i`: with any flags, width, precision and size, the sign and digits printed are read back as the argument, but for
      the smallest numbers, for which C leaves the negation undefined. */
  lemma DecimalPrinted(format: seq<char>, i: nat, fs: seq<char>, w: Width, p: Option<seq<nat>>, size: Size, c: char, n: nat,
        bits: nat, x: int, rest: seq<Arg>) returns (text: seq<char>, digits: seq<char>)
    requires IsSpec(fs, w, p, c) && SpecAt(format, i, fs, w, p, size, c) && c in "di"
    requires Carries(bits, size, x)
    ensures var printed := Formatted(format, i, ArgsFor(w, n) + ([Word(bits)] + rest));
            if Smallest(x, size) then printed.None?
            else
              && printed == Before(text, Formatted(format, AfterSpec(i, fs, w, p, size, c), rest))
              && IsNumeral(digits, 10, false) && NumberRead(digits, 10) == Absolute(x)
              && NumberText(text, SignChars(x, fs), digits, fs, MeantWidth(w, n))
  {
    hide Written, Formatted, SignedValue, DecimalField, MeantWidth, IsNumeral, NumberRead, NumberText, Stands, IsWidth,
      FlagChars, WidthMeant, AfterWidth, Carries, KindOf;
    var args := [Word(bits)] + rest;
    text, digits := [], [];
    DecimalKind(c);
    CarriedSmall(bits, size, x);
    WidthTaken(w, n, args);
    ValueCarried(bits, size, x);
    OneConversion(format, i, fs, w, p, size, c, ArgsFor(w, n) + args);
    assert args[1..] == rest;
    if !Smallest(x, size) {
      text, digits := FieldText(Absolute(x), SignChars(x, fs), fs, MeantWidth(w, n));
    }
  }

  lemma DecimalKind(c: char)
    requires c in "di"
    ensures KindOf(c).0 == Signed
  {
  }

  /** `%u`: the last 64 or 32 bits, if they are below 10^19. */
  lemma UnsignedPrinted(format: seq<char>, i: nat, fs: seq<char>, w: Width, p: Option<seq<nat>>, size: Size, n: nat,
        bits: nat, rest: seq<Arg>) returns (text: seq<char>, digits: seq<char>)
    requires IsSpec(fs, w, p, 'u') && SpecAt(format, i, fs, w, p, size, 'u')
    ensures var num := if SixtyFour(size) then bits % 0x1_0000_0000_0000_0000 else bits % 0x1_0000_0000;
            num < 10_000_000_000_000_000_000 ==>
              && Formatted(format, i, ArgsFor(w, n) + ([Word(bits)] + rest))
                   == Before(text, Formatted(format, AfterSpec(i, fs, w, p, size, 'u'), rest))
              && IsNumeral(digits, 10, false) && NumberRead(digits, 10) == num
              && NumberText(text, "", digits, fs, MeantWidth(w, n))
  {
    hide Written, Formatted, DecimalField, MeantWidth, IsNumeral, NumberRead, NumberText, Stands, IsWidth, FlagChars, WidthMeant,
      AfterWidth;
    var args, num := [Word(bits)] + rest, if SixtyFour(size) then bits % 0x1_0000_0000_0000_0000 else bits % 0x1_0000_0000;
    text, digits := [], [];
    WidthTaken(w, n, args);
    OneConversion(format, i, fs, w, p, size, 'u', ArgsFor(w, n) + args);
    assert args[1..] == rest;
    if num < 10_000_000_000_000_000_000 {
      text, digits := FieldText(num, "", fs, MeantWidth(w, n));
    }
  }

  // ---------------------------------------------------------------------------
  // Hexadecimal and octal
  // ---------------------------------------------------------------------------

  /** One digit may stand before the padding; left alignment appends as many
      blanks as there are digits. */
  function BaseText(prefix: seq<char>, digits: seq<char>, early: nat, fs: seq<char>, width: nat): seq<char>
    requires early <= |digits|
  {
    if '-' in fs then prefix + digits + seq(|digits|, _ => ' ')
    else prefix + digits[..early] + Filled(fs, Lacking(width, |prefix| + |digits|)) + digits[early..]
  }

  /** The digits of every number but `top`, for which the first is what follows
      the last digit of the base in a string, the terminator, and then zeros. */
  predicate BaseDigits(digits: seq<char>, radix: nat, capitals: bool, num: nat, top: nat) {
    && digits != []
    && if num == top then digits[0] == '\0' && forall k | 1 <= k < |digits| :: digits[k] == '0'
       else IsNumeral(digits, radix, capitals) && NumberRead(digits, radix) == num
  }

  lemma SplitDigits(early: seq<nat>, rest: seq<nat>, radix: nat, capitals: bool)
    ensures var digits := BaseChars(early + rest, radix, capitals);
            digits[..|early|] == BaseChars(early, radix, capitals) && digits[|early|..] == BaseChars(rest, radix, capitals)
    ensures BaseChars(early + rest, radix, capitals) == BaseChars(early, radix, capitals) + BaseChars(rest, radix, capitals)
  {
    hide BaseChar;
  }

  /** What is printed for a numeral, in either base. */
  lemma ShiftedPrinted(s: Numeral, radix: nat, capitals: bool, prefix: seq<char>, fs: seq<char>, width: nat)
    requires s.exp == |s.early| + |s.rest| && s.exp > 0
    ensures var digits := BaseChars(s.early + s.rest, radix, capitals);
            var pads := PadCount(Reduced(width, |prefix|), s.exp);
            && ('-' !in fs ==>
                  ShiftedText(s, radix, capitals, prefix, Fill('0' in fs), pads) == BaseText(prefix, digits, |s.early|, fs, width))
            && ('-' in fs ==> prefix + digits + Repeat(' ', s.exp) == BaseText(prefix, digits, |s.early|, fs, width))
  {
    hide BaseChars, PadCount, Reduced, Lacking;
    SplitDigits(s.early, s.rest, radix, capitals);
    PadsAre(width, |prefix|, s.exp);
    DigitCount(s.early + s.rest, radix, capitals);
    var pads := PadCount(Reduced(width, |prefix|), s.exp);
    assert Repeat(Fill('0' in fs), pads) == Filled(fs, pads);
  }

  lemma DigitCount(ds: seq<nat>, radix: nat, capitals: bool)
    ensures |BaseChars(ds, radix, capitals)| == |ds|
  {
  }

  /** The limiting power has the base itself for a first digit. */
  lemma TopDigit(radix: nat, limit: nat)
    requires 2 <= radix && limit > 0
    ensures var s := Shifted(Pow(radix, limit), radix, limit);
            s.Some? && s.value.early == [] && s.value.rest != [] && s.value.rest[0] == radix
            && forall k | 1 <= k < |s.value.rest| :: s.value.rest[k] == 0
  {
    hide Pow;
    var top := Pow(radix, limit);
    GrowIs(top, 0, radix, limit);
    var k := Grow(top, 0, radix, limit);
    if k < limit {
      PowGrows(radix, k + 1, limit);
      BelowTwice(radix, k);
    }
    LimitMisses(radix, limit);
    LimitZeros(radix, limit);
  }

  lemma BelowTwice(radix: nat, k: nat)
    requires radix >= 2
    ensures Pow(radix, k) < Pow(radix, k + 1)
  {
    assert Pow(radix, k + 1) == radix * Pow(radix, k);
    MulMono(2, radix, Pow(radix, k));
  }

  lemma BaseDigitsAre(num: nat, radix: nat, limit: nat, capitals: bool)
    requires (radix == 16 && limit == 15) || (radix == 8 && limit == 21)
    requires num < WORD
    ensures Shifted(num, radix, limit).Some?
    ensures var s, top := Shifted(num, radix, limit).value, if radix == 16 then 0x1000_0000_0000_0000 else 0x8000_0000_0000_0000;
            && BaseDigits(BaseChars(s.early + s.rest, radix, capitals), radix, capitals, num, top)
            && |s.early| == (if num > top then 1 else 0) && s.exp == |s.early| + |s.rest| && s.exp > 0
  {
    hide Shifted, Decode, IsNumeral, NumberRead, BaseChar;
    PowTwo64();
    ShiftedNumeral(num, radix, limit);
    var s := Shifted(num, radix, limit).value;
    if num == Pow(radix, limit) {
      TopDigit(radix, limit);
      assert (s.early + s.rest)[0] == radix;
      NoDigit(radix, capitals);
    } else {
      NumeralRead(s.early + s.rest, radix, capitals, num);
    }
  }

  lemma NoDigit(radix: nat, capitals: bool)
    requires radix == 8 || radix == 16
    ensures BaseChar(radix, radix, capitals) == '\0' && BaseChar(0, radix, capitals) == '0'
  {
  }

  /** `%x` and `%X`, with any flags, of the 64 bits that the argument is extended
      to: prefix and digits in small letters or capitals. */
  lemma HexPrinted(format: seq<char>, i: nat, fs: seq<char>, w: Width, p: Option<seq<nat>>, size: Size, c: char, n: nat,
        bits: nat, x: int, rest: seq<Arg>) returns (digits: seq<char>)
    requires IsSpec(fs, w, p, c) && SpecAt(format, i, fs, w, p, size, c) && c in "xX"
    requires Carries(bits, size, x)
    ensures var num := x % 0x1_0000_0000_0000_0000;
            var prefix := if '#' !in fs then "" else if c == 'X' then "0X" else "0x";
            var early := if num > 0x1000_0000_0000_0000 then 1 else 0;
            && BaseDigits(digits, 16, c == 'X', num, 0x1000_0000_0000_0000)
            && Formatted(format, i, ArgsFor(w, n) + ([Word(bits)] + rest))
                 == Before(BaseText(prefix, digits, early, fs, MeantWidth(w, n)),
                           Formatted(format, AfterSpec(i, fs, w, p, size, c), rest))
  {
    hide Written, Formatted, SignedValue, MeantWidth, Stands, IsWidth, FlagChars, WidthMeant, AfterWidth, BaseText,
      BaseDigits, HexField, KindOf, Carries;
    var num, args := x % 0x1_0000_0000_0000_0000, [Word(bits)] + rest;
    HexKind(c);
    WidthTaken(w, n, args);
    ValueCarried(bits, size, x);
    OneConversion(format, i, fs, w, p, size, c, ArgsFor(w, n) + args);
    assert args[1..] == rest;
    var prefix := if '#' !in fs then "" else if c == 'X' then "0X" else "0x";
    digits := HexFieldText(num, prefix, c == 'X', fs, '\'' in fs, MeantWidth(w, n));
  }

  lemma HexFieldText(num: nat, prefix: seq<char>, capitals: bool, fs: seq<char>, commas: bool, width: nat)
    returns (digits: seq<char>)
    requires num < WORD
    ensures BaseDigits(digits, 16, capitals, num, 0x1000_0000_0000_0000)
    ensures HexField(num, prefix, capitals, Style('-' in fs, '0' in fs, commas, width))
         == Some(BaseText(prefix, digits, if num > 0x1000_0000_0000_0000 then 1 else 0, fs, width))
  {
    hide Shifted, BaseChars, BaseText, BaseDigits, Repeat, Fill, PadCount, Reduced, ShiftedText, HexField;
    BaseDigitsAre(num, 16, 15, capitals);
    var s := Shifted(num, 16, 15).value;
    digits := BaseChars(s.early + s.rest, 16, capitals);
    ShiftedPrinted(s, 16, capitals, prefix, fs, width);
    var st := Style('-' in fs, '0' in fs, commas, width);
    if st.left {
      HexLeft(num, prefix, capitals, st, s);
    } else {
      HexText(num, prefix, capitals, st, s);
    }
  }

  lemma HexKind(c: char)
    requires c in "xX"
    ensures KindOf(c) == (Hex, c == 'X')
  {
  }

  /** `%o` likewise; left-aligned it does not end. */
  lemma OctalPrinted(format: seq<char>, i: nat, fs: seq<char>, w: Width, p: Option<seq<nat>>, size: Size, n: nat,
        bits: nat, x: int, rest: seq<Arg>) returns (digits: seq<char>)
    requires IsSpec(fs, w, p, 'o') && SpecAt(format, i, fs, w, p, size, 'o')
    requires Carries(bits, size, x)
    ensures var num := x % 0x1_0000_0000_0000_0000;
            var prefix := if '#' in fs then "0" else "";
            var early := if num > 0x8000_0000_0000_0000 then 1 else 0;
            && BaseDigits(digits, 8, false, num, 0x8000_0000_0000_0000)
            && Formatted(format, i, ArgsFor(w, n) + ([Word(bits)] + rest)) ==
                 if '-' in fs then None
                 else Before(BaseText(prefix, digits, early, fs, MeantWidth(w, n)),
                             Formatted(format, AfterSpec(i, fs, w, p, size, 'o'), rest))
  {
    hide Written, Formatted, SignedValue, MeantWidth, Stands, IsWidth, FlagChars, WidthMeant, AfterWidth, Shifted,
      BaseChars, BaseText, BaseDigits, Repeat, Fill, PadCount, Reduced;
    var num, args := x % 0x1_0000_0000_0000_0000, [Word(bits)] + rest;
    var width, prefix := MeantWidth(w, n), if '#' in fs then "0" else "";
    WidthTaken(w, n, args);
    ValueCarried(bits, size, x);
    OneConversion(format, i, fs, w, p, size, 'o', ArgsFor(w, n) + args);
    assert args[1..] == rest;
    BaseDigitsAre(num, 8, 21, false);
    var s := Shifted(num, 8, 21).value;
    digits := BaseChars(s.early + s.rest, 8, false);
    ShiftedPrinted(s, 8, false, prefix, fs, width);
  }

  // ---------------------------------------------------------------------------
  // The other conversions
  // ---------------------------------------------------------------------------

  /** `%s` prints the characters that its argument leads to, and nothing else,
      whatever the flags and the width say. */
  lemma TextPrinted(format: seq<char>, i: nat, fs: seq<char>, w: Width, p: Option<seq<nat>>, size: Size, n: nat,
        cs: seq<char>, rest: seq<Arg>)
    requires IsSpec(fs, w, p, 's') && SpecAt(format, i, fs, w, p, size, 's')
    ensures Formatted(format, i, ArgsFor(w, n) + ([Pointer(cs)] + rest))
         == Before(cs, Formatted(format, AfterSpec(i, fs, w, p, size, 's'), rest))
  {
    hide Written, Formatted, Stands, IsWidth, FlagChars, WidthMeant, AfterWidth, FlagsOf, KindOf;
    OtherKinds();
    var args := [Pointer(cs)] + rest;
    WidthTaken(w, n, args);
    OneConversion(format, i, fs, w, p, size, 's', ArgsFor(w, n) + args);
    assert args[1..] == rest;
  }

  lemma OtherKinds()
    ensures KindOf('s').0 == Text && KindOf('c').0 == Character && KindOf('n').0 == CharsSoFar && KindOf('b').0 == Binary
  {
  }

  /** `%c` prints one character, the last eight bits of its argument. */
  lemma CharPrinted(format: seq<char>, i: nat, fs: seq<char>, w: Width, p: Option<seq<nat>>, size: Size, n: nat,
        bits: nat, rest: seq<Arg>)
    requires IsSpec(fs, w, p, 'c') && SpecAt(format, i, fs, w, p, size, 'c')
    ensures Formatted(format, i, ArgsFor(w, n) + ([Word(bits)] + rest))
         == Before([(bits % 0x100) as char], Formatted(format, AfterSpec(i, fs, w, p, size, 'c'), rest))
  {
    hide Written, Formatted, Stands, IsWidth, FlagChars, WidthMeant, AfterWidth, FlagsOf, KindOf;
    OtherKinds();
    var args := [Word(bits)] + rest;
    WidthTaken(w, n, args);
    OneConversion(format, i, fs, w, p, size, 'c', ArgsFor(w, n) + args);
    assert args[1..] == rest;
  }

  /** `%%` prints a percent sign, floating-point conversions print nothing, and
      both take no argument. */
  lemma NoArgumentTaken(format: seq<char>, i: nat, fs: seq<char>, w: Width, p: Option<seq<nat>>, size: Size, c: char, n: nat,
        rest: seq<Arg>)
    requires IsSpec(fs, w, p, c) && SpecAt(format, i, fs, w, p, size, c) && c in "%fFeEgGaA"
    ensures Formatted(format, i, ArgsFor(w, n) + rest)
         == Before(if c == '%' then "%" else "", Formatted(format, AfterSpec(i, fs, w, p, size, c), rest))
  {
    hide Written, Formatted, Stands, IsWidth, FlagChars, WidthMeant, AfterWidth, FlagsOf, KindOf;
    WidthTaken(w, n, rest);
    OneConversion(format, i, fs, w, p, size, c, ArgsFor(w, n) + rest);
    KindWithoutArgument(c);
  }

  lemma KindWithoutArgument(c: char)
    requires c in "%fFeEgGaA"
    ensures KindOf(c).0 == if c == '%' then Percent else Float
  {
  }

  /** `%n` takes an argument and prints nothing; `%b` is not defined. */
  lemma NothingPrinted(format: seq<char>, i: nat, fs: seq<char>, w: Width, p: Option<seq<nat>>, size: Size, c: char, n: nat,
        a: Arg, rest: seq<Arg>)
    requires IsSpec(fs, w, p, c) && SpecAt(format, i, fs, w, p, size, c) && c in "nb"
    ensures Formatted(format, i, ArgsFor(w, n) + ([a] + rest))
         == if c == 'b' then None else Formatted(format, AfterSpec(i, fs, w, p, size, c), rest)
  {
    hide Written, Formatted, Stands, IsWidth, FlagChars, WidthMeant, AfterWidth, FlagsOf, KindOf;
    OtherKinds();
    var args := [a] + rest;
    WidthTaken(w, n, args);
    OneConversion(format, i, fs, w, p, size, c, ArgsFor(w, n) + args);
    assert args[1..] == rest;
    NothingBefore(Formatted(format, AfterSpec(i, fs, w, p, size, c), rest));
  }

  /** A character that is no conversion is dropped with its specification. */
  lemma UnknownDropped(format: seq<char>, i: nat, fs: seq<char>, w: Width, p: Option<seq<nat>>, size: Size, c: char, n: nat,
        rest: seq<Arg>)
    requires IsSpec(fs, w, p, c) && SpecAt(format, i, fs, w, p, size, c) && c !in "%diufFeEgGxXobscaAn"
    ensures Formatted(format, i, ArgsFor(w, n) + rest) == Formatted(format, AfterSpec(i, fs, w, p, size, c), rest)
  {
    hide Written, Formatted, Stands, IsWidth, FlagChars, WidthMeant, AfterWidth, FlagsOf, KindOf;
    WidthTaken(w, n, rest);
    OneConversion(format, i, fs, w, p, size, c, ArgsFor(w, n) + rest);
    KindUnknown(c);
    NothingBefore(Formatted(format, AfterSpec(i, fs, w, p, size, c), rest));
  }

  lemma KindUnknown(c: char)
    requires c !in "%diufFeEgGxXobscaAn"
    ensures KindOf(c).0 == Unknown
  {
  }

  lemma NothingBefore(t: Option<seq<char>>)
    ensures Before([], t) == t
  {
    if t.Some? {
      assert [] + t.value == t.value;
    }
  }

  /** Anything but a percent sign is printed as it is; a backslash in front of a
      percent sign is dropped, and the percent sign then printed as it is. */
  lemma LiteralPrinted(format: seq<char>, i: nat, args: seq<Arg>)
    requires i < |format|
    ensures var c, next := format[i], if i + 1 < |format| then format[i + 1] else '\0';
            && (c != '%' && !(c == '\\' && next == '%') ==> Formatted(format, i, args) == Before([c], Formatted(format, i + 1, args)))
            && (c == '\\' && next == '%' ==> Formatted(format, i, args) == Before("%", Formatted(format, i + 2, args)))
  {
    hide Formatted;
    FormattedStep(format, i, args);
  }
}
