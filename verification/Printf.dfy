/**
 printf: the scanner of conversion specifications, the conversions, and the
 loop over the format. Characters go to a sequence instead of a terminal.
 */
module Printf {
  import opened Options
  import opened Words
  import opened Numerals
  import opened Fields

  datatype Flags = Flags(left: bool, plus: bool, space: bool, zero: bool, commas: bool, prefix: bool)

  datatype Size = Plain | HalfHalf | Half | Long | LongLong | LongDouble | SizeT | IntMaxT | PtrDiffT

  datatype Kind = Character | Float | Hex | Signed | Octal | Binary | Unsigned | Text | Percent | CharsSoFar | Unknown

  datatype Spec = Spec(flags: Flags, width: nat, size: Size, kind: Kind, capitals: bool)

  /** An argument: a 64-bit word, or the characters that a pointer leads to. */
  datatype Arg = Word(bits: nat) | Pointer(chars: seq<char>)

  // ---------------------------------------------------------------------------
  // The scanner
  // ---------------------------------------------------------------------------

  /** format[i]; the terminator may be read, and nothing beyond it. */
  function At(format: seq<char>, i: nat): char
    requires i <= |format|
  {
    if i < |format| then format[i] else '\0'
  }

  predicate IsFlag(c: char) { c in "-+ 0'#" }

  function WithFlag(fl: Flags, c: char): (r: Option<Flags>)
    ensures r.Some? <==> IsFlag(c)
  {
    match c
    case '-' => Some(fl.(left := true))
    case '+' => Some(fl.(plus := true))
    case ' ' => Some(fl.(space := true))
    case '0' => Some(fl.(zero := true))
    case '\'' => Some(fl.(commas := true))
    case '#' => Some(fl.(prefix := true))
    case _ => None
  }

  function ScanFlags(format: seq<char>, i: nat, fl: Flags): (r: (Flags, nat))
    requires i <= |format|
    ensures i <= r.1 <= |format|
    decreases |format| - i
  {
    match WithFlag(fl, At(format, i))
    case None => (fl, i)
    case Some(fl') => ScanFlags(format, i + 1, fl')
  }

  predicate IsDigit(c: char) { '0' <= c <= '9' }

  /** The loops for width and precision, in 64 bits. */
  function ScanNumber(format: seq<char>, i: nat, n: nat): (r: (nat, nat))
    requires i <= |format|
    ensures i <= r.1 <= |format| && (n < WORD ==> r.0 < WORD)
    decreases |format| - i
  {
    if IsDigit(At(format, i)) then ScanNumber(format, i + 1, (n * 10 + (At(format, i) as nat - 0x30)) % WORD) else (n, i)
  }

  function ScanSize(format: seq<char>, i: nat): (r: (Size, nat))
    requires i <= |format|
    ensures i <= r.1 <= |format|
  {
    match At(format, i)
    case 'h' => if At(format, i + 1) == 'h' then (HalfHalf, i + 2) else (Half, i + 1)
    case 'l' => if At(format, i + 1) == 'l' then (LongLong, i + 2) else (Long, i + 1)
    case 'L' => (LongDouble, i + 1)
    case 'z' => (SizeT, i + 1)
    case 'j' => (IntMaxT, i + 1)
    case 't' => (PtrDiffT, i + 1)
    case _ => (Plain, i)
  }

  function KindOf(c: char): (Kind, bool) {
    match c
    case '%' => (Percent, false)
    case 'd' => (Signed, false)
    case 'i' => (Signed, false)
    case 'u' => (Unsigned, false)
    case 'f' => (Float, false)
    case 'F' => (Float, true)
    case 'e' => (Float, false)
    case 'E' => (Float, true)
    case 'g' => (Float, false)
    case 'G' => (Float, true)
    case 'x' => (Hex, false)
    case 'X' => (Hex, true)
    case 'o' => (Octal, false)
    case 'b' => (Binary, false)
    case 's' => (Text, false)
    case 'c' => (Character, false)
    case 'a' => (Float, false)
    case 'A' => (Float, true)
    case 'n' => (CharsSoFar, false)
    case _ => (Unknown, false)
  }

  /** va_arg; more arguments than there are read as zero. */
  function Next(args: seq<Arg>): (Arg, seq<Arg>) {
    if args == [] then (Word(0), []) else (args[0], args[1..])
  }

  /** The last `bits` bits of a word argument. */
  function Low(a: Arg, modulus: nat): nat
    requires modulus > 0
  {
    if a.Word? then a.bits % modulus else 0
  }

  const NO_FLAGS := Flags(false, false, false, false, false, false)

  /** From after the percent sign to the conversion character, at which the
      index is left. A precision is read and ignored. */
  function ScanSpec(format: seq<char>, i: nat, args: seq<Arg>): (r: (Spec, nat, seq<Arg>))
    requires i <= |format|
    ensures i <= r.1 <= |format| && |r.2| <= |args| && r.0.width < WORD
  {
    var (fl, i1) := ScanFlags(format, i, NO_FLAGS);
    var star := At(format, i1) == '*';
    var (width, i2) := if star then (Low(Next(args).0, 0x1_0000_0000), i1 + 1) else ScanNumber(format, i1, 0);
    var i3 := if At(format, i2) == '.' then ScanNumber(format, i2 + 1, 0).1 else i2;
    var (size, i4) := ScanSize(format, i3);
    var (kind, capitals) := KindOf(At(format, i4));
    (Spec(fl, width, size, kind, capitals), i4, if star then Next(args).1 else args)
  }

  // ---------------------------------------------------------------------------
  // The conversions
  // ---------------------------------------------------------------------------

  predicate Wide(size: Size) { size.Long? || size.LongLong? || size.SizeT? || size.IntMaxT? || size.PtrDiffT? }

  /** The argument as a signed number of the size given. */
  function SignedValue(a: Arg, size: Size): int {
    var m := if Wide(size) then WORD else 0x1_0000_0000;
    var x := Low(a, m);
    if x >= m / 2 then x - m else x
  }

  /** `-num_in` overflows: in `int` for the two half sizes, in 64 bits for the
      wide ones. A plain `int` is negated as a `long long`. */
  predicate Overflows(x: int, size: Size) {
    if Wide(size) then x == -0x8000_0000_0000_0000 else (size.HalfHalf? || size.Half?) && x == -0x8000_0000
  }

  function Magnitude(x: int): nat { if x < 0 then -x else x }

  /** The sign printed in front, if any. */
  function SignOf(x: int, fl: Flags): seq<char> {
    if x < 0 then ['-'] else if fl.plus then ['+'] else if fl.space then [' '] else []
  }

  function StyleOf(s: Spec): Style { Style(s.flags.left, s.flags.zero, s.flags.commas, s.width) }

  function HexPrefix(s: Spec): seq<char> {
    if s.flags.prefix then ['0', if s.capitals then 'X' else 'x'] else []
  }

  /** What a conversion prints, and the arguments it leaves; None if the program
      gets stuck in it, or does what C leaves undefined: a negation that
      overflows, or the shift that %b starts with. Floating-point conversions
      print nothing and take no argument. */
  function Convert(s: Spec, args: seq<Arg>): (r: Option<(seq<char>, seq<Arg>)>)
    ensures r.Some? ==> |r.value.1| <= |args|
  {
    var (a, rest) := Next(args);
    match s.kind
    case Character => Some(([(Low(a, 0x100)) as char], rest))
    case Float => Some(([], args))
    case Signed =>
      var x := SignedValue(a, s.size);
      if Overflows(x, s.size) then None else With(DecimalField(Magnitude(x), SignOf(x, s.flags), StyleOf(s)), rest)
    case Unsigned => With(DecimalField(Low(a, if Wide(s.size) then WORD else 0x1_0000_0000), [], StyleOf(s)), rest)
    case Hex => With(HexField(SignedValue(a, s.size) % WORD, HexPrefix(s), s.capitals, StyleOf(s)), rest)
    case Octal => With(OctalField(SignedValue(a, s.size) % WORD, if s.flags.prefix then ['0'] else [], StyleOf(s)), rest)
    case Binary => None
    case Text => Some((if a.Pointer? then a.chars else [], rest))
    case Percent => Some((['%'], args))
    case CharsSoFar => Some(([], rest))
    case Unknown => Some(([], args))
  }

  function With(text: Option<seq<char>>, rest: seq<Arg>): Option<(seq<char>, seq<Arg>)> {
    match text
    case None => None
    case Some(t) => Some((t, rest))
  }

  // ---------------------------------------------------------------------------
  // The loop
  // ---------------------------------------------------------------------------

  /** The text that the format yields from index i on; None if the program gets stuck. */
  function Formatted(format: seq<char>, i: nat, args: seq<Arg>): Option<seq<char>>
    decreases |format| - i
  {
    if i >= |format| then Some([])
    else if format[i] == '\\' && At(format, i + 1) == '%' then Before(['%'], Formatted(format, i + 2, args))
    else if format[i] != '%' then Before([format[i]], Formatted(format, i + 1, args))
    else
      var (s, j, rest) := ScanSpec(format, i + 1, args);
      match Convert(s, rest)
      case None => None
      case Some((text, rest')) => Before(text, Formatted(format, j + 1, rest'))
  }

  function Before(text: seq<char>, rest: Option<seq<char>>): Option<seq<char>> {
    match rest
    case None => None
    case Some(t) => Some(text + t)
  }

  // ---------------------------------------------------------------------------
  // Where the program gets stuck
  // ---------------------------------------------------------------------------

  /** The arguments that a conversion leaves, whatever becomes of it. */
  function ArgsLeft(kind: Kind, args: seq<Arg>): seq<Arg> {
    if kind.Float? || kind.Percent? || kind.Unknown? then args else Next(args).1
  }

  /** The conversions of the format from index i on, each with the arguments it meets. */
  function Conversions(format: seq<char>, i: nat, args: seq<Arg>): seq<(Spec, seq<Arg>)>
    decreases |format| - i
  {
    if i >= |format| then []
    else if format[i] == '\\' && At(format, i + 1) == '%' then Conversions(format, i + 2, args)
    else if format[i] != '%' then Conversions(format, i + 1, args)
    else
      var (s, j, rest) := ScanSpec(format, i + 1, args);
      [(s, rest)] + Conversions(format, j + 1, ArgsLeft(s.kind, rest))
  }

  /** %d at the most negative number of a size, where the negation overflows; %u
      from the largest power of ten in 64 bits on, and left-aligned from 10^19
      on; %o when left-aligned; %b always. */
  predicate Sticks(s: Spec, args: seq<Arg>) {
    var a := Next(args).0;
    match s.kind
    case Signed => Overflows(SignedValue(a, s.size), s.size)
    case Unsigned => Low(a, if Wide(s.size) then WORD else 0x1_0000_0000) >= if s.flags.left then 10_000_000_000_000_000_000 else LARGEST_POWER
    case Octal => s.flags.left
    case Binary => true
    case _ => false
  }

  lemma ConvertSticksIff(s: Spec, args: seq<Arg>)
    ensures Convert(s, args).None? <==> Sticks(s, args)
    ensures Convert(s, args).Some? ==> Convert(s, args).value.1 == ArgsLeft(s.kind, args)
  {
    hide DecimalField, HexField, OctalField, SignedValue, Pow, Wide, Shifted;
    var (a, rest) := Next(args);
    TenToThe(0);
    match s.kind
    case Signed =>
      var x := SignedValue(a, s.size);
      SignedSmall(a, s.size);
      DecimalStuckIff(Magnitude(x), SignOf(x, s.flags), StyleOf(s));
    case Unsigned =>
      DecimalStuckIff(Low(a, if Wide(s.size) then WORD else 0x1_0000_0000), [], StyleOf(s));
    case Hex => HexNeverSticks(SignedValue(a, s.size) % WORD, HexPrefix(s), s.capitals, StyleOf(s));
    case Octal => OctalSticksIff(SignedValue(a, s.size) % WORD, if s.flags.prefix then ['0'] else [], StyleOf(s));
    case _ =>
  }

  lemma HexNeverSticks(num: nat, prefix: seq<char>, capitals: bool, st: Style)
    requires num < WORD
    ensures HexField(num, prefix, capitals, st).Some?
  {
    hide Shifted;
    HexShifts(num);
  }

  lemma OctalSticksIff(num: nat, prefix: seq<char>, st: Style)
    requires num < WORD
    ensures OctalField(num, prefix, st).None? <==> st.left
  {
    hide Shifted, Pow;
    PowTwo64();
    ShiftedNumeral(num, 8, 21);
  }

  predicate SomeSticks(cs: seq<(Spec, seq<Arg>)>) {
    exists k :: 0 <= k < |cs| && Sticks(cs[k].0, cs[k].1)
  }

  /** The program gets stuck exactly if some conversion of the format does. */
  lemma {:induction false} FormatSticksIff(format: seq<char>, i: nat, args: seq<Arg>)
    ensures Formatted(format, i, args).None? <==> SomeSticks(Conversions(format, i, args))
    decreases |format| - i
  {
    hide ScanSpec, Convert, Sticks, SomeSticks;
    if i >= |format| {
      NoneSticks();
    } else if format[i] == '\\' && At(format, i + 1) == '%' {
      FormatSticksIff(format, i + 2, args);
    } else if format[i] != '%' {
      FormatSticksIff(format, i + 1, args);
    } else {
      var (s, j, rest) := ScanSpec(format, i + 1, args);
      var tail := Conversions(format, j + 1, ArgsLeft(s.kind, rest));
      ConvertSticksIff(s, rest);
      FormatSticksIff(format, j + 1, ArgsLeft(s.kind, rest));
      FirstOrLater((s, rest), tail);
      assert Conversions(format, i, args) == [(s, rest)] + tail;
    }
  }

  lemma NoneSticks()
    ensures !SomeSticks([])
  {
  }

  lemma FirstOrLater(c: (Spec, seq<Arg>), cs: seq<(Spec, seq<Arg>)>)
    ensures SomeSticks([c] + cs) <==> Sticks(c.0, c.1) || SomeSticks(cs)
  {
    hide Sticks;
    if Sticks(c.0, c.1) {
      assert ([c] + cs)[0] == c;
    }
    if SomeSticks(cs) {
      var k :| 0 <= k < |cs| && Sticks(cs[k].0, cs[k].1);
      assert ([c] + cs)[k + 1] == cs[k];
    }
  }

  /** Below 10^19 as a 64-bit word, and the most negative number of no size. */
  predicate Tame(a: Arg) {
    a.Word? ==> a.bits % WORD < 10_000_000_000_000_000_000 && a.bits % WORD != 0x8000_0000_0000_0000
                && a.bits % 0x1_0000_0000 != 0x8000_0000
  }

  lemma TameNext(args: seq<Arg>)
    requires forall a | a in args :: Tame(a)
    ensures Tame(Next(args).0) && forall a | a in Next(args).1 :: Tame(a)
  {
  }

  /** What a conversion has to be to end for all tame arguments. */
  predicate Ends(s: Spec) {
    !s.kind.Binary? && !(s.kind.Octal? && s.flags.left)
  }

  lemma TameSticksIff(s: Spec, args: seq<Arg>)
    requires forall a | a in args :: Tame(a)
    ensures Sticks(s, args) <==> !Ends(s)
  {
    TameNext(args);
  }

  /** The conversions of a format with tame arguments meet tame arguments. */
  lemma {:induction false} TameConversions(format: seq<char>, i: nat, args: seq<Arg>)
    requires forall a | a in args :: Tame(a)
    ensures forall c | c in Conversions(format, i, args) :: forall a | a in c.1 :: Tame(a)
    decreases |format| - i
  {
    hide ScanSpec, Tame;
    if i < |format| {
      if format[i] == '\\' && At(format, i + 1) == '%' {
        TameConversions(format, i + 2, args);
      } else if format[i] != '%' {
        TameConversions(format, i + 1, args);
      } else {
        var (s, j, rest) := ScanSpec(format, i + 1, args);
        ScannedTame(format, i + 1, args);
        TameNext(rest);
        TameConversions(format, j + 1, ArgsLeft(s.kind, rest));
      }
    }
  }

  lemma ScannedTame(format: seq<char>, i: nat, args: seq<Arg>)
    requires i <= |format| && forall a | a in args :: Tame(a)
    ensures forall a | a in ScanSpec(format, i, args).2 :: Tame(a)
  {
    hide Tame, ScanFlags, ScanNumber, ScanSize;
    TameNext(args);
  }

  /** For tame arguments, however many, every conversion of a format comes to an
      end exactly if none is `%b` or a left-aligned `%o`. */
  lemma TameFormatEndsIff(format: seq<char>, i: nat, args: seq<Arg>)
    requires forall a | a in args :: Tame(a)
    ensures Formatted(format, i, args).Some? <==> forall c | c in Conversions(format, i, args) :: Ends(c.0)
  {
    hide Formatted, Conversions, Sticks, Tame, Ends;
    FormatSticksIff(format, i, args);
    TameConversions(format, i, args);
    forall c | c in Conversions(format, i, args) ensures Sticks(c.0, c.1) <==> !Ends(c.0) {
      TameSticksIff(c.0, c.1);
    }
  }

  /** A format without percent signs is printed as it is. */
  lemma {:induction false} PlainText(format: seq<char>, i: nat, args: seq<Arg>)
    requires i <= |format| && '%' !in format
    ensures Formatted(format, i, args) == Some(format[i..])
    decreases |format| - i
  {
    if i < |format| {
      PlainText(format, i + 1, args);
      assert [format[i]] + format[i + 1..] == format[i..];
    } else {
      assert format[i..] == [];
    }
  }

  // ---------------------------------------------------------------------------
  // Specifications as they are written
  // ---------------------------------------------------------------------------

  /** The flags that a sequence of flag characters sets, one after the other. */
  function FlagsFrom(fs: seq<char>, fl: Flags): Option<Flags> {
    if fs == [] then Some(fl)
    else
      match WithFlag(fl, fs[0])
      case None => None
      case Some(fl') => FlagsFrom(fs[1..], fl')
  }

  /** A flag is set if its character is there, wherever and however often. */
  function FlagsOf(fs: seq<char>): Flags {
    Flags('-' in fs, '+' in fs, ' ' in fs, '0' in fs, '\'' in fs, '#' in fs)
  }

  predicate FlagChars(fs: seq<char>) { forall c | c in fs :: c in "-+ 0'#" }

  function Either(a: Flags, b: Flags): Flags {
    Flags(a.left || b.left, a.plus || b.plus, a.space || b.space, a.zero || b.zero, a.commas || b.commas, a.prefix || b.prefix)
  }

  lemma {:induction false} FlagsAre(fs: seq<char>, fl: Flags)
    requires FlagChars(fs)
    ensures FlagsFrom(fs, fl) == Some(Either(fl, FlagsOf(fs)))
  {
    hide FlagsOf, WithFlag, Either;
    if fs == [] {
      NoFlagChars(fl);
    } else {
      assert fs == [fs[0]] + fs[1..];
      OneFlag(fs[0], fl);
      JoinedFlags(fs[0], fs[1..]);
      FlagsAre(fs[1..], WithFlag(fl, fs[0]).value);
      ThreeFlags(fl, FlagsOf([fs[0]]), FlagsOf(fs[1..]));
    }
  }

  lemma NoFlagChars(fl: Flags)
    ensures Either(fl, FlagsOf([])) == fl
  {
  }

  lemma OneFlag(c: char, fl: Flags)
    requires c in "-+ 0'#"
    ensures WithFlag(fl, c) == Some(Either(fl, FlagsOf([c])))
  {
  }

  lemma JoinedFlags(c: char, fs: seq<char>)
    ensures FlagsOf([c] + fs) == Either(FlagsOf([c]), FlagsOf(fs))
  {
  }

  lemma ThreeFlags(a: Flags, b: Flags, c: Flags)
    ensures Either(Either(a, b), c) == Either(a, Either(b, c))
  {
  }

  /** A width: digits, the first not zero, which would be a flag; or an asterisk. */
  datatype Width = Given(ds: seq<nat>) | Star

  predicate IsWidth(w: Width) {
    w.Given? ==> Below(w.ds, 10) && (w.ds != [] ==> w.ds[0] > 0)
  }

  function WidthChars(w: Width): seq<char> {
    match w
    case Given(ds) => DigitChars(ds, |ds|, false)
    case Star => ['*']
  }

  /** The width meant: the number written, modulo 2^64, or the next argument as an unsigned int. */
  function WidthMeant(w: Width, args: seq<Arg>): nat {
    match w
    case Given(ds) => Decode(ds, 10) % WORD
    case Star => Low(Next(args).0, 0x1_0000_0000)
  }

  function AfterWidth(w: Width, args: seq<Arg>): seq<Arg> {
    if w.Star? then Next(args).1 else args
  }

  /** A precision, if there is one. */
  function PrecisionChars(p: Option<seq<nat>>): seq<char> {
    match p
    case None => []
    case Some(ds) => ['.'] + DigitChars(ds, |ds|, false)
  }

  function SizeLetters(size: Size): seq<char> {
    match size
    case Plain => []
    case HalfHalf => ['h', 'h']
    case Half => ['h']
    case Long => ['l']
    case LongLong => ['l', 'l']
    case LongDouble => ['L']
    case SizeT => ['z']
    case IntMaxT => ['j']
    case PtrDiffT => ['t']
  }

  /** part stands in the format at i. */
  predicate Stands(format: seq<char>, i: nat, part: seq<char>) {
    i + |part| <= |format| && forall k | 0 <= k < |part| :: format[i + k] == part[k]
  }

  lemma {:induction false} FlagsScanned(format: seq<char>, i: nat, fs: seq<char>, fl: Flags)
    requires Stands(format, i, fs) && FlagsFrom(fs, fl).Some? && !IsFlag(At(format, i + |fs|))
    ensures ScanFlags(format, i, fl) == (FlagsFrom(fs, fl).value, i + |fs|)
    decreases |fs|
  {
    if fs != [] {
      assert format[i] == fs[0];
      assert forall k | 0 <= k < |fs| - 1 :: format[i + 1 + k] == fs[1..][k] by {
        forall k | 0 <= k < |fs| - 1 ensures format[i + 1 + k] == fs[1..][k] {
          assert format[i + (k + 1)] == fs[k + 1];
        }
      }
      FlagsScanned(format, i + 1, fs[1..], WithFlag(fl, fs[0]).value);
    }
  }

  /** The value that digits read after n denote. */
  function Continued(n: nat, ds: seq<nat>): nat { n * Pow(10, |ds|) + Decode(ds, 10) }

  lemma {:induction false} NumberScanned(format: seq<char>, i: nat, ds: seq<nat>, n: nat)
    requires Below(ds, 10) && Stands(format, i, DigitChars(ds, |ds|, false)) && |DigitChars(ds, |ds|, false)| == |ds|
    requires !IsDigit(At(format, i + |ds|))
    ensures ScanNumber(format, i, n % WORD) == (Continued(n, ds) % WORD, i + |ds|)
    decreases |ds|
  {
    if ds != [] {
      var cs := DigitChars(ds, |ds|, false);
      PlainDigits(ds[1..], |ds| - 1, |ds| - 1);
      assert cs == [DigitChar(ds[0])] + DigitChars(ds[1..], |ds| - 1, false);
      assert format[i + 0] == cs[0];
      var tail := DigitChars(ds[1..], |ds| - 1, false);
      forall k | 0 <= k < |tail| ensures format[i + 1 + k] == tail[k] {
        assert format[i + (k + 1)] == cs[k + 1];
      }
      DigitRead(ds[0]);
      NumberScanned(format, i + 1, ds[1..], n * 10 + ds[0]);
      StepRemainder(n, ds[0]);
      ContinuedStep(n, ds);
    }
  }

  lemma DigitRead(d: nat)
    requires d < 10
    ensures IsDigit(DigitChar(d)) && DigitChar(d) as nat - 0x30 == d
  {
  }

  lemma StepRemainder(n: nat, d: nat)
    ensures (n % WORD * 10 + d) % WORD == (n * 10 + d) % WORD
  {
    var q, r := n / WORD, n % WORD;
    assert n * 10 + d == WORD * (10 * q) + (r * 10 + d);
    SameRemainder(10 * q, r * 10 + d);
  }

  lemma ContinuedStep(n: nat, ds: seq<nat>)
    requires ds != []
    ensures Continued(n * 10 + ds[0], ds[1..]) == Continued(n, ds)
  {
    var p := Pow(10, |ds| - 1);
    assert (n * 10 + ds[0]) * p == n * (10 * p) + ds[0] * p;
  }

  lemma StandsParts(format: seq<char>, i: nat, a: seq<char>, b: seq<char>)
    requires Stands(format, i, a + b)
    ensures Stands(format, i, a) && Stands(format, i + |a|, b)
  {
    forall k | 0 <= k < |a| ensures format[i + k] == a[k] {
      assert (a + b)[k] == a[k];
    }
    forall k | 0 <= k < |b| ensures format[i + |a| + k] == b[k] {
      assert format[i + (|a| + k)] == (a + b)[|a| + k];
    }
  }

  /** A character that belongs to no other part of a specification ends it, and
      is taken for a conversion, whether there is such a conversion or not. */
  predicate IsConversion(c: char) { !('0' <= c <= '9') && c !in "-+ '#*.hlLzjt" }

  lemma ConversionIsNoOther(c: char)
    requires IsConversion(c)
    ensures !IsFlag(c) && !IsDigit(c) && c != '*' && c != '.' && c != 'h' && c != 'l' && c != 'L' && c != 'z' && c != 'j' && c != 't'
  {
  }

  /** What comes after the width: precision, size, conversion. */
  function Ending(p: Option<seq<nat>>, size: Size, c: char): seq<char> {
    PrecisionChars(p) + (SizeLetters(size) + [c])
  }

  /** A specification as it is written: flags, width, precision, size, conversion. */
  function Written(fs: seq<char>, w: Width, p: Option<seq<nat>>, size: Size, c: char): seq<char> {
    fs + (WidthChars(w) + Ending(p, size, c))
  }

  /** The specification meant; nothing of the precision is left. */
  function SpecOf(fs: seq<char>, w: Width, size: Size, c: char, args: seq<Arg>): Spec {
    Spec(FlagsOf(fs), WidthMeant(w, args), size, KindOf(c).0, KindOf(c).1)
  }

  ghost predicate IsSpec(fs: seq<char>, w: Width, p: Option<seq<nat>>, c: char) {
    FlagChars(fs) && IsWidth(w) && (p.Some? ==> Below(p.value, 10)) && IsConversion(c)
  }

  /** The scanner reads back a specification as it was written, whatever
      follows, and stops at its conversion character. */
  lemma ScanReadsBack(format: seq<char>, i: nat, fs: seq<char>, w: Width, p: Option<seq<nat>>, size: Size, c: char,
        args: seq<Arg>)
    requires IsSpec(fs, w, p, c) && Stands(format, i, Written(fs, w, p, size, c))
    ensures ScanSpec(format, i, args) ==
              (SpecOf(fs, w, size, c, args), i + |Written(fs, w, p, size, c)| - 1, AfterWidth(w, args))
  {
    hide FlagsFrom, FlagsOf, DigitChars, ScanFlags, ScanNumber, ScanSize, Decode, Stands, SizeLetters, WithFlag, IsFlag, Ending,
      WidthChars,
      IsConversion;
    StandsParts(format, i, fs, WidthChars(w) + Ending(p, size, c));
    var i1 := i + |fs|;
    var i2 := i1 + |WidthChars(w)|;
    StandsParts(format, i1, WidthChars(w), Ending(p, size, c));
    FirstOfEnding(format, i2, p, size, c);
    FirstOfWidth(format, i1, w, p, size, c);
    FlagsAre(fs, NO_FLAGS);
    NoneElse(FlagsOf(fs));
    FlagsScanned(format, i, fs, NO_FLAGS);
    WidthScanned(format, i1, w, args);
    EndingScanned(format, i2, p, size, c);
  }

  lemma NoneElse(fl: Flags)
    ensures Either(NO_FLAGS, fl) == fl
  {
  }

  /** What comes after the flags is no flag. */
  lemma FirstOfWidth(format: seq<char>, i: nat, w: Width, p: Option<seq<nat>>, size: Size, c: char)
    requires IsWidth(w) && Stands(format, i, WidthChars(w)) && !IsFlag(At(format, i + |WidthChars(w)|))
    ensures !IsFlag(At(format, i))
  {
    match w
    case Given(ds) =>
      PlainDigits(ds, |ds|, |ds|);
      if ds != [] {
        DigitRead(ds[0]);
        assert format[i + 0] == DigitChars(ds, |ds|, false)[0] == DigitChar(ds[0]);
      }
    case Star =>
      assert format[i + 0] == ['*'][0];
  }

  lemma WidthScanned(format: seq<char>, i: nat, w: Width, args: seq<Arg>)
    requires IsWidth(w) && Stands(format, i, WidthChars(w))
    requires !IsDigit(At(format, i + |WidthChars(w)|)) && At(format, i + |WidthChars(w)|) != '*'
    ensures At(format, i) == '*' <==> w.Star?
    ensures w.Given? ==> ScanNumber(format, i, 0) == (WidthMeant(w, args), i + |WidthChars(w)|)
    ensures w.Star? ==> |WidthChars(w)| == 1 && i < |format|
  {
    match w
    case Given(ds) =>
      hide DigitChars, ScanNumber, Decode;
      PlainDigits(ds, |ds|, |ds|);
      NumberScanned(format, i, ds, 0);
      ContinuedZero(ds);
      if ds != [] {
        FirstDigit(ds);
        assert format[i + 0] == DigitChars(ds, |ds|, false)[0];
      }
    case Star =>
      assert format[i + 0] == ['*'][0];
  }

  lemma FirstDigit(ds: seq<nat>)
    requires Below(ds, 10) && ds != []
    ensures |DigitChars(ds, |ds|, false)| > 0 && IsDigit(DigitChars(ds, |ds|, false)[0])
  {
    DigitRead(ds[0]);
  }

  lemma ContinuedZero(ds: seq<nat>)
    ensures Continued(0, ds) == Decode(ds, 10)
  {
  }

  lemma FirstOfEnding(format: seq<char>, i: nat, p: Option<seq<nat>>, size: Size, c: char)
    requires IsConversion(c) && Stands(format, i, Ending(p, size, c))
    ensures !IsFlag(At(format, i)) && !IsDigit(At(format, i)) && At(format, i) != '*'
  {
    hide DigitChars, IsConversion;
    StandsParts(format, i, PrecisionChars(p), SizeLetters(size) + [c]);
    match p
    case None => FirstOfSize(format, i, size, c);
    case Some(ds) => assert format[i + 0] == PrecisionChars(p)[0] == '.';
  }

  lemma FirstOfSize(format: seq<char>, i: nat, size: Size, c: char)
    requires IsConversion(c) && Stands(format, i, SizeLetters(size) + [c])
    ensures !IsFlag(At(format, i)) && !IsDigit(At(format, i)) && At(format, i) != '*' && At(format, i) != '.'
  {
    hide IsConversion;
    ConversionIsNoOther(c);
    assert format[i + 0] == (SizeLetters(size) + [c])[0];
  }

  lemma EndingScanned(format: seq<char>, i: nat, p: Option<seq<nat>>, size: Size, c: char)
    requires IsConversion(c) && (p.Some? ==> Below(p.value, 10)) && Stands(format, i, Ending(p, size, c))
    ensures i < |format|
    ensures var i3 := if At(format, i) == '.' then ScanNumber(format, i + 1, 0).1 else i;
            && ScanSize(format, i3) == (size, i + |Ending(p, size, c)| - 1)
            && At(format, i + |Ending(p, size, c)| - 1) == c
  {
    hide DigitChars, ScanNumber, ScanSize, SizeLetters, IsFlag, IsConversion;
    var i3 := i + |PrecisionChars(p)|;
    StandsParts(format, i, PrecisionChars(p), SizeLetters(size) + [c]);
    FirstOfSize(format, i3, size, c);
    SizeScanned(format, i3, size, c);
    match p
    case None =>
    case Some(ds) =>
      assert format[i + 0] == PrecisionChars(p)[0] == '.';
      PlainDigits(ds, |ds|, |ds|);
      StandsParts(format, i, ['.'], DigitChars(ds, |ds|, false));
      NumberScanned(format, i + 1, ds, 0);
  }

  lemma SizeScanned(format: seq<char>, i: nat, size: Size, c: char)
    requires IsConversion(c) && Stands(format, i, SizeLetters(size) + [c])
    ensures ScanSize(format, i) == (size, i + |SizeLetters(size)|) && At(format, i + |SizeLetters(size)|) == c
  {
    hide IsConversion, IsFlag, IsDigit;
    ConversionIsNoOther(c);
    var part := SizeLetters(size) + [c];
    assert format[i + 0] == part[0];
    if |part| > 1 {
      assert format[i + 1] == part[1];
    }
    if |part| > 2 {
      assert format[i + 2] == part[2];
    }
  }

  // ---------------------------------------------------------------------------
  // One conversion
  // ---------------------------------------------------------------------------

  /** A specification stands in the format after its percent sign at i. */
  predicate SpecAt(format: seq<char>, i: nat, fs: seq<char>, w: Width, p: Option<seq<nat>>, size: Size, c: char) {
    i < |format| && format[i] == '%' && Stands(format, i + 1, Written(fs, w, p, size, c))
  }

  /** Where the format goes on. */
  function AfterSpec(i: nat, fs: seq<char>, w: Width, p: Option<seq<nat>>, size: Size, c: char): nat {
    i + 1 + |Written(fs, w, p, size, c)|
  }

  /** Where a specification stands, what its conversion prints is printed, and
      then the rest of the format with the arguments that are left. */
  lemma OneConversion(format: seq<char>, i: nat, fs: seq<char>, w: Width, p: Option<seq<nat>>, size: Size, c: char,
        args: seq<Arg>)
    requires IsSpec(fs, w, p, c) && SpecAt(format, i, fs, w, p, size, c)
    ensures var r := Convert(SpecOf(fs, w, size, c, args), AfterWidth(w, args));
            Formatted(format, i, args) ==
              if r.None? then None else Before(r.value.0, Formatted(format, AfterSpec(i, fs, w, p, size, c), r.value.1))
  {
    hide IsSpec, Written, Convert, ScanSpec, FlagsOf, Stands, AfterWidth, SpecOf, Formatted;
    ScanReadsBack(format, i + 1, fs, w, p, size, c, args);
    FormattedStep(format, i, args);
  }

  lemma SignedSmall(a: Arg, size: Size)
    ensures Magnitude(SignedValue(a, size)) <= 0x8000_0000_0000_0000
  {
  }

  // ---------------------------------------------------------------------------
  // The code
  // ---------------------------------------------------------------------------

  class Printer {
    var out: seq<char>   // what putchar has been given
    var count: int       // num_chars_written

    constructor ()
      ensures out == [] && count == 0
    {
      out, count := [], 0;
    }

    method PutChar(c: char)
      modifies `out
      ensures out == old(out) + [c]
    {
      out := out + [c];
    }

    /** text has been printed, and counted. */
    twostate predicate Printed(text: seq<char>)
      reads this
    {
      out == old(out) + text && count == old(count) + |text|
    }

    method PutAll(text: seq<char>)
      modifies this
      ensures Printed(text)
    {
      var i := 0;
      while i < |text|
        invariant i <= |text| && out == old(out) + text[..i] && count == old(count) + i
      {
        PutChar(text[i]);
        count := count + 1;
        i := i + 1;
      }
    }

    /** `while ((signed long long) (width - exp) > 0)`. */
    method Pad(width: nat, exp: nat, fill: char) returns (e: nat)
      requires width < WORD && exp < 0x8000_0000_0000_0000
      modifies this
      ensures e == exp + PadCount(width, exp) && Printed(Repeat(fill, PadCount(width, exp)))
    {
      e := exp;
      while 0 < (width - e) % 0x1_0000_0000_0000_0000 < 0x8000_0000_0000_0000
        invariant exp <= e && (e <= width || e == exp) && e - exp + PadCount(width, e) == PadCount(width, exp)
        invariant out == old(out) + Repeat(fill, e - exp) && count == old(count) + (e - exp)
        decreases PadCount(width, e)
      {
        SignedDifference(width, e);
        PutChar(fill);
        count := count + 1;
        e := e + 1;
      }
      SignedDifference(width, e);
    }

    /** The first loop of a decimal conversion, cut where its value has come to
        stay at zero. */
    method FindPower(number: nat) returns (stuck: bool, exp: nat, val: nat)
      ensures stuck <==> ScaleTen(number, 0, 1).None?
      ensures !stuck ==> ScaleTen(number, 0, 1) == Some((exp, val)) && exp <= 64
    {
      hide TimesTen;
      exp, val := 1, TimesTen(1);
      while val <= number && exp < 64
        invariant 1 <= exp <= 64
        invariant ScaleTen(number, 0, 1) == if val > number then Some((exp, val)) else if exp >= 64 then None else ScaleTen(number, exp, val)
        decreases 64 - exp
      {
        exp, val := exp + 1, TimesTen(val);
      }
      stuck := val <= number;
    }

    /** The second loop. */
    method PutDigits(number: nat, power: nat, exp: nat, commas: bool) returns (stuck: bool, left: int)
      modifies this
      ensures stuck <==> Digits(number, power, 10).None?
      ensures !stuck ==> left == exp - |Digits(number, power, 10).value|
                         && Printed(DigitChars(Digits(number, power, 10).value, exp, commas))
    {
      hide Digits, Quotient, CommaAfter, DigitChar, DigitChars;
      ghost var all := Digits(number, power, 10);
      ghost var total := if all.Some? then DigitChars(all.value, exp, commas) else [];
      var num: nat, val: nat := number, power;
      left := exp;
      while val > 1
        invariant Digits(num, val, 10).Some? <==> all.Some?
        invariant count - old(count) == |out| - |old(out)|
        invariant all.Some? ==> out + DigitChars(Digits(num, val, 10).value, left, commas) == old(out) + total
        invariant all.Some? ==> exp - left == |all.value| - |Digits(num, val, 10).value|
        decreases val
      {
        DigitsStep(num, val);
        var v := val / 10;
        if v == 0 {
          return true, left;
        }
        ghost var before, ds := out, Digits(num % v, v, 10);
        var digit := Quotient(num, v);
        left := left - 1;
        PutChar(DigitChar(digit));
        count := count + 1;
        if commas && CommaAfter(left) {
          PutChar(',');
          count := count + 1;
        }
        if ds.Some? {
          DigitAppended(before, out, digit, ds.value, left, commas);
        }
        num, val := num % v, v;
      }
      NoDigits(num, val);
      NoChars(left, commas);
      assert all.Some? ==> out + [] == out;
      return false, left;
    }

    /** A decimal conversion after its argument has been fetched. */
    method PutDecimal(number: nat, sign: seq<char>, st: Style) returns (stuck: bool)
      requires |sign| <= 1 && st.width < WORD
      modifies this
      ensures stuck <==> DecimalField(number, sign, st).None?
      ensures !stuck ==> Printed(DecimalField(number, sign, st).value)
    {
      hide ScaleTen, Digits, DigitChars, PadCount;
      PutAll(sign);
      var width := if |sign| > 0 && st.width > 0 then st.width - 1 else st.width;
      var exp: nat, val;
      stuck, exp, val := FindPower(number);
      if stuck {
        return;
      }
      ghost var pads := if st.left then 0 else PadCount(width, exp);
      assert Repeat(Fill(st.zero), 0) == [];
      if !st.left {
        exp := Pad(width, exp, Fill(st.zero));
      }
      assert Printed(sign + Repeat(Fill(st.zero), pads));
      var left;
      stuck, left := PutDigits(number, val, exp, st.commas);
      if !stuck {
        stuck := st.left && left > 0;
      }
    }

    /** `while (val < radix^limit)`, with shifts for multiplications. */
    method FindShift(number: nat, radix: nat, limit: nat, top: nat) returns (exp: nat, val: nat)
      requires radix >= 2 && top == Pow(radix, limit) && limit > 0
      ensures exp == Grow(number, 0, radix, limit) && val == Pow(radix, exp)
    {
      hide Pow;
      PowOne(radix);
      exp, val := 0, 1;
      while val < top
        invariant exp <= limit && val == Pow(radix, exp)
        invariant Grow(number, exp, radix, limit) == Grow(number, 0, radix, limit)
        decreases limit - exp
      {
        PowBelow(radix, exp, limit);
        PowStep(radix, exp);
        exp, val := exp + 1, val * radix;
        if val > number {
          return;
        }
      }
      PowNotBelow(radix, exp, limit);
    }

    /** `while (val > 1) { val >>= bits; ... }`. */
    method PutBaseDigits(number: nat, power: nat, radix: nat, capitals: bool)
      requires radix >= 2 && Digits(number, power, radix).Some?
      modifies this
      ensures Printed(BaseChars(Digits(number, power, radix).value, radix, capitals))
    {
      hide Digits, Quotient, BaseChar;
      ghost var total := BaseChars(Digits(number, power, radix).value, radix, capitals);
      var num: nat, val: nat := number, power;
      while val > 1
        invariant Digits(num, val, radix).Some?
        invariant out + BaseChars(Digits(num, val, radix).value, radix, capitals) == old(out) + total
        invariant count - old(count) == |out| - |old(out)|
        decreases val
      {
        BaseDigitsStep(num, val, radix);
        QuotientSmaller(val, radix);
        var v := val / radix;
        ghost var before := out;
        var digit := Quotient(num, v);
        PutChar(BaseChar(digit, radix, capitals));
        count := count + 1;
        BaseCharAppended(before, digit, Digits(num % v, v, radix).value, radix, capitals);
        num, val := num % v, v;
      }
      NoBaseDigits(num, val, radix);
      assert out + [] == out;
    }

    /** What both bases do before they pad. */
    method PutEarly(number: nat, radix: nat, limit: nat, top: nat, capitals: bool) returns (num: nat, val: nat,
          exp: nat)
      requires radix >= 2 && top == Pow(radix, limit) && limit > 0 && number < radix * top
      modifies this
      ensures Shifted(number, radix, limit).Some?
      ensures var s := Shifted(number, radix, limit).value;
              exp == s.exp && Digits(num, val, radix) == Some(s.rest) && Printed(BaseChars(s.early, radix, capitals))
      ensures exp <= limit + 1 && var v := Pow(radix, Grow(number, 0, radix, limit)); num == if v < number then number % v else number
    {
      hide Digits, Pow, Grow, Quotient, BaseChar;
      ShiftedRightIff(number, radix, limit);
      exp, val := FindShift(number, radix, limit, top);
      GrowBound(number, radix, limit);
      num := number;
      if val < num {
        exp := exp + 1;
        PutChar(BaseChar(Quotient(num, val), radix, capitals));
        count := count + 1;
        num := num % val;
      }
    }

    /** `%x`, `%X`. */
    method PutHex(number: nat, prefix: seq<char>, capitals: bool, st: Style)
      requires number < WORD && (|prefix| == 0 || |prefix| == 2) && st.width < WORD
      modifies this
      ensures HexField(number, prefix, capitals, st).Some? && Printed(HexField(number, prefix, capitals, st).value)
    {
      hide Digits, Pow, Grow, PadCount, Shifted, BaseChars, Repeat, Fill;
      PowTwo64();
      PutAll(prefix);
      HexShifts(number);
      ghost var s := Shifted(number, 16, 15).value;
      ghost var early, rest := BaseChars(s.early, 16, capitals), BaseChars(s.rest, 16, capitals);
      var width := if |prefix| == 0 then st.width else if st.width <= 1 then 0 else st.width - 2;
      var num, val, exp := PutEarly(number, 16, 15, 0x1000_0000_0000_0000, capitals);
      if st.left {
        EmptyPad(Fill(st.zero));
        PutBaseDigits(num, val, 16, capitals);
        PutAll(Repeat(' ', exp));
        Joined(old(out), prefix, early, Repeat(Fill(st.zero), 0), rest, Repeat(' ', exp));
      } else {
        ghost var pads := Repeat(Fill(st.zero), PadCount(width, exp));
        var _ := Pad(width, exp, Fill(st.zero));
        PutBaseDigits(num, val, 16, capitals);
        Joined(old(out), prefix, early, pads, rest, []);
      }
    }

    /** `%o`. */
    method PutOctal(number: nat, prefix: seq<char>, st: Style) returns (stuck: bool)
      requires number < WORD && |prefix| <= 1 && st.width < WORD
      modifies this
      ensures stuck <==> OctalField(number, prefix, st).None?
      ensures !stuck ==> Printed(OctalField(number, prefix, st).value)
    {
      hide Digits, Pow, Grow, PadCount, Shifted, BaseChars, Repeat;
      PowTwo64();
      PutAll(prefix);
      var width := if |prefix| > 0 && st.width > 0 then st.width - 1 else st.width;
      var num, val, exp := PutEarly(number, 8, 21, 0x8000_0000_0000_0000, false);
      if st.left {
        return true;
      }
      var _ := Pad(width, exp, Fill(st.zero));
      if num == 0 {
        OctalZero(number);
        PutChar('0');
        count := count + 1;
      } else {
        PutBaseDigits(num, val, 8, false);
      }
      return false;
    }

    method ReadFlags(format: seq<char>, i: nat) returns (fl: Flags, j: nat)
      requires i <= |format|
      ensures (fl, j) == ScanFlags(format, i, NO_FLAGS)
    {
      fl, j := NO_FLAGS, i;
      while IsFlag(At(format, j))
        invariant j <= |format| && ScanFlags(format, j, fl) == ScanFlags(format, i, NO_FLAGS)
        decreases |format| - j
      {
        fl, j := WithFlag(fl, At(format, j)).value, j + 1;
      }
    }

    method ReadNumber(format: seq<char>, i: nat) returns (n: nat, j: nat)
      requires i <= |format|
      ensures (n, j) == ScanNumber(format, i, 0)
    {
      n, j := 0, i;
      while IsDigit(At(format, j))
        invariant j <= |format| && ScanNumber(format, j, n) == ScanNumber(format, i, 0)
        decreases |format| - j
      {
        n := (n * 10 + (At(format, j) as nat - 0x30)) % WORD;
        j := j + 1;
      }
    }

    /** From after the percent sign up to the conversion character. */
    method ReadSpec(format: seq<char>, i: nat, args: seq<Arg>) returns (s: Spec, j: nat, rest: seq<Arg>)
      requires i <= |format|
      ensures (s, j, rest) == ScanSpec(format, i, args)
    {
      hide ScanFlags, ScanNumber, IsFlag, IsDigit;
      var fl, width;
      fl, j := ReadFlags(format, i);
      rest := args;
      if At(format, j) == '*' {
        width, rest := Low(Next(args).0, 0x1_0000_0000), Next(args).1;
        j := j + 1;
      } else {
        width, j := ReadNumber(format, j);
      }
      if At(format, j) == '.' {
        var _, k := ReadNumber(format, j + 1);
        j := k;
      }
      var size := ScanSize(format, j).0;
      j := ScanSize(format, j).1;
      var kind, capitals := KindOf(At(format, j)).0, KindOf(At(format, j)).1;
      s := Spec(fl, width, size, kind, capitals);
    }

    /** One conversion. */
    method PutConversion(s: Spec, args: seq<Arg>) returns (stuck: bool, rest: seq<Arg>)
      requires s.width < WORD
      modifies this
      ensures stuck <==> Convert(s, args).None?
      ensures !stuck ==> Printed(Convert(s, args).value.0) && rest == Convert(s, args).value.1
    {
      hide DecimalField, HexField, OctalField, SignedValue;
      var a := Next(args).0;
      stuck, rest := false, Next(args).1;
      match s.kind
      case Character =>
        PutChar((Low(a, 0x100)) as char);
        count := count + 1;
      case Float =>
        rest := args;
      case Signed =>
        var x := SignedValue(a, s.size);
        stuck := true;
        if !Overflows(x, s.size) {
          stuck := PutDecimal(Magnitude(x), SignOf(x, s.flags), StyleOf(s));
        }
      case Unsigned =>
        stuck := PutDecimal(Low(a, if Wide(s.size) then WORD else 0x1_0000_0000), [], StyleOf(s));
      case Hex =>
        PutHex(SignedValue(a, s.size) % WORD, HexPrefix(s), s.capitals, StyleOf(s));
      case Octal =>
        stuck := PutOctal(SignedValue(a, s.size) % WORD, if s.flags.prefix then ['0'] else [], StyleOf(s));
      case Binary =>
        stuck := true;
      case Text =>
        if a.Pointer? {
          PutAll(a.chars);
        }
      case Percent =>
        PutChar('%');
        count := count + 1;
        rest := args;
      case CharsSoFar =>
      case Unknown =>
        rest := args;
    }

    /** printf: every round advances by at least one character, nothing beyond
        the terminator is read, and the result is the number of characters
        that have been printed, unless some conversion gets stuck. */
    method Print(format: seq<char>, args: seq<Arg>) returns (result: int, stuck: bool)
      modifies this
      ensures stuck <==> Formatted(format, 0, args).None?
      ensures stuck <==> SomeSticks(Conversions(format, 0, args))
      ensures (forall a | a in args :: Tame(a)) ==>
                (stuck <==> exists c | c in Conversions(format, 0, args) :: !Ends(c.0))
      ensures !stuck ==> out == old(out) + Formatted(format, 0, args).value && result == |out| - |old(out)|
    {
      hide Formatted, ScanSpec, Convert, Tame, Conversions, SomeSticks;
      FormatSticksIff(format, 0, args);
      if forall a | a in args :: Tame(a) {
        TameFormatEndsIff(format, 0, args);
      }
      count := 0;
      var index, rest := 0, args;
      ghost var all := Formatted(format, 0, args);
      while index < |format|
        invariant count == |out| - |old(out)|
        invariant Formatted(format, index, rest).Some? <==> all.Some?
        invariant all.Some? ==> out + Formatted(format, index, rest).value == old(out) + all.value
        decreases |format| - index
      {
        FormattedStep(format, index, rest);
        if format[index] == '\\' && At(format, index + 1) == '%' {
          index := index + 1;
          PutChar(format[index]);
          count := count + 1;
        } else if format[index] != '%' {
          PutChar(format[index]);
          count := count + 1;
        } else {
          var s;
          s, index, rest := ReadSpec(format, index + 1, rest);
          stuck, rest := PutConversion(s, rest);
          if stuck {
            return count, true;
          }
        }
        index := index + 1;
      }
      FormattedEnd(format, index, rest);
      assert all.Some? ==> out + [] == out;
      return count, false;
    }
  }

  lemma FormattedEnd(format: seq<char>, i: nat, args: seq<Arg>)
    requires i >= |format|
    ensures Formatted(format, i, args) == Some([])
  {
  }

  /** One round of the loop. */
  lemma FormattedStep(format: seq<char>, i: nat, args: seq<Arg>)
    requires i < |format|
    ensures Formatted(format, i, args) ==
      if format[i] == '\\' && At(format, i + 1) == '%' then Before(['%'], Formatted(format, i + 2, args))
      else if format[i] != '%' then Before([format[i]], Formatted(format, i + 1, args))
      else
        var (s, j, rest) := ScanSpec(format, i + 1, args);
        match Convert(s, rest)
        case None => None
        case Some((text, rest')) => Before(text, Formatted(format, j + 1, rest'))
  {
    hide ScanSpec, Convert;
  }

  lemma HexShifts(number: nat)
    requires number < WORD
    ensures Shifted(number, 16, 15).Some?
  {
    HexRightIff(number);
  }

  lemma Joined(o: seq<char>, a: seq<char>, b: seq<char>, c: seq<char>, d: seq<char>, e: seq<char>)
    ensures o + a + b + c + d + e == o + (a + b + c + d + e)
    ensures |a + b + c + d + e| == |a| + |b| + |c| + |d| + |e|
  {
  }

  lemma EmptyPad(c: char)
    ensures Repeat(c, 0) == []
  {
  }

  lemma GrowBound(num: nat, radix: nat, limit: nat)
    ensures Grow(num, 0, radix, limit) <= limit
  {
  }

  lemma PowOne(radix: nat)
    ensures Pow(radix, 0) == 1
  {
  }

  lemma PowStep(radix: nat, k: nat)
    ensures Pow(radix, k + 1) == Pow(radix, k) * radix
  {
  }

  lemma PowBelow(radix: nat, k: nat, limit: nat)
    requires radix >= 2 && Pow(radix, k) < Pow(radix, limit)
    ensures k < limit
  {
    if limit <= k {
      PowGrows(radix, limit, k);
    }
  }

  lemma PowNotBelow(radix: nat, k: nat, limit: nat)
    requires radix >= 2 && k <= limit && Pow(radix, k) >= Pow(radix, limit)
    ensures k == limit
  {
    if k < limit {
      PowGrows(radix, k + 1, limit);
      MulMono(2, radix, Pow(radix, k));
    }
  }

  lemma BaseDigitsStep(num: nat, val: nat, radix: nat)
    requires val > 1 && radix >= 2 && Digits(num, val, radix).Some?
    ensures var v := val / radix;
            v > 0 && Digits(num % v, v, radix).Some?
            && Digits(num, val, radix) == Some([Quotient(num, v)] + Digits(num % v, v, radix).value)
  {
    QuotientSmaller(val, radix);
    hide Quotient;
  }

  lemma NoBaseDigits(num: nat, val: nat, radix: nat)
    requires val <= 1 && radix >= 2
    ensures Digits(num, val, radix) == Some([])
  {
  }

  lemma BaseCharAppended(before: seq<char>, d: nat, ds: seq<nat>, radix: nat, capitals: bool)
    ensures before + [BaseChar(d, radix, capitals)] + BaseChars(ds, radix, capitals) == before + BaseChars([d] + ds, radix, capitals)
  {
    hide BaseChar;
    assert [BaseChar(d, radix, capitals)] + BaseChars(ds, radix, capitals) == BaseChars([d] + ds, radix, capitals);
  }

  lemma DigitsOfZero()
    ensures Digits(0, 8, 8) == Some([0])
  {
    NoBaseDigits(0 % 1, 1, 8);
    DigitsUnfold(0, 1, 8);
    assert [Quotient(0, 1)] + [] == [0];
  }

  /** The branch for zero prints what the loop would. */
  lemma OctalZero(number: nat)
    requires number < WORD && Shifted(number, 8, 21).Some?
    requires var val := Pow(8, Grow(number, 0, 8, 21)); (if val < number then number % val else number) == 0
    ensures BaseChars(Shifted(number, 8, 21).value.rest, 8, false) == ['0']
  {
    PowTwo64();
    GrowIs(number, 0, 8, 21);
    var k := Grow(number, 0, 8, 21);
    if number == 0 {
      assert Pow(8, 1) == 8 > 0;
      assert k == 1;
      DigitsOfZero();
    }
  }

  lemma DigitAppended(before: seq<char>, after: seq<char>, d: nat, ds: seq<nat>, left: int, commas: bool)
    requires after == before + [DigitChar(d)] + (if commas && CommaAfter(left) then [','] else [])
    ensures after + DigitChars(ds, left, commas) == before + DigitChars([d] + ds, left + 1, commas)
  {
    assert ([d] + ds)[1..] == ds;
  }

  lemma NoChars(left: int, commas: bool)
    ensures DigitChars([], left, commas) == []
  {
  }

  lemma NoDigits(num: nat, val: nat)
    requires val <= 1
    ensures Digits(num, val, 10) == Some([])
  {
  }

  lemma SignedDifference(width: nat, e: nat)
    requires width < WORD && (e <= width || e < 0x8000_0000_0000_0000)
    ensures 0 < (width - e) % 0x1_0000_0000_0000_0000 < 0x8000_0000_0000_0000 <==> PadCount(width, e) > 0
  {
    if width < e {
      assert (width - e) % 0x1_0000_0000_0000_0000 == 0x1_0000_0000_0000_0000 - (e - width);
    }
  }
}
