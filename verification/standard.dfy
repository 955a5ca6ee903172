/** The conversions of section 7.19.6.1 of ISO/IEC 9899:1999, and where the interpreter leaves them. */
module StandardFormat {
  import opened Memory
  import opened Xtoa
  import opened Format

  /** A conversion as the standard reads its text: any number of flags, a width that starts with
      no zero, a length modifier (or the terminator), and a type. */
  datatype Reading = Reading(left: bool, zero: bool, blank: bool, width: nat, length: char, kind: char)

  predicate IsFlag(c: char) {
    c in {'-', '0', ' ', '+', '#'}
  }

  /** How many flags the text starts with. */
  function CountFlags(s: string): (n: nat)
    ensures n <= |s|
  {
    if s != "" && IsFlag(s[0]) then 1 + CountFlags(s[1..]) else 0
  }

  /** Whether `c` is one of those flags. */
  predicate HasFlag(s: string, c: char) {
    s != "" && IsFlag(s[0]) && (s[0] == c || HasFlag(s[1..], c))
  }

  /** The length modifiers of one letter that the interpreter knows too. */
  predicate IsModifier(c: char) {
    c in {'h', 'l', 'L'}
  }

  /** The flags up to `k`, the width up to `i`, the length if there is one, and the type. */
  function ReadAt(s: string, k: nat, i: nat): Reading
    requires k <= i <= |s|
  {
    Reading(HasFlag(s, '-'), HasFlag(s, '0'), HasFlag(s, ' '), DecimalValue(s[k..i]), LengthAt(s, i), KindAt(s, i))
  }

  function LengthAt(s: string, i: nat): char {
    if IsModifier(At(s, i)) then At(s, i) else '\0'
  }

  function KindAt(s: string, i: nat): char {
    At(s, if IsModifier(At(s, i)) then i + 1 else i)
  }

  function ReadConversion(s: string): Reading {
    var k := CountFlags(s);
    ReadAt(s, k, k + CountDigits(s[k..]))
  }

  /** A sign or blank, digits, and padding: blanks outside, or zeros between the two. */
  function Padded(prefix: string, digits: string, left: bool, zero: bool, width: nat): string {
    var n := width - (|prefix| + |digits|);
    if left then prefix + digits + Repeat(' ', n)
    else if zero then prefix + Repeat('0', n) + digits
    else Repeat(' ', n) + prefix + digits
  }

  /** Conversion to short int. */
  function Short(v: int): int {
    (v + 0x8000) % 0x1_0000 - 0x8000
  }

  function Magnitude(v: int): nat {
    if v < 0 then -v else v
  }

  function SignedText(v: int, r: Reading): string {
    Padded(if v < 0 then "-" else if r.blank then " " else "", Digits(Magnitude(v), 10), r.left, r.zero, r.width)
  }

  function BaseOf(kind: char): nat {
    if kind == 'u' then 10 else 16
  }

  function UnsignedText(v: nat, r: Reading): string {
    Padded("", Digits(v, BaseOf(r.kind)), r.left, r.zero, r.width)
  }

  /** The standard defines the conversion: for the length modifiers that go with the type,
      no zero flag on characters and strings, and no null string. */
  predicate Defined(r: Reading, a: Arg) {
    && ArgFits(r.kind, a)
    && (if r.kind in {'d', 'u', 'x'} then r.length in {'\0', 'h', 'l'}
        else r.kind in {'c', 's'} && r.length == '\0' && !r.zero && (r.kind == 's' ==> a.StrArg?))
  }

  function StandardField(r: Reading, a: Arg): string
    requires Defined(r, a)
  {
    if r.kind == 's' then Padded("", a.s, r.left, false, r.width)
    else if r.kind == 'c' then Padded("", [CharOf(a.v)], r.left, false, r.width)
    else if r.kind == 'd' then SignedText(if r.length == 'h' then Short(a.v) else a.v, r)
    else UnsignedText(if r.length == 'h' then U32(a.v) % 0x1_0000 else U32(a.v), r)
  }

  // ----- one text, two readings -----

  /** The width is written with a zero in front, which the standard takes for a flag. */
  predicate LeadsZero(d: Directive) {
    d.digits != "" && d.digits[0] == '0'
  }

  function AsRead(d: Directive): Reading {
    Reading(d.flag == Left, d.flag == Zero || LeadsZero(d), d.flag == Space, d.Width(), d.length, d.kind)
  }

  lemma {:induction false} ZeroInFront(s: string)
    ensures Value("0" + s, 10) == Value(s, 10)
  {
    var t := "0" + s;
    if s == "" {
      assert t[..0] == "";
    } else {
      assert t[..|t| - 1] == "0" + s[..|s| - 1];
      ZeroInFront(s[..|s| - 1]);
    }
  }

  lemma {:induction false} ZerosInFront(t: string, z: nat)
    requires z <= |t| && forall i :: 0 <= i < z ==> t[i] == '0'
    ensures Value(t[z..], 10) == Value(t, 10)
  {
    if z == 0 {
      assert t[0..] == t;
    } else {
      var u := t[1..];
      assert t == "0" + u && u[z - 1..] == t[z..];
      ZeroInFront(u);
      ZerosInFront(u, z - 1);
    }
  }

  lemma TailEnds(t: string)
    requires t != "" && IsDigit(t[0]) && !IsFlag(At(t, CountDigits(t)))
    ensures !IsFlag(At(t[1..], CountDigits(t[1..]))) && CountDigits(t) == 1 + CountDigits(t[1..])
  {
    assert At(t[1..], CountDigits(t[1..])) == At(t, CountDigits(t));
  }

  /** Zeros in front of a width are flags for the standard, and its only ones. */
  lemma {:induction false} ZerosAreFlags(t: string)
    requires !IsFlag(At(t, CountDigits(t)))
    ensures var z, n := CountFlags(t), CountDigits(t);
            && z <= n && CountDigits(t[z..]) == n - z
            && (forall i :: 0 <= i < z ==> t[i] == '0')
  {
    if t != "" && t[0] == '0' {
      var u := t[1..];
      TailEnds(t);
      ZerosAreFlags(u);
      var z := CountFlags(u);
      assert t[1 + z..] == u[z..];
      forall i | 0 <= i < 1 + z ensures t[i] == '0' {
        assert 0 < i ==> t[i] == u[i - 1];
      }
    } else {
      assert t[0..] == t;
    }
  }

  lemma {:induction false} OnlyZeroFlags(t: string)
    requires !IsFlag(At(t, CountDigits(t)))
    ensures HasFlag(t, '0') <==> 0 < CountDigits(t) && t[0] == '0'
    ensures !HasFlag(t, '-') && !HasFlag(t, ' ')
  {
    if t != "" && t[0] == '0' {
      TailEnds(t);
      OnlyZeroFlags(t[1..]);
    }
  }

  lemma WidthEnds(s: string)
    requires IsKind(ParseDirective(s).kind)
    ensures var k := FlagLength(s); !IsFlag(At(s[k..], CountDigits(s[k..])))
  {
    var k := FlagLength(s);
    assert At(s[k..], CountDigits(s[k..])) == At(s, k + |WidthDigits(s)|);
  }

  /** The flags of the standard are the interpreter's flag and the zeros in front of the width. */
  lemma FlagsOf(s: string)
    requires IsKind(ParseDirective(s).kind)
    ensures var k := FlagLength(s);
            && CountFlags(s) == k + CountFlags(s[k..])
            && forall c :: HasFlag(s, c) <==> (0 < k && s[0] == c) || HasFlag(s[k..], c)
  {
    WidthEnds(s);
    if FlagLength(s) == 0 {
      assert s[0..] == s;
    }
  }

  /** How the text in front of a length or type divides: the interpreter's flag up to `f`, zeros
      up to `f + z`, the width up to `f + n`. */
  ghost predicate Divides(s: string, f: nat, z: nat, n: nat) {
    && f == FlagLength(s) && z <= n && f + n <= |s|
    && n == CountDigits(s[f..]) && n - z == CountDigits(s[f + z..]) && f + z == CountFlags(s)
    && forall i :: 0 <= i < z ==> s[f..][i] == '0'
  }

  lemma Division(s: string)
    requires IsKind(ParseDirective(s).kind)
    ensures Divides(s, FlagLength(s), CountFlags(s[FlagLength(s)..]), CountDigits(s[FlagLength(s)..]))
  {
    var f := FlagLength(s);
    var t := s[f..];
    WidthEnds(s);
    FlagsOf(s);
    ZerosAreFlags(t);
    DropDrop(s, f, CountFlags(t));
  }

  lemma DropDrop(s: string, k: nat, z: nat)
    requires k + z <= |s|
    ensures s[k + z..] == s[k..][z..]
  {
  }

  /** Flags and width end where the interpreter's flag and width end, and the width is the same number. */
  lemma SameWidth(s: string, f: nat, z: nat, n: nat)
    requires Divides(s, f, z, n)
    ensures WidthDigits(s) == s[f..f + n] && CountFlags(s) == f + z && f + z + CountDigits(s[f + z..]) == f + n
    ensures DecimalValue(s[f + z..f + n]) == DecimalValue(WidthDigits(s))
  {
    WidthSlice(s);
    DividedWidth(s, f, z, n);
  }

  lemma WidthSlice(s: string)
    ensures var f, n := FlagLength(s), CountDigits(s[FlagLength(s)..]);
            f + n <= |s| && WidthDigits(s) == s[f..f + n] && |WidthDigits(s)| == n
  {
  }

  lemma DividedWidth(s: string, f: nat, z: nat, n: nat)
    requires Divides(s, f, z, n)
    ensures CountFlags(s) == f + z && CountDigits(s[f + z..]) == n - z
    ensures DecimalValue(s[f + z..f + n]) == DecimalValue(s[f..f + n])
  {
    WithoutZeros(s, f, z, n);
  }

  lemma WithoutZeros(s: string, k: nat, z: nat, n: nat)
    requires k <= |s| && z <= n <= |s| - k && forall i :: 0 <= i < z ==> s[k..][i] == '0'
    ensures DecimalValue(s[k + z..k + n]) == DecimalValue(s[k..k + n])
  {
    var u := s[k..k + n];
    assert s[k + z..k + n] == u[z..];
    assert forall i :: 0 <= i < z ==> u[i] == s[k..][i];
    ZerosInFront(u, z);
  }

  /** The flags are the interpreter's flag, and the zero flag also where zeros lead the width. */
  lemma SameFlags(s: string)
    requires IsKind(ParseDirective(s).kind)
    ensures var d := ParseDirective(s);
            && (HasFlag(s, '-') <==> d.flag == Left) && (HasFlag(s, ' ') <==> d.flag == Space)
            && (HasFlag(s, '0') <==> d.flag == Zero || LeadsZero(d))
            && (d.flag == NoFlag ==> !LeadsZero(d))
  {
    var k := FlagLength(s);
    var t := s[k..];
    WidthEnds(s);
    FlagsOf(s);
    OnlyZeroFlags(t);
    FirstOfWidth(s);
  }

  lemma FirstOfWidth(s: string)
    ensures var k, d := FlagLength(s), ParseDirective(s);
            && (LeadsZero(d) <==> 0 < CountDigits(s[k..]) && s[k..][0] == '0')
            && (d.flag == NoFlag ==> !LeadsZero(d))
  {
    var k := FlagLength(s);
    if 0 < CountDigits(s[k..]) {
      assert WidthDigits(s)[0] == s[k..][0];
    }
  }

  lemma InterpreterReads(s: string, i: nat)
    requires i == FlagLength(s) + |WidthDigits(s)|
    ensures var d := ParseDirective(s);
            && d.digits == WidthDigits(s) && d.flag == FlagOf(At(s, 0))
            && d.length == LengthAt(s, i) && d.kind == KindAt(s, i)
  {
  }

  /** The reading of flags, width, length and type that are those of `d`. */
  lemma ReadAtIs(s: string, k: nat, i: nat, d: Directive)
    requires k <= i <= |s| && DecimalValue(s[k..i]) == d.Width() && LengthAt(s, i) == d.length && KindAt(s, i) == d.kind
    requires HasFlag(s, '-') <==> d.flag == Left
    requires HasFlag(s, ' ') <==> d.flag == Space
    requires HasFlag(s, '0') <==> d.flag == Zero || LeadsZero(d)
    ensures ReadAt(s, k, i) == AsRead(d)
  {
  }

  lemma ReadIs(s: string, k: nat, i: nat)
    requires k == CountFlags(s) && i == k + CountDigits(s[k..])
    ensures ReadConversion(s) == ReadAt(s, k, i)
  {
  }

  lemma StandardReading(s: string, f: nat, z: nat, n: nat)
    requires Divides(s, f, z, n)
    ensures f + z <= f + n <= |s| && ReadConversion(s) == ReadAt(s, f + z, f + n)
  {
    ReadIs(s, f + z, f + n);
  }

  lemma InterpreterReading(s: string, f: nat, z: nat, n: nat)
    requires Divides(s, f, z, n)
    ensures var d := ParseDirective(s);
            && DecimalValue(s[f + z..f + n]) == d.Width() && d.flag == FlagOf(At(s, 0))
            && d.length == LengthAt(s, f + n) && d.kind == KindAt(s, f + n)
  {
    SameWidth(s, f, z, n);
    InterpreterReads(s, f + n);
  }

  /** What the standard reads in a conversion the interpreter accepts. */
  lemma ReadingOf(s: string)
    requires IsKind(ParseDirective(s).kind)
    ensures ReadConversion(s) == AsRead(ParseDirective(s))
    ensures ParseDirective(s).flag == NoFlag ==> !LeadsZero(ParseDirective(s))
  {
    var f := FlagLength(s);
    var z, n := CountFlags(s[f..]), CountDigits(s[f..]);
    Division(s);
    StandardReading(s, f, z, n);
    InterpreterReading(s, f, z, n);
    SameFlags(s);
    ReadAtIs(s, f + z, f + n, ParseDirective(s));
  }

  // ----- the number in a text -----

  /** The number a padded text shows: its digits, wherever they stand. */
  function Number(s: string, base: nat): int {
    if s == "" then 0
    else
      var n, v := Number(s[..|s| - 1], base), DigitValue(s[|s| - 1]);
      if v < 0 then n else n * base + v
  }

  /** Whether the text shows a minus sign. */
  predicate Minus(s: string) {
    s != "" && (s[|s| - 1] == '-' || Minus(s[..|s| - 1]))
  }

  lemma {:induction false} MinusBehind(p: string, s: string)
    ensures Minus(p + s) <==> Minus(p) || Minus(s)
  {
    if s == "" {
      assert p + s == p;
    } else {
      MinusBehind(p, s[..|s| - 1]);
      assert (p + s)[..|p + s| - 1] == p + s[..|s| - 1];
    }
  }

  lemma {:induction false} NumberOfDigits(v: nat, base: nat)
    requires IsBase(base)
    ensures Number(Digits(v, base), base) == v && !Minus(Digits(v, base))
  {
    var s := Digits(v, base);
    DivFacts(v, base);
    DigitIsDigit(v % base);
    if v < base {
      assert s[..0] == "";
    } else {
      NumberOfDigits(v / base, base);
      assert s[..|s| - 1] == Digits(v / base, base);
    }
  }

  lemma {:induction false} NumberBehind(p: string, s: string, base: nat)
    requires Number(p, base) == 0
    ensures Number(p + s, base) == Number(s, base)
    ensures Minus(p + s) <==> Minus(p) || Minus(s)
  {
    MinusBehind(p, s);
    if s == "" {
      assert p + s == p;
    } else {
      NumberBehind(p, s[..|s| - 1], base);
      assert (p + s)[..|p + s| - 1] == p + s[..|s| - 1];
    }
  }

  lemma {:induction false} NumberBeforeBlanks(s: string, n: nat, base: nat)
    ensures Number(s + Repeat(' ', n), base) == Number(s, base)
    ensures Minus(s + Repeat(' ', n)) <==> Minus(s)
  {
    var t := s + Repeat(' ', n);
    if n == 0 {
      assert t == s;
    } else {
      NumberBeforeBlanks(s, n - 1, base);
      assert t[..|t| - 1] == s + Repeat(' ', n - 1);
    }
  }

  lemma {:induction false} PaddingIsZero(c: char, n: nat, base: nat)
    requires c in {' ', '0'}
    ensures Number(Repeat(c, n), base) == 0 && !Minus(Repeat(c, n))
  {
    if 0 < n {
      PaddingIsZero(c, n - 1, base);
      assert Repeat(c, n)[..n - 1] == Repeat(c, n - 1);
    }
  }

  lemma PrefixIsZero(p: string, base: nat)
    requires p in {"", " ", "-"}
    ensures Number(p, base) == 0 && (Minus(p) <==> p == "-")
  {
    if p != "" {
      assert p[..0] == "";
    }
  }

  /** Padding hides neither the number nor its sign. */
  lemma PaddedShows(p: string, v: nat, base: nat, left: bool, zero: bool, width: nat)
    requires p in {"", " ", "-"} && IsBase(base)
    ensures var s := Padded(p, Digits(v, base), left, zero, width);
            Number(s, base) == v && (Minus(s) <==> p == "-")
  {
    var digits := Digits(v, base);
    var n := width - (|p| + |digits|);
    var k := if n < 0 then 0 else n;
    NumberOfDigits(v, base);
    PrefixIsZero(p, base);
    NumberBehind(p, digits, base);
    if left {
      NumberBeforeBlanks(p + digits, k, base);
    } else if zero {
      PaddingIsZero('0', k, base);
      NumberBehind(p, Repeat('0', k), base);
      NumberBehind(p + Repeat('0', k), digits, base);
    } else {
      PaddingIsZero(' ', k, base);
      NumberBehind(Repeat(' ', k), p, base);
      NumberBehind(Repeat(' ', k) + p, digits, base);
    }
  }

  lemma NoPrefix(s: string)
    ensures "" + s == s
  {
  }

  /** So does what the interpreter prints. */
  lemma FieldShows(p: string, v: nat, base: nat, flag: Flag, width: nat)
    requires IsBase(base) && p in {"", "-"}
    ensures var s := Pad(p + Digits(v, base), flag, width);
            Number(s, base) == v && (Minus(s) <==> p == "-")
  {
    if p == "-" && flag == Zero {
      ZerosThenSignShow(v, base, width);
    } else {
      PaddedShows(p, v, base, flag == Left, flag == Zero, width);
      SimplePad(p, Digits(v, base), flag, width);
    }
  }

  lemma ZerosThenSignShow(v: nat, base: nat, width: nat)
    requires IsBase(base)
    ensures var s := Pad("-" + Digits(v, base), Zero, width);
            Number(s, base) == v && Minus(s)
  {
    var digits := Digits(v, base);
    var k := if |digits| + 1 < width then width - (|digits| + 1) else 0;
    var zeros := Repeat('0', k);
    assert Pad("-" + digits, Zero, width) == zeros + ("-" + digits);
    NumberOfDigits(v, base);
    PaddingIsZero('0', k, base);
    PrefixIsZero("-", base);
    NumberBehind("-", digits, base);
    NumberBehind(zeros, "-" + digits, base);
  }

  /** The interpreter pads a number without a sign, or not with zeros, as the standard does. */
  lemma SimplePad(p: string, digits: string, flag: Flag, width: nat)
    requires p == "" || flag != Zero
    ensures Pad(p + digits, flag, width) == Padded(p, digits, flag == Left, flag == Zero, width)
  {
    if flag != Left && flag != Zero {
      var n := width - |p + digits|;
      assert Repeat(' ', n) + (p + digits) == Repeat(' ', n) + p + digits;
    }
  }

  // ----- where the two differ -----

  /** Zeros before the sign, where the standard puts them behind it. */
  lemma ZerosBeforeSign(digits: string, width: nat)
    ensures Pad("-" + digits, Zero, width) == Padded("-", digits, false, true, width) <==> width <= |digits| + 1
  {
    var n := width - (|digits| + 1);
    var code, std := Repeat('0', n) + ("-" + digits), "-" + Repeat('0', n) + digits;
    if 0 < n {
      assert code[0] == '0' && std[0] == '-';
    } else {
      assert Repeat('0', n) == "";
    }
  }

  /** Blanks, where the standard has a sign or blank and zeros. */
  lemma BlanksForZeros(p: string, digits: string, width: nat)
    requires p in {"", "-"} && digits != "" && digits[0] != ' '
    ensures Pad(p + digits, Space, width) == Padded(p, digits, false, true, width) <==> width <= |p| + |digits|
  {
    var n := width - (|p| + |digits|);
    if 0 < n {
      assert Repeat(' ', n) + (p + digits) != p + Repeat('0', n) + digits by {
        assert (Repeat(' ', n) + (p + digits))[0] == ' ';
        assert (p + Repeat('0', n) + digits)[0] == if p == "" then '0' else '-';
      }
    } else {
      assert Repeat(' ', n) == "" && Repeat('0', n) == "";
    }
  }

  /** The blank flag of a number that has no sign: the standard always shows a blank. */
  lemma BlankField(digits: string, width: nat, zero: bool)
    requires digits != "" && digits[0] != ' '
    ensures Pad(digits, Space, width) == Padded(" ", digits, false, zero, width)
            <==> (if zero then width == |digits| + 1 else |digits| < width)
  {
    var n := width - |digits|;
    var code, std := Pad(digits, Space, width), Padded(" ", digits, false, zero, width);
    if n <= 0 {
      assert |std| == |digits| + 1 && |code| == |digits|;
    } else if !zero {
      assert Repeat(' ', n) == Repeat(' ', n - 1) + " ";
    } else if n == 1 {
      assert Repeat(' ', 1) == " " && Repeat('0', 0) == "";
    } else {
      assert code[1] == ' ' && std[1] == '0';
    }
  }

  /** The cases in which the interpreter leaves the standard: a short argument out of range; zeros
      before a sign; a blank flag that does not show, or next to a zero in front of the width;
      a character with a width. */
  predicate Deviates(d: Directive, a: Arg)
    requires ArgFits(d.kind, a) && d.kind in {'c', 'd', 'u', 'x', 's'}
  {
    match d.kind
    case 'd' =>
      var n := |IntText(a.v, 10)|;
      || (d.length == 'h' && !(-0x8000 <= a.v < 0x8000))
      || (d.flag == Zero && a.v < 0 && n < d.Width())
      || (d.flag == Space && a.v < 0 && LeadsZero(d) && n < d.Width())
      || (d.flag == Space && 0 <= a.v && (if LeadsZero(d) then d.Width() != n + 1 else d.Width() <= n))
    case 'c' => 1 < d.Width()
    case 's' => false
    case _ =>
      var n := |Digits(U32(a.v), BaseOf(d.kind))|;
      || (d.length == 'h' && 0x1_0000 <= U32(a.v))
      || (d.flag == Space && LeadsZero(d) && n < d.Width())
  }

  lemma SignedCase(d: Directive, v: int)
    requires -0x8000_0000 <= v < 0x8000_0000 && d.kind == 'd' && d.length in {'\0', 'h', 'l'}
    requires d.flag == NoFlag ==> !LeadsZero(d)
    ensures Field(d, IntArg(v)) == StandardField(AsRead(d), IntArg(v)) <==> !Deviates(d, IntArg(v))
  {
    if d.length == 'h' && !(-0x8000 <= v < 0x8000) {
      ShortDiffers(d, v);
    } else {
      assert d.length == 'h' ==> Short(v) == v;
      SignedSame(d, v);
    }
  }

  function Sign(v: int): string {
    if v < 0 then "-" else ""
  }

  lemma FieldOfInt(d: Directive, v: int)
    requires -0x8000_0000 <= v < 0x8000_0000 && d.kind == 'd'
    ensures Field(d, IntArg(v)) == Pad(Sign(v) + Digits(Magnitude(v), 10), d.flag, d.Width())
    ensures |IntText(v, 10)| == |Sign(v)| + |Digits(Magnitude(v), 10)|
  {
    NoPrefix(Digits(Magnitude(v), 10));
  }

  /** A short argument out of range prints another number. */
  lemma ShortDiffers(d: Directive, v: int)
    requires -0x8000_0000 <= v < 0x8000_0000 && d.kind == 'd' && d.length == 'h' && !(-0x8000 <= v < 0x8000)
    ensures Field(d, IntArg(v)) != SignedText(Short(v), AsRead(d))
  {
    var r, s := AsRead(d), Short(v);
    FieldOfInt(d, v);
    FieldShows(Sign(v), Magnitude(v), 10, d.flag, d.Width());
    PaddedShows(if s < 0 then "-" else if r.blank then " " else "", Magnitude(s), 10, r.left, r.zero, r.width);
    assert s != v;
  }

  lemma SignedSame(d: Directive, v: int)
    requires -0x8000_0000 <= v < 0x8000_0000 && d.kind == 'd'
    requires d.flag == NoFlag ==> !LeadsZero(d)
    requires d.length == 'h' ==> -0x8000 <= v < 0x8000
    ensures Field(d, IntArg(v)) == SignedText(v, AsRead(d)) <==> !Deviates(d, IntArg(v))
  {
    FieldOfInt(d, v);
    FirstIsDigit(Magnitude(v), 10);
    if d.flag == Space && 0 <= v {
      NoPrefix(Digits(v, 10));
      BlankField(Digits(v, 10), d.Width(), LeadsZero(d));
    } else {
      NumberField(Sign(v), Digits(Magnitude(v), 10), d.flag, LeadsZero(d), d.Width());
    }
  }

  /** A number with its sign, if it has one, where no blank stands for the sign. */
  lemma NumberField(p: string, digits: string, flag: Flag, zeroLed: bool, width: nat)
    requires p in {"", "-"} && digits != "" && digits[0] != ' ' && (flag == NoFlag ==> !zeroLed)
    ensures Pad(p + digits, flag, width) == Padded(p, digits, flag == Left, flag == Zero || zeroLed, width)
            <==> !(|p| + |digits| < width && ((flag == Zero && p == "-") || (flag == Space && zeroLed)))
  {
    if flag == Zero && p == "-" {
      ZerosBeforeSign(digits, width);
    } else if flag == Space && zeroLed {
      BlanksForZeros(p, digits, width);
    } else {
      SimplePad(p, digits, flag, width);
      LeftIgnoresZero(p, digits, width);
    }
  }

  lemma FirstIsDigit(v: nat, base: nat)
    requires IsBase(base)
    ensures Digits(v, base) != "" && Digits(v, base)[0] != ' '
  {
    NumberOfDigits(v, base);
    FirstNoBlank(v, base);
  }

  lemma {:induction false} FirstNoBlank(v: nat, base: nat)
    requires IsBase(base)
    ensures Digits(v, base)[0] != ' '
  {
    DivFacts(v, base);
    if v < base {
      assert DIGITS[v] != ' ';
    } else {
      FirstNoBlank(v / base, base);
    }
  }

  lemma LeftIgnoresZero(p: string, digits: string, width: nat)
    ensures Padded(p, digits, true, true, width) == Padded(p, digits, true, false, width)
  {
  }

  lemma UnsignedCase(d: Directive, v: int)
    requires -0x8000_0000 <= v < 0x8000_0000 && d.kind in {'u', 'x'} && d.length in {'\0', 'h', 'l'}
    requires d.flag == NoFlag ==> !LeadsZero(d)
    ensures Field(d, IntArg(v)) == StandardField(AsRead(d), IntArg(v)) <==> !Deviates(d, IntArg(v))
  {
    UnsignedFields(d, v);
    UnsignedVerdict(d, U32(v), if d.length == 'h' then U32(v) % 0x1_0000 else U32(v));
  }

  lemma ShortRemainder(u: nat)
    ensures u % 0x1_0000 == u <==> u < 0x1_0000
  {
  }

  lemma UnsignedVerdict(d: Directive, u: nat, u': nat)
    requires d.kind in {'u', 'x'} && (d.flag == NoFlag ==> !LeadsZero(d))
    requires u' == if d.length == 'h' then u % 0x1_0000 else u
    ensures UnsignedField(u, d) == UnsignedText(u', AsRead(d))
            <==> !((d.length == 'h' && 0x1_0000 <= u) || BlankMeetsZero(u, d))
  {
    ShortRemainder(u);
    if d.length == 'h' && 0x1_0000 <= u {
      UnsignedDiffers(d, u, u');
    } else {
      UnsignedSame(d, u);
    }
  }

  /** What the interpreter prints of an unsigned value. */
  function UnsignedField(u: nat, d: Directive): string {
    Pad(Digits(u, BaseOf(d.kind)), d.flag, d.Width())
  }

  /** The blank flag meets a zero in front of a width that pads. */
  predicate BlankMeetsZero(u: nat, d: Directive) {
    d.flag == Space && LeadsZero(d) && |Digits(u, BaseOf(d.kind))| < d.Width()
  }

  /** What the two print of an unsigned argument, told by its value. */
  lemma UnsignedFields(d: Directive, v: int)
    requires -0x8000_0000 <= v < 0x8000_0000 && d.kind in {'u', 'x'} && d.length in {'\0', 'h', 'l'}
    ensures Field(d, IntArg(v)) == UnsignedField(U32(v), d)
    ensures StandardField(AsRead(d), IntArg(v))
            == UnsignedText(if d.length == 'h' then U32(v) % 0x1_0000 else U32(v), AsRead(d))
    ensures Deviates(d, IntArg(v)) <==> (d.length == 'h' && 0x1_0000 <= U32(v)) || BlankMeetsZero(U32(v), d)
  {
  }

  lemma UnsignedDiffers(d: Directive, u: nat, u': nat)
    requires d.kind in {'u', 'x'} && u != u'
    ensures UnsignedField(u, d) != UnsignedText(u', AsRead(d))
  {
    var base, r := BaseOf(d.kind), AsRead(d);
    NoPrefix(Digits(u, base));
    FieldShows("", u, base, d.flag, d.Width());
    PaddedShows("", u', base, r.left, r.zero, r.width);
  }

  lemma UnsignedSame(d: Directive, u: nat)
    requires d.kind in {'u', 'x'} && (d.flag == NoFlag ==> !LeadsZero(d))
    ensures UnsignedField(u, d) == UnsignedText(u, AsRead(d)) <==> !BlankMeetsZero(u, d)
  {
    var base := BaseOf(d.kind);
    NoPrefix(Digits(u, base));
    FirstIsDigit(u, base);
    NumberField("", Digits(u, base), d.flag, LeadsZero(d), d.Width());
  }

  lemma TextCase(d: Directive, a: Arg)
    requires d.kind in {'c', 's'} && Defined(AsRead(d), a)
    ensures Field(d, a) == StandardField(AsRead(d), a) <==> !Deviates(d, a)
  {
    var text := if d.kind == 's' then a.s else [CharOf(a.v)];
    assert "" + text == text;
    SimplePad("", text, d.flag, d.Width());
    assert |Pad(text, d.flag, d.Width())| == if |text| < d.Width() then d.Width() else |text|;
    if d.kind == 'c' && d.Width() <= 1 {
      assert Repeat(' ', d.Width() - 1) == "";
    }
  }

  /** For every conversion the interpreter accepts and the standard defines, the interpreter
      prints what the standard asks for exactly outside the listed cases. */
  lemma StandardExceptDeviations(s: string, a: Arg)
    requires IsKind(ParseDirective(s).kind) && Defined(ReadConversion(s), a)
    ensures ParseDirective(s).kind in {'c', 'd', 'u', 'x', 's'} && ArgFits(ParseDirective(s).kind, a)
    ensures Field(ParseDirective(s), a) == StandardField(ReadConversion(s), a) <==> !Deviates(ParseDirective(s), a)
  {
    ReadingOf(s);
    var d := ParseDirective(s);
    if d.kind == 'd' {
      SignedCase(d, a.v);
    } else if d.kind in {'u', 'x'} {
      UnsignedCase(d, a.v);
    } else {
      TextCase(d, a);
    }
  }
}
