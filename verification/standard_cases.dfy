/** The conversions of the standard the interpreter accepts, and what it prints where the
    comparison with the standard does not reach. */
module StandardCases {
  import opened Memory
  import opened Xtoa
  import opened Format
  import opened AcceptedFormat
  import opened StandardFormat

  // ----- acceptance -----

  /** Not more than one flag, but for zeros behind it, and none of "+" and "#". */
  predicate FlagsKnown(s: string) {
    var k := CountFlags(s);
    && (k == 0 || s[0] in {'0', ' ', '-'})
    && forall i :: 0 < i < k ==> s[i] == '0'
  }

  lemma {:induction false} FlagsEnd(s: string)
    ensures !IsFlag(At(s, CountFlags(s)))
  {
    if s != "" && IsFlag(s[0]) {
      FlagsEnd(s[1..]);
      assert At(s, CountFlags(s)) == At(s[1..], CountFlags(s[1..]));
    }
  }

  /** What stands between the interpreter's flag and the end of the width. */
  lemma WidthPart(s: string, f: nat, w: nat)
    requires FlagsKnown(s) && f == (if CountFlags(s) == 0 then 0 else 1)
    requires w == CountFlags(s) + CountDigits(s[CountFlags(s)..])
    ensures f <= w <= |s|
    ensures forall i :: f <= i < w ==> IsDecimal(s[i])
    ensures f == 0 && 0 < w ==> s[0] != '0'
  {
    FlagsEnd(s);
    DigitsFrom(s, CountFlags(s));
    assert forall i :: f <= i < w && i < CountFlags(s) ==> s[i] == '0';
  }

  lemma DigitsFrom(s: string, k: nat)
    requires k <= |s|
    ensures forall i :: k <= i < k + CountDigits(s[k..]) ==> IsDecimal(s[i])
  {
    forall i | k <= i < k + CountDigits(s[k..]) ensures IsDecimal(s[i]) {
      DecimalDigit(s[k..][i - k]);
    }
  }

  lemma DecimalDigit(c: char)
    ensures IsDigit(c) <==> IsDecimal(c)
  {
  }

  /** Where the standard sees the parts of a conversion, the interpreter can see its own. */
  lemma KnownIsAccepted(s: string, f: nat, w: nat, l: nat)
    requires FlagsKnown(s) && f == (if CountFlags(s) == 0 then 0 else 1)
    requires w == CountFlags(s) + CountDigits(s[CountFlags(s)..]) && l == (if IsModifier(At(s, w)) then w + 1 else w)
    requires l < |s| && s[l] in {'c', 'd', 'u', 'x', 'p', 's'}
    ensures IsKind(ParseDirective(s).kind)
  {
    WidthPart(s, f, w);
    DividedStarts(s, f, w, l);
    AcceptedExactly(s);
  }

  lemma AcceptedIsKnown(s: string)
    requires IsKind(ParseDirective(s).kind)
    ensures FlagsKnown(s)
  {
    var f, k := FlagLength(s), CountFlags(s);
    Division(s);
    forall i | f <= i < k ensures s[i] == '0' {
      assert s[i] == s[f..][i - f];
    }
  }

  /** Of the conversions the standard defines, for the arguments considered here, the interpreter
      accepts exactly those with known flags. */
  lemma DefinedAccepted(s: string, a: Arg)
    requires Defined(ReadConversion(s), a)
    ensures IsKind(ParseDirective(s).kind) <==> FlagsKnown(s)
  {
    if FlagsKnown(s) {
      var k := CountFlags(s);
      var w := k + CountDigits(s[k..]);
      KnownIsAccepted(s, if k == 0 then 0 else 1, w, if IsModifier(At(s, w)) then w + 1 else w);
    } else if IsKind(ParseDirective(s).kind) {
      AcceptedIsKnown(s);
    }
  }

  /** Those are printed as the standard asks for exactly outside the listed deviations. */
  lemma KnownAgrees(s: string, a: Arg)
    requires Defined(ReadConversion(s), a) && FlagsKnown(s)
    ensures var d := ParseDirective(s);
            && IsKind(d.kind) && d.kind in {'c', 'd', 'u', 'x', 's'} && ArgFits(d.kind, a)
            && (Field(d, a) == StandardField(ReadConversion(s), a) <==> !Deviates(d, a))
  {
    DefinedAccepted(s, a);
    StandardExceptDeviations(s, a);
  }

  // ----- what is printed -----

  /** A pointer prints its 32 bits as a number in base 16, without a sign, padded like one. */
  lemma PointerField(d: Directive, v: int, u: nat)
    requires d.kind == 'p' && -0x8000_0000 <= v < 0x8000_0000
    requires u == if v < 0 then v + 0x1_0000_0000 else v
    ensures var s := Field(d, IntArg(v));
            && Number(s, 16) == u && !Minus(s)
            && s == Padded("", Digits(u, 16), d.flag == Left, d.flag == Zero, d.Width())
  {
    PointerIs(d, v, u);
    NoPrefix(Digits(u, 16));
    FieldShows("", u, 16, d.flag, d.Width());
    SimplePad("", Digits(u, 16), d.flag, d.Width());
  }

  lemma U32Of(v: int, u: nat)
    requires -0x8000_0000 <= v < 0x8000_0000 && u == if v < 0 then v + 0x1_0000_0000 else v
    ensures U32(v) == u
  {
  }

  lemma UnsignedIs(d: Directive, v: int)
    requires d.kind == 'p' && -0x8000_0000 <= v < 0x8000_0000
    ensures Field(d, IntArg(v)) == Pad(Digits(U32(v), 16), d.flag, d.Width())
  {
  }

  lemma PointerIs(d: Directive, v: int, u: nat)
    requires d.kind == 'p' && -0x8000_0000 <= v < 0x8000_0000
    requires u == if v < 0 then v + 0x1_0000_0000 else v
    ensures Field(d, IntArg(v)) == Pad(Digits(u, 16), d.flag, d.Width())
  {
    U32Of(v, u);
    UnsignedIs(d, v);
  }

  /** A NULL string prints the text "(null)", padded like any other string: with zeros, if the
      flag says so. */
  lemma NullField(d: Directive)
    requires d.kind == 's'
    ensures Field(d, NullArg) == Padded("", "(null)", d.flag == Left, d.flag == Zero, d.Width())
  {
    NoPrefix("(null)");
    SimplePad("", "(null)", d.flag, d.Width());
  }

  /** A character prints as the one of its low eight bits. */
  lemma CharacterField(d: Directive, v: int)
    requires d.kind == 'c' && -0x8000_0000 <= v < 0x8000_0000
    ensures var s := Field(d, IntArg(v)); |s| == 1 && s[0] as int < 0x100 && (v - s[0] as int) % 0x100 == 0
  {
  }
}
