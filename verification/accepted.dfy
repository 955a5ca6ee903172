/** Which conversions the interpreter accepts, told by their characters, and how text prints itself. */
module AcceptedFormat {
  import opened Memory
  import opened Xtoa
  import opened Format

  predicate IsDecimal(c: char) {
    c in {'0', '1', '2', '3', '4', '5', '6', '7', '8', '9'}
  }

  /** A flag, a width and a length, each of which may be empty. A width without a flag starts
      with no zero, which would be the flag. */
  ghost predicate Modifiers(flag: string, width: string, length: string) {
    && flag in {"", "0", " ", "-"}
    && (forall i :: 0 <= i < |width| ==> IsDecimal(width[i]))
    && (flag == "" && width != "" ==> width[0] != '0')
    && length in {"", "h", "l", "L"}
  }

  /** The text starts with a conversion of these parts. */
  ghost predicate Conversion(s: string, flag: string, width: string, length: string, kind: char) {
    && Modifiers(flag, width, length) && kind in {'c', 'd', 'u', 'x', 'p', 's'}
    && Spelled(flag, width, length, kind) <= s
  }

  ghost predicate StartsConversion(s: string) {
    exists flag, width, length, kind :: Conversion(s, flag, width, length, kind)
  }

  function FlagNamed(flag: string): Flag {
    if flag == "0" then Zero else if flag == " " then Space else if flag == "-" then Left else NoFlag
  }

  lemma {:induction false} CountWidth(s: string, n: nat)
    requires n <= |s| && (forall i :: 0 <= i < n ==> IsDecimal(s[i])) && !IsDigit(At(s, n))
    ensures CountDigits(s) == n
  {
    if 0 < n {
      assert IsDecimal(s[0]);
      assert At(s[1..], n - 1) == At(s, n);
      CountWidth(s[1..], n - 1);
    }
  }

  function Spelled(flag: string, width: string, length: string, kind: char): string {
    flag + width + length + [kind]
  }

  /** The conversion of these parts: the width is the number its digits denote, the length has no effect. */
  function Meaning(flag: string, width: string, length: string, kind: char): Directive {
    Directive(FlagNamed(flag), width, if length == "" then '\0' else length[0], kind, |flag| + |width| + |length| + 1)
  }

  /** Where the parts of a conversion lie. */
  lemma PartsLie(s: string, flag: string, width: string, length: string, kind: char)
    requires Conversion(s, flag, width, length, kind)
    ensures var f, w, l := |flag|, |flag| + |width|, |flag| + |width| + |length|;
            && l < |s| && s[l] == kind && s[f..w] == width
            && (flag != "" ==> s[0] == flag[0]) && (length != "" ==> s[w] == length[0])
            && (flag == "" && width != "" ==> s[0] == width[0])
  {
    var t := flag + width + length + [kind];
    var f, w, l := |flag|, |flag| + |width|, |flag| + |width| + |length|;
    assert forall i :: 0 <= i < |t| ==> s[i] == t[i];
    assert t[l] == kind;
    assert t == flag + width + (length + [kind]) && (flag + width)[f..w] == width;
    SliceOfConcat(flag + width, length + [kind], f, w);
    assert s[f..w] == t[f..w];
  }

  lemma WidthRead(s: string, flag: string, width: string, length: string, kind: char)
    requires Conversion(s, flag, width, length, kind)
    ensures FlagLength(s) == |flag| && WidthDigits(s) == width
  {
    var f, w := |flag|, |flag| + |width|;
    PartsLie(s, flag, width, length, kind);
    FlagRead(s, flag, width, length, kind);
    assert !IsDigit(At(s, w));
    assert At(s[f..], |width|) == At(s, w);
    forall i | 0 <= i < |width| ensures IsDecimal(s[f..][i]) {
      assert s[f..][i] == s[f..w][i];
    }
    CountWidth(s[f..], |width|);
  }

  /** What the interpreter makes of a conversion: it reads its parts and takes all of it. */
  lemma ConversionParsed(s: string, flag: string, width: string, length: string, kind: char)
    requires Conversion(s, flag, width, length, kind)
    ensures ParseDirective(s) == Meaning(flag, width, length, kind)
  {
    PartsLie(s, flag, width, length, kind);
    FlagRead(s, flag, width, length, kind);
    WidthRead(s, flag, width, length, kind);
  }

  lemma FlagRead(s: string, flag: string, width: string, length: string, kind: char)
    requires Conversion(s, flag, width, length, kind)
    ensures FlagOf(At(s, 0)) == FlagNamed(flag) && FlagLength(s) == |flag|
  {
    PartsLie(s, flag, width, length, kind);
    if flag == "" && width != "" {
      assert IsDecimal(width[0]);
    }
  }

  /** A flag up to `f`, a width up to `w`, a length up to `l`. */
  ghost predicate DividesAt(s: string, f: nat, w: nat, l: nat) {
    && f <= 1 && f <= w <= l <= w + 1 && l <= |s|
    && (f == 1 ==> s[0] in {'0', ' ', '-'})
    && (forall i :: f <= i < w ==> IsDecimal(s[i]))
    && (f == 0 && 0 < w ==> s[0] != '0')
    && (w < l ==> s[w] in {'h', 'l', 'L'})
  }

  lemma ModifiersOf(s: string, f: nat, w: nat, l: nat)
    requires DividesAt(s, f, w, l)
    ensures Modifiers(s[..f], s[f..w], s[w..l])
  {
    assert s[..f] == if f == 0 then "" else [s[0]];
    assert s[w..l] == if l == w then "" else [s[w]];
    assert forall i :: 0 <= i < w - f ==> s[f..w][i] == s[f + i];
  }

  lemma Assembled(s: string, f: nat, w: nat, l: nat)
    requires f <= w <= l < |s|
    ensures Spelled(s[..f], s[f..w], s[w..l], s[l]) == s[..l + 1]
  {
    assert s[..f] + s[f..w] == s[..w];
    assert s[..w] + s[w..l] == s[..l];
  }

  lemma DividedStarts(s: string, f: nat, w: nat, l: nat)
    requires DividesAt(s, f, w, l) && l < |s| && s[l] in {'c', 'd', 'u', 'x', 'p', 's'}
    ensures StartsConversion(s)
  {
    ModifiersOf(s, f, w, l);
    Assembled(s, f, w, l);
    assert Conversion(s, s[..f], s[f..w], s[w..l], s[l]);
  }

  /** The parts the interpreter finds in a text it accepts. */
  lemma PartsFound(s: string)
    requires IsKind(ParseDirective(s).kind)
    ensures StartsConversion(s)
  {
    var f, w := FlagLength(s), FlagLength(s) + |WidthDigits(s)|;
    forall i | f <= i < w ensures IsDecimal(s[i]) {
      assert s[i] == s[f..][i - f];
    }
    DividedStarts(s, f, w, if IsLength(At(s, w)) then w + 1 else w);
  }

  /** The interpreter accepts exactly the conversions of at most one flag out of "0", blank and "-",
      a width, one length out of "h", "l" and "L", and a type out of "c", "d", "u", "x", "p" and "s". */
  lemma AcceptedExactly(s: string)
    ensures IsKind(ParseDirective(s).kind) <==> StartsConversion(s)
  {
    if StartsConversion(s) {
      var flag, width, length, kind :| Conversion(s, flag, width, length, kind);
      ConversionParsed(s, flag, width, length, kind);
    }
    if IsKind(ParseDirective(s).kind) {
      PartsFound(s);
    }
  }

  /** An argument for a type: a string or NULL for "s", a 32-bit int for all others. */
  predicate ArgumentFor(kind: char, a: Arg) {
    match a
    case IntArg(v) => kind != 's' && -0x8000_0000 <= v <= 0x7FFF_FFFF
    case StrArg(s) => kind == 's' && '\0' !in s
    case NullArg => kind == 's'
  }

  /** Every accepted conversion with a width of at most three digits prints its argument, and goes on. */
  lemma ConversionPrints(flag: string, width: string, length: string, kind: char, rest: string, a: Arg, args: seq<Arg>)
    requires Modifiers(flag, width, length) && kind in {'c', 'd', 'u', 'x', 'p', 's'}
    requires |width| <= 3 && ArgumentFor(kind, a) && Proper(rest, args)
    ensures var s := "%" + Spelled(flag, width, length, kind) + rest;
            && ArgFits(kind, a) && Proper(s, [a] + args)
            && Render(s, [a] + args) == Before(Field(Meaning(flag, width, length, kind), a), Render(rest, args))
  {
    var t := Spelled(flag, width, length, kind);
    var s := "%" + t + rest;
    ConversionNext(t, flag, width, length, kind, rest);
    ArgumentFits(kind, a);
    assert ([a] + args)[1..] == args;
    UnfoldConvert(s, [a] + args, rest, args, Next(s));
  }

  lemma ArgumentFits(kind: char, a: Arg)
    requires ArgumentFor(kind, a)
    ensures ArgFits(kind, a)
  {
  }

  /** The first item of the format is the conversion, and what follows it is the rest. */
  lemma ConversionNext(t: string, flag: string, width: string, length: string, kind: char, rest: string)
    requires Modifiers(flag, width, length) && kind in {'c', 'd', 'u', 'x', 'p', 's'}
    requires t == Spelled(flag, width, length, kind)
    ensures var s := "%" + t + rest;
            Next(s) == Convert(Meaning(flag, width, length, kind), 1 + |t|) && s[1 + |t|..] == rest
  {
    var s := "%" + t + rest;
    assert s == "%" + (t + rest);
    assert Conversion(t + rest, flag, width, length, kind);
    ConversionParsed(t + rest, flag, width, length, kind);
    NotPercent(t + rest, flag, width, length, kind);
    assert s[1..] == t + rest;
  }

  lemma NotPercent(s: string, flag: string, width: string, length: string, kind: char)
    requires Conversion(s, flag, width, length, kind)
    ensures At(s, 0) != '%'
  {
    PartsLie(s, flag, width, length, kind);
    assert width != "" ==> IsDecimal(width[0]);
  }

  /** Behind a percent sign anything else, or the end of the format, stops the interpreter at once. */
  lemma OthersHalt(s: string, args: seq<Arg>)
    requires !StartsConversion(s) && (s == "" || s[0] != '%') && Proper("%" + s, args)
    ensures Render("%" + s, args) == Rendered("", true)
  {
    AcceptedExactly(s);
    assert ("%" + s)[1..] == s;
  }

  // ----- text that prints itself -----

  /** The text with each percent sign doubled. */
  function Escaped(text: string): string {
    if text == "" then ""
    else (if text[0] == '%' then "%%" else [text[0]]) + Escaped(text[1..])
  }

  /** Such a text prints itself, whatever it is. */
  lemma {:induction false} EscapedPrintsItself(text: string)
    requires '\0' !in text
    ensures Proper(Escaped(text), []) && Render(Escaped(text), []) == Rendered(text, false)
  {
    if text != "" {
      var fmt, rest := Escaped(text), Escaped(text[1..]);
      EscapedPrintsItself(text[1..]);
      assert fmt[if text[0] == '%' then 2 else 1..] == rest;
      UnfoldPlain(fmt, [], rest, Next(fmt));
      assert [text[0]] + text[1..] == text;
    }
  }
}
