/** What a format string and its arguments mean, as the format interpreter reads them. */
module Format {
  import opened Memory
  import opened Xtoa

  /** An argument: an int, or a string that may be NULL. */
  datatype Arg = IntArg(v: int) | StrArg(s: string) | NullArg

  datatype Flag = NoFlag | Zero | Space | Left

  /** A conversion: its flag, the digits of its width, its length modifier (or the terminator), its
      type, and how many characters it takes after the percent sign. */
  datatype Directive = Directive(flag: Flag, digits: string, length: char, kind: char, used: nat) {
    function Width(): nat {
      DecimalValue(digits)
    }
  }

  /** The first item of a format: a character to print, or a conversion; and how many characters it takes. */
  datatype Item = Plain(c: char, used: nat) | Convert(d: Directive, used: nat)

  /** The character at `i`, or the terminator. */
  function At(s: string, i: nat): char {
    if i < |s| then s[i] else '\0'
  }

  predicate IsDigit(c: char) {
    '0' <= c <= '9'
  }

  function FlagOf(c: char): Flag {
    if c == '0' then Zero else if c == ' ' then Space else if c == '-' then Left else NoFlag
  }

  /** How many digits the text starts with. */
  function CountDigits(s: string): (n: nat)
    ensures n <= |s|
    ensures forall i :: 0 <= i < n ==> IsDigit(s[i])
    ensures !IsDigit(At(s, n))
  {
    if s != "" && IsDigit(s[0]) then 1 + CountDigits(s[1..]) else 0
  }

  predicate IsLength(c: char) {
    c == 'h' || c == 'l' || c == 'L'
  }

  /** Where the width starts. */
  function FlagLength(s: string): (k: nat)
    ensures k <= |s|
  {
    if FlagOf(At(s, 0)) == NoFlag then 0 else 1
  }

  function WidthDigits(s: string): string {
    var k := FlagLength(s);
    s[k..k + CountDigits(s[k..])]
  }

  function ParseDirective(s: string): Directive {
    var k := FlagLength(s) + |WidthDigits(s)|;
    if IsLength(At(s, k))
    then Directive(FlagOf(At(s, 0)), WidthDigits(s), At(s, k), At(s, k + 1), k + 2)
    else Directive(FlagOf(At(s, 0)), WidthDigits(s), '\0', At(s, k), k + 1)
  }

  /** The number a string of digits denotes, 0 for the empty one. */
  function DecimalValue(s: string): nat {
    var v := Value(s, 10);
    if 0 <= v then v else 0
  }

  predicate IsKind(c: char) {
    c in {'c', 'd', 'u', 'x', 'p', 's'}
  }

  function Repeat(c: char, n: int): (s: string)
    ensures |s| == if n < 0 then 0 else n
    ensures forall i :: 0 <= i < |s| ==> s[i] == c
  {
    seq(if n < 0 then 0 else n, _ => c)
  }

  /** Padding to the width: with blanks on the right, or with zeros or blanks on the left. */
  function Pad(s: string, flag: Flag, width: nat): (r: string)
    ensures |r| == if |s| < width then width else |s|
  {
    if flag == Left then s + Repeat(' ', width - |s|)
    else Repeat(if flag == Zero then '0' else ' ', width - |s|) + s
  }

  function CharOf(v: int): char {
    (v % 256) as char
  }

  /** The text of a string argument. */
  function StringOf(a: Arg): string {
    if a.StrArg? then a.s else "(null)"
  }

  predicate NoTerminator(s: string) {
    forall i :: 0 <= i < |s| ==> s[i] != '\0'
  }

  /** An argument fits a conversion. */
  predicate ArgFits(kind: char, a: Arg) {
    if kind == 's' then (a.StrArg? && NoTerminator(a.s)) || a.NullArg?
    else a.IntArg? && -0x8000_0000 <= a.v < 0x8000_0000
  }

  /** What a conversion prints. A character is never padded, and the length modifier has no effect. */
  function Field(d: Directive, a: Arg): string
    requires ArgFits(d.kind, a)
  {
    if d.kind == 's' then Pad(StringOf(a), d.flag, d.Width())
    else if d.kind == 'c' then [CharOf(a.v)]
    else if d.kind == 'd' then Pad(IntText(a.v, 10), d.flag, d.Width())
    else if d.kind == 'u' then Pad(Digits(U32(a.v), 10), d.flag, d.Width())
    else Pad(Digits(U32(a.v), 16), d.flag, d.Width())
  }

  /** The rendered text; `halted` if an unknown conversion stopped the interpreter's assert. */
  datatype Rendered = Rendered(text: string, halted: bool)

  function Next(fmt: string): (item: Item)
    requires fmt != ""
    ensures 0 < item.used
    ensures item.Plain? || IsKind(item.d.kind) ==> item.used <= |fmt|
  {
    if fmt[0] != '%' then Plain(fmt[0], 1)
    else if At(fmt, 1) == '%' then Plain('%', 2)
    else
      var d := ParseDirective(fmt[1..]);
      Convert(d, 1 + d.used)
  }

  /** The format and its strings hold no terminator inside, the arguments match the
      conversions, and no width has more than the three digits the interpreter has room for. */
  predicate Proper(fmt: string, args: seq<Arg>)
    decreases |fmt|
  {
    if fmt == "" then true
    else
      match Next(fmt)
      case Plain(c, used) => c != '\0' && Proper(fmt[used..], args)
      case Convert(d, used) =>
        && |d.digits| <= 3
        && (IsKind(d.kind) ==> 0 < |args| && ArgFits(d.kind, args[0]) && Proper(fmt[used..], args[1..]))
  }

  function Render(fmt: string, args: seq<Arg>): Rendered
    requires Proper(fmt, args)
    decreases |fmt|
  {
    if fmt == "" then Rendered("", false)
    else
      match Next(fmt)
      case Plain(c, used) => Before([c], Render(fmt[used..], args))
      case Convert(d, used) =>
        if IsKind(d.kind) then Before(Field(d, args[0]), Render(fmt[used..], args[1..])) else Rendered("", true)
  }

  function Before(s: string, r: Rendered): Rendered {
    Rendered(s + r.text, r.halted)
  }

  // ----- composition -----

  lemma WidthExtends(s: string, t: string)
    requires FlagLength(s) + |WidthDigits(s)| < |s|
    ensures FlagLength(s + t) == FlagLength(s) && WidthDigits(s + t) == WidthDigits(s)
  {
    var k := FlagLength(s);
    assert At(s + t, 0) == At(s, 0);
    CountExtends(s[k..], t);
    SuffixOfConcat(s, t, k);
    SliceOfConcat(s, t, k, k + CountDigits(s[k..]));
  }

  /** The conversion at the start of a text does not look past what it uses. */
  lemma ParseExtends(s: string, t: string)
    requires IsKind(ParseDirective(s).kind)
    ensures ParseDirective(s + t) == ParseDirective(s) && ParseDirective(s).used <= |s|
  {
    var k := FlagLength(s) + |WidthDigits(s)|;
    var k' := if IsLength(At(s, k)) then k + 1 else k;
    assert IsKind(At(s, k'));
    assert k <= k' < |s|;
    WidthExtends(s, t);
    assert At(s + t, k) == At(s, k) && At(s + t, k') == At(s, k');
  }

  lemma {:induction false} CountExtends(s: string, t: string)
    requires CountDigits(s) < |s|
    ensures CountDigits(s + t) == CountDigits(s)
  {
    assert s != "" && (s + t)[0] == s[0];
    if IsDigit(s[0]) {
      SuffixOfConcat(s, t, 1);
      CountExtends(s[1..], t);
    }
  }

  lemma SuffixOfConcat(s: string, t: string, i: nat)
    requires i <= |s|
    ensures (s + t)[i..] == s[i..] + t
  {
  }

  lemma SliceOfConcat(s: string, t: string, i: nat, j: nat)
    requires i <= j <= |s|
    ensures (s + t)[i..j] == s[i..j]
  {
  }

  /** The first item of a format does not change when text is added at the end. */
  lemma NextExtends(f: string, g: string)
    requires f != "" && (Next(f).Plain? || IsKind(Next(f).d.kind))
    ensures Next(f + g) == Next(f)
    ensures (f + g)[Next(f).used..] == f[Next(f).used..] + g
  {
    if f[0] == '%' && At(f, 1) != '%' {
      SuffixOfConcat(f, g, 1);
      ParseExtends(f[1..], g);
      assert At(f + g, 1) == f[1];
    }
    SuffixOfConcat(f, g, Next(f).used);
  }

  /** The number of arguments a format uses. */
  function Arity(fmt: string): nat
    decreases |fmt|
  {
    if fmt == "" then 0
    else
      match Next(fmt)
      case Plain(_, used) => Arity(fmt[used..])
      case Convert(d, used) => if IsKind(d.kind) then 1 + Arity(fmt[used..]) else 0
  }

  lemma UnfoldPlain(h: string, args: seq<Arg>, h': string, item: Item)
    requires h != "" && Next(h) == item && item.Plain? && h' == h[item.used..]
    ensures Proper(h, args) <==> item.c != '\0' && Proper(h', args)
    ensures Proper(h, args) ==> Render(h, args) == Before([item.c], Render(h', args))
  {
  }

  lemma UnfoldConvert(h: string, args: seq<Arg>, h': string, args': seq<Arg>, item: Item)
    requires h != "" && Next(h) == item && item.Convert? && IsKind(item.d.kind)
    requires h' == h[item.used..] && 0 < |args| && args' == args[1..]
    ensures Proper(h, args) <==> |item.d.digits| <= 3 && ArgFits(item.d.kind, args[0]) && Proper(h', args')
    ensures Proper(h, args) ==> Render(h, args) == Before(Field(item.d, args[0]), Render(h', args'))
  {
  }

  /** Rendering one format after the other is rendering them joined. */
  lemma {:induction false} RenderConcat(f: string, a: seq<Arg>, g: string, b: seq<Arg>)
    requires Proper(f, a) && !Render(f, a).halted && |a| == Arity(f) && Proper(g, b)
    ensures Proper(f + g, a + b)
    ensures Render(f + g, a + b) == Before(Render(f, a).text, Render(g, b))
    decreases |f|, 1
  {
    if f == "" {
      assert f + g == g && a + b == b;
    } else if Next(f).Plain? {
      ConcatPlain(f, a, g, b);
    } else {
      ConcatConvert(f, a, g, b);
    }
  }

  lemma ConcatPlain(f: string, a: seq<Arg>, g: string, b: seq<Arg>)
    requires f != "" && Next(f).Plain?
    requires Proper(f, a) && !Render(f, a).halted && |a| == Arity(f) && Proper(g, b)
    ensures Proper(f + g, a + b)
    ensures Render(f + g, a + b) == Before(Render(f, a).text, Render(g, b))
    decreases |f|, 0
  {
    var item := Next(f);
    var f' := f[item.used..];
    NextExtends(f, g);
    UnfoldPlain(f, a, f', item);
    RenderConcat(f', a, g, b);
    UnfoldPlain(f + g, a + b, f' + g, item);
    BeforeBefore([item.c], Render(f', a).text, Render(g, b));
  }

  lemma ConcatConvert(f: string, a: seq<Arg>, g: string, b: seq<Arg>)
    requires f != "" && Next(f).Convert? && 0 < |a|
    requires Proper(f, a) && !Render(f, a).halted && |a| == Arity(f) && Proper(g, b)
    ensures Proper(f + g, a + b)
    ensures Render(f + g, a + b) == Before(Render(f, a).text, Render(g, b))
    decreases |f|, 0
  {
    var item := Next(f);
    var f' := f[item.used..];
    NextExtends(f, g);
    UnfoldConvert(f, a, f', a[1..], item);
    RenderConcat(f', a[1..], g, b);
    TailOfConcat(a, b);
    UnfoldConvert(f + g, a + b, f' + g, a[1..] + b, item);
    BeforeBefore(Field(item.d, a[0]), Render(f', a[1..]).text, Render(g, b));
  }

  lemma TailOfConcat<T>(a: seq<T>, b: seq<T>)
    requires 0 < |a|
    ensures (a + b)[1..] == a[1..] + b && (a + b)[0] == a[0]
  {
  }

  lemma BeforeBefore(s: string, t: string, r: Rendered)
    ensures Before(s, Before(t, r)) == Before(s + t, r)
  {
    assert s + (t + r.text) == s + t + r.text;
  }
}
