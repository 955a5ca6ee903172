/** The formatted print family: a format string is interpreted character by character
    into a bounded sink. */
module Printf {
  import opened Memory
  import opened Xtoa
  import opened Format

  const INT_MIN: int := -0x8000_0000

  /** Conversion of a 32-bit unsigned value to a signed one. */
  function Signed(n: nat): int
    requires n < U32_MOD
  {
    if n < 0x8000_0000 then n else n - U32_MOD
  }

  /** The limit on the characters written: `left` counts down and stops at 1, so only a
      positive starting value limits. */
  function Truncated(text: string, left: int): (r: string)
    ensures r <= text
  {
    if 1 <= left && left - 1 < |text| then text[..left - 1] else text
  }

  /** What characters go to: a buffer from `start` on, or standard output. */
  class Output {
    const toBuffer: bool
    const buf: array<char>
    const start: nat
    var pos: nat
    var console: string
    var left: int
    ghost const limit: int        // the starting value of `left`
    ghost const before: seq<char> // the buffer at the start
    ghost var wanted: string      // everything emitted so far, written or not

    /** What has been written. */
    ghost function Written(): string
      reads this, buf
      requires toBuffer ==> start <= pos <= buf.Length
    {
      if toBuffer then buf[start..pos] else console
    }

    ghost predicate Valid()
      reads this, buf
    {
      && (toBuffer ==> start <= pos <= buf.Length)
      && Written() == Truncated(wanted, limit)
      && left == limit - |Truncated(wanted, limit)|
      && |before| == buf.Length
      && forall i :: 0 <= i < buf.Length && !(toBuffer && start <= i < pos) ==> buf[i] == before[i]
    }

    /** There is room for `n` more characters: the buffer holds what will be written and a
        terminator, and an unlimited count does not run below the smallest int. */
    ghost predicate Fits(n: nat)
      reads this
    {
      && (toBuffer ==> start + (if 1 <= limit && limit - 1 < |wanted| + n then limit - 1 else |wanted| + n) < buf.Length)
      && (limit < 1 ==> INT_MIN <= limit - (|wanted| + n))
    }

    constructor (toBuffer: bool, buf: array<char>, start: nat, n: nat)
      requires n < U32_MOD && (toBuffer ==> start <= buf.Length)
      ensures Valid() && limit == Signed(n) && wanted == ""
      ensures this.toBuffer == toBuffer && this.buf == buf && this.start == start && console == ""
      ensures before == buf[..]
    {
      this.toBuffer, this.buf, this.start := toBuffer, buf, start;
      pos, console, left := start, "", Signed(n);
      limit, wanted, before := Signed(n), "", buf[..];
    }
  }

  method EmitChar(out: Output, c: char)
    requires out.Valid() && out.Fits(1)
    modifies out, out.buf
    ensures out.Valid() && out.wanted == old(out.wanted) + [c]
  {
    ghost var before := out.Written();
    out.wanted := out.wanted + [c];
    if out.left == 1 {
      return;
    }
    out.left := out.left - 1;
    if !out.toBuffer {
      out.console := out.console + [c];
    } else {
      out.buf[out.pos] := c;
      out.pos := out.pos + 1;
      assert out.Written() == before + [c];
    }
  }

  /** Emit the first `n` characters of a text. */
  method EmitText(out: Output, s: string)
    requires out.Valid() && out.Fits(|s|)
    modifies out, out.buf
    ensures out.Valid() && out.wanted == old(out.wanted) + s
  {
    var i := 0;
    while i < |s|
      invariant i <= |s| && out.Valid() && out.Fits(|s| - i)
      invariant out.wanted == old(out.wanted) + s[..i]
    {
      EmitChar(out, s[i]);
      i := i + 1;
    }
    assert s[..|s|] == s;
  }

  method EmitPadding(out: Output, pad: char, n: int)
    requires out.Valid() && out.Fits(if n < 0 then 0 else n)
    modifies out, out.buf
    ensures out.Valid() && out.wanted == old(out.wanted) + Repeat(pad, n)
  {
    var i := 0;
    while i < n
      invariant 0 <= i <= (if n < 0 then 0 else n) && out.Valid() && out.Fits(if n < i then 0 else n - i)
      invariant out.wanted == old(out.wanted) + Repeat(pad, i)
    {
      EmitChar(out, pad);
      i := i + 1;
      assert Repeat(pad, i) == Repeat(pad, i - 1) + [pad];
    }
    assert Repeat(pad, n) == Repeat(pad, i);
  }

  method EmitString(out: Output, s: string, flag: Flag, width: nat)
    requires out.Valid() && out.Fits(|Pad(s, flag, width)|)
    modifies out, out.buf
    ensures out.Valid() && out.wanted == old(out.wanted) + Pad(s, flag, width)
  {
    var pad := if flag == Zero then '0' else ' ';
    ghost var was := out.wanted;
    Regroup(was, s, Repeat(pad, width - |s|));
    Regroup(was, Repeat(pad, width - |s|), s);
    if flag == Left {
      EmitText(out, s);
      EmitPadding(out, pad, width - |s|);
    } else {
      EmitPadding(out, pad, width - |s|);
      EmitText(out, s);
    }
  }

  /** Converts into a local buffer of 12 bytes. */
  method EmitInt(out: Output, val: int, base: nat, flag: Flag, width: nat, signed: bool)
    requires INT_MIN <= val < 0x8000_0000 && base in {10, 16}
    requires out.Valid()
    requires var s := if signed then IntText(val, base) else Digits(U32(val), base); out.Fits(|Pad(s, flag, width)|)
    modifies out, out.buf
    ensures out.Valid()
    ensures var s := if signed then IntText(val, base) else Digits(U32(val), base);
            out.wanted == old(out.wanted) + Pad(s, flag, width)
  {
    var lBuf := new char[12];
    ghost var s := if signed then IntText(val, base) else Digits(U32(val), base);
    if signed {
      MagnitudeOfInt(val);
      Fits12(if val < 0 then -val else val, base, val < 0);
      Xtoa.Xtoa(U32(val), lBuf, base, val < 0);
    } else {
      Fits12(U32(val), base, false);
      Xtoa.Xtoa(U32(val), lBuf, base, false);
    }
    var len := 0;
    while lBuf[len] != '\0'
      invariant 0 <= len <= |s| && lBuf[..|s|] == s && lBuf[|s|] == '\0' && |s| < 12
      decreases |s| - len
    {
      len := len + 1;
    }
    assert len == |s| by { NoTerminator(val, base, signed); }
    EmitString(out, lBuf[..len], flag, width);
  }

  /** A width of at most three digits, collected in a buffer of four. */
  method ParseWidth(format: string) returns (width: nat, n: nat)
    requires CountDigits(format) <= 3
    ensures n == CountDigits(format) && width == DecimalValue(format[..n])
  {
    var wBuff := new char[4];
    n := 0;
    while IsDigit(At(format, n))
      invariant n <= CountDigits(format)
      invariant wBuff[..n] == format[..n]
      decreases |format| - n
    {
      CountAtLeast(format, n);
      wBuff[n] := format[n];
      n := n + 1;
    }
    CountExactly(format, n);
    wBuff[n] := '\0';
    width := DecimalValue(wBuff[..n]);
  }

  lemma {:induction false} CountAtLeast(s: string, n: nat)
    requires n < |s| && IsDigit(s[n]) && n <= CountDigits(s)
    ensures n < CountDigits(s)
  {
  }

  lemma CountExactly(s: string, n: nat)
    requires n <= CountDigits(s) && !IsDigit(At(s, n))
    ensures n == CountDigits(s)
  {
  }

  /** The flag, width, length and type of a conversion; `format` points behind the percent sign. */
  method Parse(format: string) returns (flag: Flag, width: nat, ch: char, used: nat)
    requires |ParseDirective(format).digits| <= 3
    ensures var d := ParseDirective(format);
            flag == d.flag && width == d.Width() && ch == d.kind && used == d.used
  {
    used := 0;
    flag := FlagOf(At(format, used));
    if flag != NoFlag {
      used := used + 1;
    }
    var n;
    width, n := ParseWidth(format[used..]);
    TakeOfDrop(format, used, n);
    used := used + n;
    ch := At(format, used);
    used := used + 1;
    if IsLength(ch) {
      ch := At(format, used);
      used := used + 1;
    }
  }

  /** One conversion, with what was parsed of it. */
  method PrintField(out: Output, flag: Flag, width: nat, ch: char, a: Arg, ghost d: Directive)
    requires flag == d.flag && width == d.Width() && ch == d.kind
    requires out.Valid() && IsKind(ch) && ArgFits(ch, a) && out.Fits(|Field(d, a)|)
    modifies out, out.buf
    ensures out.Valid() && out.wanted == old(out.wanted) + Field(d, a)
  {
    if ch == 'c' {
      EmitChar(out, CharOf(a.v));
    } else if ch == 'd' {
      EmitInt(out, a.v, 10, flag, width, true);
    } else if ch == 'u' {
      EmitInt(out, a.v, 10, flag, width, false);
    } else if ch == 'x' || ch == 'p' {
      EmitInt(out, a.v, 16, flag, width, false);
    } else {
      var str := if a.NullArg? then "(null)" else a.s;
      EmitString(out, str, flag, width);
    }
  }

  lemma HasArgument(h: string, args: seq<Arg>)
    requires h != "" && Proper(h, args) && Next(h).Convert? && IsKind(Next(h).d.kind)
    ensures 0 < |args|
  {
  }

  /** A conversion at the front of the format, with its argument taken from the front of the list. */
  method PrintDirective(out: Output, format: string, ap: seq<Arg>) returns (halted: bool, used: nat)
    requires format != "" && Next(format).Convert? && Proper(format, ap)
    requires out.Valid() && out.Fits(|Render(format, ap).text|)
    modifies out, out.buf
    ensures out.Valid()
    ensures var item := Next(format);
            && halted == !IsKind(item.d.kind)
            && (halted ==> out.wanted == old(out.wanted))
            && (!halted ==> 0 < |ap| && ArgFits(item.d.kind, ap[0]) && used == item.used
                            && out.wanted == old(out.wanted) + Field(item.d, ap[0]))
  {
    ghost var item := Next(format);
    var flag, width, kind;
    flag, width, kind, used := Parse(format[1..]);
    used := used + 1;
    if !IsKind(kind) {
      return true, used;
    }
    HasArgument(format, ap);
    UnfoldConvert(format, ap, format[item.used..], ap[1..], item);
    PrintField(out, flag, width, kind, ap[0], item.d);
    return false, used;
  }

  /** One turn of the interpreter's loop: `used` characters of the format and `taken` arguments. */
  method PrintItem(out: Output, format: string, ap: seq<Arg>) returns (halted: bool, used: nat, taken: nat)
    requires format != "" && Proper(format, ap)
    requires out.Valid() && out.Fits(|Render(format, ap).text|)
    modifies out, out.buf
    ensures out.Valid()
    ensures halted ==> Render(format, ap) == Rendered("", true) && out.wanted == old(out.wanted)
    ensures !halted ==>
      && 0 < used <= |format| && taken <= |ap| && Proper(format[used..], ap[taken..])
      && var rest := Render(format[used..], ap[taken..]);
         && rest.halted == Render(format, ap).halted
         && out.wanted + rest.text == old(out.wanted) + Render(format, ap).text
  {
    ghost var item := Next(format);
    ghost var was := out.wanted;
    if format[0] == '%' && At(format, 1) != '%' {
      halted, used := PrintDirective(out, format, ap);
      taken := 1;
      if !halted {
        UnfoldConvert(format, ap, format[used..], ap[1..], item);
        Regroup(was, Field(item.d, ap[0]), Render(format[used..], ap[1..]).text);
      }
    } else {
      halted, taken, used := false, 0, if format[0] == '%' then 2 else 1;
      UnfoldPlain(format, ap, format[used..], item);
      EmitChar(out, if format[0] == '%' then '%' else format[0]);
      Regroup(was, [item.c], Render(format[used..], ap).text);
      assert ap[0..] == ap;
    }
  }

  /** The interpreter. It runs over the format once and emits exactly the rendered text;
      an unknown conversion stops it (`halted`: its assert fails). */
  method Interpret(out: Output, fmt: string, args: seq<Arg>) returns (halted: bool)
    requires out.Valid() && Proper(fmt, args) && out.Fits(|Render(fmt, args).text|)
    modifies out, out.buf
    ensures out.Valid()
    ensures out.wanted == old(out.wanted) + Render(fmt, args).text
    ensures halted == Render(fmt, args).halted
  {
    ghost var r := Render(fmt, args);
    var format, ap := fmt, args;
    while format != ""
      invariant out.Valid() && Proper(format, ap)
      invariant var rest := Render(format, ap);
        && out.Fits(|rest.text|) && rest.halted == r.halted
        && out.wanted + rest.text == old(out.wanted) + r.text
      decreases |format|
    {
      var stop, used, taken := PrintItem(out, format, ap);
      if stop {
        return true;
      }
      format, ap := format[used..], ap[taken..];
    }
    return false;
  }

  lemma TakeOfDrop(s: string, k: nat, n: nat)
    requires k + n <= |s|
    ensures s[k..][..n] == s[k..k + n]
  {
  }

  lemma Regroup(s: string, t: string, u: string)
    ensures s + (t + u) == s + t + u
  {
  }

  /** The room a call needs: the written part and a terminator lie in the buffer, and an
      unlimited count stays above the smallest int. */
  predicate Room(capacity: nat, text: string, limit: int) {
    && |Truncated(text, limit)| < capacity
    && (limit < 1 ==> INT_MIN <= limit - |text|)
  }

  /** The buffer `b` with `s` in it from `at` on. */
  function Overwritten(b: string, at: nat, s: string): string
    requires at + |s| <= |b|
  {
    b[..at] + s + b[at + |s|..]
  }

  lemma OverwrittenIs(a: string, b: string, at: nat, s: string)
    requires |a| == |b| && at + |s| <= |a| && a[at..at + |s|] == s
    requires forall i :: 0 <= i < |a| && !(at <= i < at + |s|) ==> a[i] == b[i]
    ensures a == Overwritten(b, at, s)
  {
    var r := Overwritten(b, at, s);
    forall i | 0 <= i < |a| ensures a[i] == r[i] {
      if at <= i < at + |s| {
        assert a[i] == a[at..at + |s|][i - at];
      }
    }
  }

  /** What is written of a text: an interpreter that halts does not get to the terminator. */
  function Ending(t: string, halted: bool): string {
    if halted then t else t + ['\0']
  }

  /** The mother of the family: interpret, compute the result, terminate a buffer. */
  method Print(out: Output, n: nat, fmt: string, args: seq<Arg>) returns (halted: bool, ret: int)
    requires n < U32_MOD && Proper(fmt, args)
    requires out.Valid() && out.wanted == "" && out.limit == Signed(n)
    requires Room(if out.toBuffer then out.buf.Length - out.start else |Render(fmt, args).text| + 1,
                  Render(fmt, args).text, Signed(n))
    modifies out, out.buf
    ensures halted == Render(fmt, args).halted && out.wanted == Render(fmt, args).text
    ensures var t := Truncated(out.wanted, Signed(n));
            && (out.toBuffer ==> out.start + |t| < |out.before|
                                 && out.buf[..] == Overwritten(out.before, out.start, Ending(t, halted)))
            && (!out.toBuffer ==> out.console == t)
            && (!halted && |t| < 0x8000_0000 ==> ret == |t|)
  {
    halted := Interpret(out, fmt, args);
    WrittenSoFar(out);
    if halted {
      return halted, 0;
    }
    ret := Finish(out, n);
  }

  lemma WrittenSoFar(out: Output)
    requires out.Valid()
    ensures var t := Truncated(out.wanted, out.limit);
            && (out.toBuffer ==> out.pos == out.start + |t| <= |out.before|
                                 && out.buf[..] == Overwritten(out.before, out.start, t))
            && (!out.toBuffer ==> out.console == t)
  {
    if out.toBuffer {
      OverwrittenIs(out.buf[..], out.before, out.start, Truncated(out.wanted, out.limit));
    }
  }

  /** Compute the result, and terminate a buffer. */
  method Finish(out: Output, n: nat) returns (ret: int)
    requires n < U32_MOD && out.Valid() && out.limit == Signed(n)
    requires out.toBuffer ==> out.pos < out.buf.Length
    modifies out`left, out.buf
    ensures var t := Truncated(out.wanted, Signed(n));
            && (out.toBuffer ==> out.start + |t| < |out.before|
                                 && out.buf[..] == Overwritten(out.before, out.start, t + ['\0']))
            && (|t| < 0x8000_0000 ==> ret == |t|)
  {
    ghost var t := Truncated(out.wanted, Signed(n));
    ret := Signed(U32(n - out.left));
    if |t| < 0x8000_0000 {
      ReturnIsCount(n, |t|);
    }
    if out.toBuffer {
      WrittenSoFar(out);
      ghost var was := out.buf[..];
      out.left := 0;
      out.buf[out.pos] := '\0';
      TerminatorBehind(out.before, out.start, t, was);
      assert out.buf[..] == was[out.pos := '\0'];
    }
  }

  lemma TerminatorBehind(b: string, at: nat, t: string, was: string)
    requires at + |t| < |b| && was == Overwritten(b, at, t)
    ensures was[at + |t| := '\0'] == Overwritten(b, at, t + ['\0'])
  {
    var r := was[at + |t| := '\0'];
    assert r[at..at + |t + ['\0']|] == t + ['\0'];
    OverwrittenIs(r, b, at, t + ['\0']);
  }

  lemma ReturnIsCount(n: nat, k: nat)
    requires n < U32_MOD && k < 0x1_0000_0000
    ensures k < 0x8000_0000 ==> Signed(U32(n - (Signed(n) - k))) == k
  {
    assert U32(n - (Signed(n) - k)) == k;
  }

  /** Print into a buffer from `start` on: exactly the rendered text, truncated, and a
      terminator; nothing else in the buffer changes. */
  method Vsnprintf(buffer: array<char>, start: nat, n: nat, fmt: string, args: seq<Arg>) returns (halted: bool, ret: int)
    requires n < U32_MOD && Proper(fmt, args) && start <= buffer.Length
    requires Room(buffer.Length - start, Render(fmt, args).text, Signed(n))
    modifies buffer
    ensures halted == Render(fmt, args).halted
    ensures var t := Truncated(Render(fmt, args).text, Signed(n));
            && buffer[..] == Overwritten(old(buffer[..]), start, Ending(t, halted))
            && (!halted && |t| < 0x8000_0000 ==> ret == |t|)
  {
    var out := new Output(true, buffer, start, n);
    halted, ret := Print(out, n, fmt, args);
  }

  /** With the largest size nothing is cut off. */
  method Vsprintf(buffer: array<char>, start: nat, fmt: string, args: seq<Arg>) returns (halted: bool, ret: int)
    requires Proper(fmt, args) && start <= buffer.Length
    requires |Render(fmt, args).text| < buffer.Length - start && |Render(fmt, args).text| < 0x8000_0000
    modifies buffer
    ensures halted == Render(fmt, args).halted
    ensures buffer[..] == Overwritten(old(buffer[..]), start, Ending(Render(fmt, args).text, halted))
    ensures !halted ==> ret == |Render(fmt, args).text|
  {
    halted, ret := Vsnprintf(buffer, start, U32_MOD - 1, fmt, args);
  }

  /** Print to standard output, without a limit. */
  method Vfprintf(fmt: string, args: seq<Arg>) returns (halted: bool, ret: int, console: string)
    requires Proper(fmt, args) && |Render(fmt, args).text| < 0x8000_0000
    ensures halted == Render(fmt, args).halted && console == Render(fmt, args).text
    ensures !halted ==> ret == |console|
  {
    var none := new char[0];
    var out := new Output(false, none, 0, U32_MOD - 1);
    halted, ret := Print(out, U32_MOD - 1, fmt, args);
    console := out.console;
  }

  // ----- what a call leaves behind -----

  /** The buffer of a call that was not halted: the text, a terminator behind it, and all else as before. */
  lemma TextTerminated(b: string, at: nat, t: string)
    requires at + |t| < |b|
    ensures var r := Overwritten(b, at, Ending(t, false));
            && |r| == |b| && r[at..at + |t|] == t && r[at + |t|] == '\0'
            && forall i :: 0 <= i < |b| && !(at <= i <= at + |t|) ==> r[i] == b[i]
  {
    assert Ending(t, false) == t + ['\0'];
  }

  // ----- what the limit means -----

  /** The result is what section 7.19.6.5 of ISO/IEC 9899:1999 asks for, the length of the
      whole text, exactly if the text fits. */
  lemma ResultIsWholeLength(text: string, n: nat)
    requires 1 <= n < 0x8000_0000
    ensures |Truncated(text, Signed(n))| < n
    ensures |Truncated(text, Signed(n))| == |text| <==> |text| < n
    ensures Truncated(text, Signed(n)) == if |text| < n then text else text[..n - 1]
  {
  }

  /** A size of zero, or one that is negative as an int, does not limit at all. */
  lemma LimitsExactlyPositive(n: nat)
    requires n < U32_MOD
    ensures 1 <= n < 0x8000_0000 <==> exists text: string :: Truncated(text, Signed(n)) != text
  {
    if 1 <= n < 0x8000_0000 {
      var text := Repeat('a', n);
      assert Truncated(text, Signed(n)) != text;
    }
  }

  /** A smaller limit gives a prefix of what a larger one gives. */
  lemma LimitsNest(text: string, m: int, n: int)
    requires 1 <= m <= n
    ensures Truncated(text, m) <= Truncated(text, n)
  {
  }

  /** The text of a number holds no terminator. */
  lemma NoTerminator(val: int, base: nat, signed: bool)
    requires IsBase(base) && INT_MIN <= val < 0x8000_0000
    ensures '\0' !in (if signed then IntText(val, base) else Digits(U32(val), base))
  {
    DigitsNoTerminator(if val < 0 then -val else val, base);
    DigitsNoTerminator(U32(val), base);
  }

  lemma {:induction false} DigitsNoTerminator(val: nat, base: nat)
    requires IsBase(base)
    ensures '\0' !in Digits(val, base)
  {
    DivFacts(val, base);
    assert DIGITS[val % base] != '\0' by { DigitIsDigit(val % base); }
    if base <= val {
      DigitsNoTerminator(val / base, base);
    }
  }
}
