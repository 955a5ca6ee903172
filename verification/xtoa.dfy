/** Conversion of numbers to text. */
module Xtoa {
  import opened Memory

  const DIGITS: string := "0123456789abcdef"

  predicate IsBase(base: nat) {
    2 <= base <= 16
  }

  /** The digits of `val`, most significant first. */
  function Digits(val: nat, base: nat): (s: string)
    requires IsBase(base)
    ensures 0 < |s|
  {
    if val < base then [DIGITS[val]] else Digits(val / base, base) + [DIGITS[val % base]]
  }

  /** The text of a number, with its sign. */
  function Text(val: nat, base: nat, negative: bool): string
    requires IsBase(base)
  {
    if negative then "-" + Digits(val, base) else Digits(val, base)
  }

  // ----- reading a number back -----

  function DigitValue(c: char): int {
    if '0' <= c <= '9' then c as int - '0' as int
    else if 'a' <= c <= 'f' then c as int - 'a' as int + 10
    else -1
  }

  /** The value of a digit string, by its own rule: the value of the text before the last digit,
      times the base, plus the last digit. */
  function Value(s: string, base: nat): int {
    if s == "" then 0 else Value(s[..|s| - 1], base) * base + DigitValue(s[|s| - 1])
  }

  function SignedValue(s: string, base: nat): int {
    if s != "" && s[0] == '-' then -Value(s[1..], base) else Value(s, base)
  }

  lemma DivFacts(v: nat, base: nat)
    requires 1 < base
    ensures v == v / base * base + v % base && v % base < base
    ensures v < base ==> v / base == 0 && v % base == v
    ensures base <= v ==> 0 < v / base < v
  {
    var q, r := v / base, v % base;
    assert v == q * base + r;
    if 0 < q {
      MulMono(1, q, base);
      MulMono(2, base, q);
    }
  }

  lemma DigitIsDigit(d: nat)
    requires d < 16
    ensures DigitValue(DIGITS[d]) == d && DIGITS[d] != '-' && (DIGITS[d] == '0' <==> d == 0)
  {
  }

  /** Reading the digits back gives the number. */
  lemma {:induction false} DigitsValue(val: nat, base: nat)
    requires IsBase(base)
    ensures Value(Digits(val, base), base) == val
  {
    var s := Digits(val, base);
    DivFacts(val, base);
    DigitIsDigit(val % base);
    if val < base {
      assert s[..0] == "";
    } else {
      var q := val / base;
      DigitsValue(q, base);
      assert s[..|s| - 1] == Digits(q, base);
    }
  }

  /** No superfluous leading zero, and no sign among the digits. */
  lemma {:induction false} DigitsLead(val: nat, base: nat)
    requires IsBase(base)
    ensures var s := Digits(val, base);
            && (s[0] == '0' <==> val == 0)
            && s[0] != '-'
            && (val == 0 ==> |s| == 1)
  {
    DivFacts(val, base);
    DigitIsDigit(val % base);
    if base <= val {
      DigitsLead(val / base, base);
    }
  }

  /** For a value below base^n there are at most n digits; here in the two bases of the format interpreter. */
  lemma {:induction false} DigitsLength(val: nat, base: nat, n: nat, bound: nat)
    requires IsBase(base) && 0 < n && Power(base, n) == bound && val < bound
    ensures |Digits(val, base)| <= n
  {
    DivFacts(val, base);
    if base <= val {
      var q, p := val / base, Power(base, n - 1);
      assert bound == base * p;
      DivBound(val, base, q, p);
      if 1 < n {
        DigitsLength(q, base, n - 1, p);
      }
    }
  }

  lemma DivBound(val: nat, base: nat, q: nat, p: nat)
    requires 0 < base && val < base * p && q * base <= val
    ensures q < p
  {
    if p <= q {
      MulMono(p, q, base);
    }
  }

  function Power(base: nat, n: nat): nat {
    if n == 0 then 1 else base * Power(base, n - 1)
  }

  /** Any 32-bit value, with its sign and terminator, fits the 12 bytes the format interpreter gives it. */
  lemma Fits12(val: nat, base: nat, negative: bool)
    requires val < U32_MOD && base in {10, 16}
    ensures |Text(val, base, negative)| + 1 <= 12
  {
    if base == 10 {
      assert Power(10, 10) == 10_000_000_000 by { PowerTen(); }
      DigitsLength(val, 10, 10, 10_000_000_000);
    } else {
      assert Power(16, 8) == U32_MOD by { PowerSixteen(); }
      DigitsLength(val, 16, 8, U32_MOD);
    }
  }

  lemma PowerTen()
    ensures Power(10, 10) == 10_000_000_000
  {
    assert Power(10, 5) == 100_000;
    assert Power(10, 7) == 10_000_000;
  }

  lemma PowerSixteen()
    ensures Power(16, 8) == U32_MOD
  {
    assert Power(16, 4) == 0x1_0000;
    assert Power(16, 6) == 0x100_0000;
  }

  // ----- the conversions -----

  /** The unsigned value a signed argument stands for. */
  function Magnitude(val: nat, negative: bool): nat {
    if negative then U32(0 - val) else val
  }

  /** Negating the unsigned image of a negative int gives its magnitude, also for the smallest int. */
  lemma MagnitudeOfInt(value: int)
    requires -0x8000_0000 <= value < 0x8000_0000
    ensures Magnitude(U32(value), value < 0) == if value < 0 then -value else value
  {
  }

  /** The text of an int. */
  function IntText(value: int, base: nat): string
    requires IsBase(base)
  {
    Text(if value < 0 then -value else value, base, value < 0)
  }

  /** Reading the text of an int gives it back, sign included. */
  lemma IntRoundTrip(value: int, base: nat)
    requires IsBase(base)
    ensures SignedValue(IntText(value, base), base) == value
  {
    var m := if value < 0 then -value else value;
    DigitsValue(m, base);
    DigitsLead(m, base);
    if value < 0 {
      assert IntText(value, base)[1..] == Digits(m, base);
    }
  }

  /** Different ints have different texts. */
  lemma IntTextInjective(a: int, b: int, base: nat)
    requires IsBase(base) && IntText(a, base) == IntText(b, base)
    ensures a == b
  {
    IntRoundTrip(a, base);
    IntRoundTrip(b, base);
  }

  function Reversed(s: string): (r: string)
    ensures |r| == |s|
    ensures forall i :: 0 <= i < |s| ==> r[i] == s[|s| - 1 - i]
  {
    seq(|s|, i requires 0 <= i < |s| => s[|s| - 1 - i])
  }

  /** The digits least significant first, as the loop produces them. */
  function LowDigits(val: nat, base: nat): (s: string)
    requires IsBase(base)
    ensures 0 < |s|
  {
    if val < base then [DIGITS[val]] else [DIGITS[val % base]] + LowDigits(val / base, base)
  }

  lemma {:induction false} LowDigitsReversed(val: nat, base: nat)
    requires IsBase(base)
    ensures Reversed(LowDigits(val, base)) == Digits(val, base)
  {
    if base <= val {
      LowDigitsReversed(val / base, base);
      var rest := LowDigits(val / base, base);
      assert Reversed([DIGITS[val % base]] + rest) == Reversed(rest) + [DIGITS[val % base]];
    }
  }

  lemma ReversedSign(s: string)
    ensures Reversed(s + "-") == "-" + Reversed(s)
  {
  }

  /** Reverse the first `n` characters in place with two moving pointers. */
  method ReverseInPlace(str: array<char>, n: nat)
    requires n <= str.Length
    modifies str
    ensures str[..n] == Reversed(old(str[..n])) && str[n..] == old(str[n..])
  {
    var p, q := n - 1, 0;
    while p > q
      invariant -1 <= p < n && 0 <= q && p + q == n - 1 && q <= p + 2
      invariant forall k :: 0 <= k < n ==>
        str[k] == if q <= k <= p then old(str[k]) else old(str[n - 1 - k])
      invariant forall k :: n <= k < str.Length ==> str[k] == old(str[k])
    {
      var c := str[p];
      str[p] := str[q];
      p := p - 1;
      str[q] := c;
      q := q + 1;
    }
    assert forall k :: 0 <= k < n ==> str[..n][k] == Reversed(old(str[..n]))[k];
  }

  /** One turn of the digit loop. */
  lemma LowDigitsStep(before: string, v: nat, base: nat)
    requires IsBase(base)
    ensures 0 <= v % base < base <= 16 && 0 <= v / base
    ensures base <= v <==> 0 < v / base
    ensures 0 < v / base ==> v / base < v
    ensures before + LowDigits(v, base) ==
            if base <= v then before + [DIGITS[v % base]] + LowDigits(v / base, base) else before + [DIGITS[v % base]]
  {
    DivFacts(v, base);
    if base <= v {
      assert before + ([DIGITS[v % base]] + LowDigits(v / base, base))
          == before + [DIGITS[v % base]] + LowDigits(v / base, base);
    }
  }

  /** The digit loop: the digits of `val`, least significant first. */
  method PutDigits(val: nat, str: array<char>, base: nat) returns (i: nat)
    requires IsBase(base) && |LowDigits(val, base)| <= str.Length
    modifies str
    ensures i == |LowDigits(val, base)| && str[..i] == LowDigits(val, base)
  {
    ghost var low := LowDigits(val, base);
    var v: nat := val;
    i := 0;
    var more := true;
    while more
      invariant i <= |low|
      invariant more ==> low == str[..i] + LowDigits(v, base)
      invariant !more ==> low == str[..i]
      decreases more, v
    {
      ghost var before := str[..i];
      LowDigitsStep(before, v, base);
      str[i] := DIGITS[v % base];
      i := i + 1;
      assert str[..i] == before + [DIGITS[v % base]];
      v := v / base;
      more := v > 0;
    }
  }

  /** `val` is an unsigned long of 32 bits. The source's test of the base can never hold,
      so the bases are what its digit table allows. */
  method Xtoa(val: nat, str: array<char>, base: nat, negative: bool)
    requires val < U32_MOD && IsBase(base)
    requires |Text(Magnitude(val, negative), base, negative)| < str.Length
    modifies str
    ensures var t := Text(Magnitude(val, negative), base, negative);
            str[..|t|] == t && str[|t|] == '\0'
  {
    var v := val;
    if negative {
      v := Magnitude(val, true);
    }
    ghost var low := LowDigits(v, base);
    LowDigitsReversed(v, base);
    assert |low| == |Digits(v, base)|;
    var i := PutDigits(v, str, base);
    if negative {
      str[i] := '-';
      i := i + 1;
      assert str[..i] == low + "-";
    }
    str[i] := '\0';
    ghost var written := str[..i];
    assert written == if negative then low + "-" else low;
    ReversedSign(low);
    ReverseInPlace(str, i);
    assert str[i] == str[i..][0];
  }

  method Ultoa(value: nat, str: array<char>, base: nat)
    requires value < U32_MOD && IsBase(base) && |Digits(value, base)| < str.Length
    modifies str
    ensures str[..|Digits(value, base)|] == Digits(value, base) && str[|Digits(value, base)|] == '\0'
  {
    Xtoa(value, str, base, false);
  }

  method Itoa(value: int, str: array<char>, base: nat) returns (r: array<char>)
    requires -0x8000_0000 <= value < 0x8000_0000 && IsBase(base) && |IntText(value, base)| < str.Length
    modifies str
    ensures r == str && str[..|IntText(value, base)|] == IntText(value, base) && str[|IntText(value, base)|] == '\0'
  {
    MagnitudeOfInt(value);
    Xtoa(U32(value), str, base, value < 0);
    r := str;
  }
}
