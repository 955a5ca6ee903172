/** Bytes, 32-bit unsigned arithmetic and the replacement of a slice of memory. */
module Memory {

  type Byte = bv8

  datatype Option<T> = None | Some(value: T)

  const U32_MOD: nat := 0x1_0000_0000

  /** Conversion to a 32-bit unsigned integer. */
  function U32(x: int): nat {
    x % U32_MOD
  }

  function Min(a: nat, b: nat): nat {
    if a <= b then a else b
  }

  /** Memory `s` with the bytes from `at` on replaced by `data`. */
  function Splice(s: seq<Byte>, at: nat, data: seq<Byte>): (r: seq<Byte>)
    requires at + |data| <= |s|
    ensures |r| == |s|
    ensures forall i :: 0 <= i < |s| ==> r[i] == if at <= i < at + |data| then data[i - at] else s[i]
  {
    s[..at] + data + s[at + |data|..]
  }

  /** Two memories agree outside the `n` bytes from `at` on. */
  predicate SameOutside(a: seq<Byte>, b: seq<Byte>, at: nat, n: nat) {
    |a| == |b| && forall i :: 0 <= i < |a| && !(at <= i < at + n) ==> a[i] == b[i]
  }

  /** Two memories agree within the `n` bytes from `at` on. */
  predicate SameWithin(a: seq<Byte>, b: seq<Byte>, at: nat, n: nat) {
    |a| == |b| && forall i :: 0 <= i < |a| && at <= i < at + n ==> a[i] == b[i]
  }

  /** Memory `m`, but with the bytes of `kept` within the `n` bytes from `at` on. */
  function Rebased(kept: seq<Byte>, m: seq<Byte>, at: nat, n: nat): (r: seq<Byte>)
    ensures |r| == |m|
    ensures forall i :: 0 <= i < |r| ==> r[i] == if at <= i < at + n && i < |kept| then kept[i] else m[i]
  {
    seq(|m|, i requires 0 <= i < |m| => if at <= i < at + n && i < |kept| then kept[i] else m[i])
  }

  lemma MulMono(a: nat, b: nat, c: nat)
    requires a <= b
    ensures a * c <= b * c && c * a <= c * b
  {
  }

  /** Programming NOR flash can only clear bits. */
  function Programmed(old_: seq<Byte>, data: seq<Byte>): (r: seq<Byte>)
    requires |old_| == |data|
    ensures |r| == |data|
    ensures forall i :: 0 <= i < |r| ==> r[i] == old_[i] & data[i]
  {
    seq(|data|, i requires 0 <= i < |data| => old_[i] & data[i])
  }

  /** `n` erased bytes. */
  function Erased(n: nat): (r: seq<Byte>)
    ensures |r| == n && forall i :: 0 <= i < n ==> r[i] == 0xFF
  {
    seq(n, _ => 0xFF)
  }
}
