/** The sector list of the flash configuration: address and length checks of the
    service functions, and the search for the sector of an address. */
module Sectors {
  import opened Memory

  /** One region: `count` sectors of `size` bytes from `start` on. */
  datatype Sector = Sector(start: nat, pageSize: nat, size: nat, count: nat) {
    ghost predicate Valid() {
      0 < size && 0 < pageSize && start + count * size <= U32_MOD
    }

    function End(): nat {
      start + count * size
    }
  }

  /** What an address or a length is aligned to: pages for read, write and compare, sectors for erase. */
  datatype Unit = Page | Whole

  function UnitSize(s: Sector, unit: Unit): nat {
    if unit == Page then s.pageSize else s.size
  }

  /** The containment test, with its unsigned 32-bit subtraction. */
  predicate InSector(s: Sector, addr: nat)
    requires 0 < s.size
  {
    U32(addr - s.start) / s.size < s.count
  }

  /** The wrapping quotient test is the plain interval test. */
  lemma InSectorIsInterval(s: Sector, addr: nat)
    requires s.Valid() && addr < U32_MOD
    ensures InSector(s, addr) <==> s.start <= addr < s.End()
  {
    var d := U32(addr - s.start);
    DivLess(d, s.size, s.count);
    if addr < s.start {
      assert d == addr - s.start + U32_MOD;
    } else {
      assert d == addr - s.start;
    }
  }

  lemma DivLess(d: nat, size: nat, count: nat)
    requires 0 < size
    ensures d / size < count <==> d < count * size
  {
    var q, r := d / size, d % size;
    assert d == q * size + r;
    if q < count {
      assert (q + 1) * size <= count * size by { MulMono(q + 1, count, size); }
    } else {
      assert count * size <= q * size by { MulMono(count, q, size); }
    }
  }

  ghost predicate ValidList(list: seq<Sector>) {
    forall i :: 0 <= i < |list| ==> list[i].Valid()
  }

  predicate AddressFits(s: Sector, addr: nat, unit: Unit)
    requires 0 < s.size && 0 < s.pageSize
  {
    InSector(s, addr) && U32(addr - s.start) % UnitSize(s, unit) == 0
  }

  predicate LengthFits(s: Sector, addr: nat, length: nat, unit: Unit)
    requires 0 < s.size && 0 < s.pageSize
  {
    U32(s.End()) >= U32(addr + length) && length != 0 && length % UnitSize(s, unit) == 0
  }

  ghost predicate AddressOk(list: seq<Sector>, addr: nat, unit: Unit)
    requires ValidList(list)
  {
    exists i :: 0 <= i < |list| && AddressFits(list[i], addr, unit)
  }

  ghost predicate LengthOk(list: seq<Sector>, addr: nat, length: nat, unit: Unit)
    requires ValidList(list)
  {
    exists i :: 0 <= i < |list| && LengthFits(list[i], addr, length, unit)
  }

  method ValidateAddress(list: seq<Sector>, addr: nat, unit: Unit) returns (ok: bool)
    requires ValidList(list)
    ensures ok <==> AddressOk(list, addr, unit)
  {
    ok := false;
    var i := 0;
    while i < |list|
      invariant 0 <= i <= |list|
      invariant !ok
      invariant forall k :: 0 <= k < i ==> !AddressFits(list[k], addr, unit)
    {
      var sector := list[i];
      if U32(addr - sector.start) / sector.size < sector.count {
        if U32(addr - sector.start) % UnitSize(sector, unit) == 0 {
          ok := true;
          assert AddressFits(list[i], addr, unit);
          break;
        }
      }
      i := i + 1;
    }
  }

  method ValidateLength(list: seq<Sector>, addr: nat, length: nat, unit: Unit) returns (ok: bool)
    requires ValidList(list)
    ensures ok <==> LengthOk(list, addr, length, unit)
  {
    ok := false;
    var i := 0;
    while i < |list|
      invariant 0 <= i <= |list|
      invariant !ok
      invariant forall k :: 0 <= k < i ==> !LengthFits(list[k], addr, length, unit)
    {
      var sector := list[i];
      if U32(sector.start + sector.count * sector.size) >= U32(addr + length) {
        if length != 0 && length % UnitSize(sector, unit) == 0 {
          ok := true;
          assert LengthFits(list[i], addr, length, unit);
          break;
        }
      }
      i := i + 1;
    }
  }

  /** The first sector that holds `addr`; the assert after the loop is never reached. */
  method GetSector(list: seq<Sector>, addr: nat) returns (k: nat)
    requires ValidList(list)
    requires exists i :: 0 <= i < |list| && InSector(list[i], addr)
    ensures k < |list| && InSector(list[k], addr)
    ensures forall i :: 0 <= i < k ==> !InSector(list[i], addr)
  {
    k := 0;
    while k < |list|
      invariant 0 <= k <= |list|
      invariant forall i :: 0 <= i < k ==> !InSector(list[i], addr)
    {
      if U32(addr - list[k].start) / list[k].size < list[k].count {
        return;
      }
      k := k + 1;
    }
    assert false;
  }

  /** Regions that follow each other without a gap from address 0. */
  ghost predicate Contiguous(list: seq<Sector>) {
    && ValidList(list)
    && 0 < |list| && list[0].start == 0
    && forall i :: 0 < i < |list| ==> list[i].start == list[i - 1].End()
  }

  lemma {:induction false} EndsGrow(list: seq<Sector>, i: nat, j: nat)
    requires Contiguous(list) && i <= j < |list|
    ensures list[i].End() <= list[j].End()
  {
    if i < j {
      EndsGrow(list, i, j - 1);
      assert list[j].start == list[j - 1].End();
    }
  }

  /** Some region holds an accepted address. */
  lemma AcceptedAddress(list: seq<Sector>, addr: nat, unit: Unit)
    requires Contiguous(list) && addr < U32_MOD && AddressOk(list, addr, unit)
    ensures addr < list[|list| - 1].End()
    ensures exists i :: 0 <= i < |list| && InSector(list[i], addr)
  {
    var i :| 0 <= i < |list| && AddressFits(list[i], addr, unit);
    assert InSector(list[i], addr);
    InSectorIsInterval(list[i], addr);
    EndsGrow(list, i, |list| - 1);
  }

  lemma LengthEnd(s: Sector, addr: nat, length: nat, unit: Unit)
    requires 0 < s.size && 0 < s.pageSize && LengthFits(s, addr, length, unit)
    ensures 0 < length && U32(addr + length) <= s.End()
  {
    var e := s.End();
    assert U32(e) <= e;
  }

  /** An accepted length ends, modulo 2^32, no later than the last region. */
  lemma AcceptedLength(list: seq<Sector>, addr: nat, length: nat, unit: Unit)
    requires Contiguous(list) && LengthOk(list, addr, length, unit)
    ensures 0 < length && U32(addr + length) <= list[|list| - 1].End()
  {
    var j :| 0 <= j < |list| && LengthFits(list[j], addr, length, unit);
    LengthEnd(list[j], addr, length, unit);
    EndsGrow(list, j, |list| - 1);
  }

  /** An address and length that pass the checks lie inside the device exactly
      when their sum does not wrap around 32 bits. */
  lemma AcceptedInside(list: seq<Sector>, addr: nat, length: nat, unit: Unit)
    requires Contiguous(list) && addr < U32_MOD && length < U32_MOD
    requires list[|list| - 1].End() < U32_MOD
    requires AddressOk(list, addr, unit) && LengthOk(list, addr, length, unit)
    ensures addr + length <= list[|list| - 1].End() <==> addr + length < U32_MOD
  {
    AcceptedLength(list, addr, length, unit);
  }

  /** The shipped sector list: 512 sectors of 4 KiB, pages of one byte. */
  const SHIPPED: seq<Sector> := [Sector(0, 1, 4096, 512)]

  /** On the shipped list, and without wrapping, the checks accept exactly the non-empty
      ranges inside the device; whole sectors only, for an erase. */
  lemma ShippedChecks(addr: nat, length: nat, unit: Unit)
    requires addr + length < U32_MOD
    ensures Contiguous(SHIPPED)
    ensures AddressOk(SHIPPED, addr, unit) && LengthOk(SHIPPED, addr, length, unit) <==>
              && addr < 0x20_0000 && 0 < length && addr + length <= 0x20_0000
              && (unit == Whole ==> addr % 4096 == 0 && length % 4096 == 0)
  {
    var s := SHIPPED[0];
    InSectorIsInterval(s, addr);
    assert AddressOk(SHIPPED, addr, unit) <==> AddressFits(s, addr, unit);
    assert LengthOk(SHIPPED, addr, length, unit) <==> LengthFits(s, addr, length, unit);
  }

  /** The no-wrap condition is needed: a wrapping length passes both checks. */
  lemma WrappingLengthAccepted()
    ensures Contiguous(SHIPPED)
    ensures AddressOk(SHIPPED, 1, Page) && LengthOk(SHIPPED, 1, 0xFFFF_FFFF, Page)
    ensures 1 + 0xFFFF_FFFF > SHIPPED[0].End()
  {
    assert AddressFits(SHIPPED[0], 1, Page);
    assert LengthFits(SHIPPED[0], 1, 0xFFFF_FFFF, Page);
  }

  /** The three address bytes sent to the device, most significant first. */
  function SpiAddress(addr: nat): (r: seq<nat>)
    ensures |r| == 3 && forall i :: 0 <= i < 3 ==> r[i] < 256
  {
    [addr / 0x1_0000 % 256, addr / 0x100 % 256, addr % 256]
  }

  /** The address the device makes of them. */
  function DeviceAddress(bytes: seq<nat>): nat
    requires |bytes| == 3
  {
    bytes[0] * 0x1_0000 + bytes[1] * 0x100 + bytes[2]
  }

  /** Most significant first, they make up the address modulo 2^24, and so the device reads them. */
  lemma SpiAddressRoundTrip(addr: nat)
    ensures var b := SpiAddress(addr); b[0] * 0x1_0000 + b[1] * 0x100 + b[2] == addr % 0x100_0000
    ensures DeviceAddress(SpiAddress(addr)) == addr % 0x100_0000
  {
    var m := addr / 0x100;
    var h := m / 0x100;
    UpperByte(addr, m, h);
    var d := h % 0x100 * 0x1_0000 + m % 0x100 * 0x100 + addr % 0x100;
    assert addr == h / 0x100 * 0x100_0000 + d && d < 0x100_0000;
  }

  lemma UpperByte(addr: nat, m: nat, h: nat)
    requires m == addr / 0x100 && h == m / 0x100
    ensures addr / 0x1_0000 == h
  {
  }
}
