/** Which requests the service functions accept, and what they record of them, told by the
    configuration and the arguments. */
module FlsAccept {
  import opened Memory
  import opened Sectors
  import opened SpiFlash
  import opened FlsSpec

  /** The region holds the address. */
  ghost predicate Holds(s: Sector, addr: nat) {
    s.start <= addr < s.start + s.count * s.size
  }

  /** The address lies in a region, at a border of `unit` bytes from its start on. */
  ghost predicate AtBorder(s: Sector, addr: nat, unit: nat) {
    Holds(s, addr) && 0 < unit && (addr - s.start) % unit == 0
  }

  /** A number of whole units that ends, modulo 2^32, no later than the region. */
  ghost predicate WholeUnits(s: Sector, addr: nat, length: nat, unit: nat) {
    && 0 < length && 0 < unit && length % unit == 0
    && (addr + length) % 0x1_0000_0000 <= (s.start + s.count * s.size) % 0x1_0000_0000
  }

  /** The range is one of whole pages. */
  ghost predicate PageRange(list: seq<Sector>, addr: nat, length: nat) {
    && (exists i :: 0 <= i < |list| && AtBorder(list[i], addr, list[i].pageSize))
    && (exists i :: 0 <= i < |list| && WholeUnits(list[i], addr, length, list[i].pageSize))
  }

  /** The range is one of whole sectors. */
  ghost predicate SectorRange(list: seq<Sector>, addr: nat, length: nat) {
    && (exists i :: 0 <= i < |list| && AtBorder(list[i], addr, list[i].size))
    && (exists i :: 0 <= i < |list| && WholeUnits(list[i], addr, length, list[i].size))
  }

  lemma FitsAtBorder(s: Sector, addr: nat)
    requires s.Valid() && addr < U32_MOD
    ensures AddressFits(s, addr, Page) <==> AtBorder(s, addr, s.pageSize)
    ensures AddressFits(s, addr, Whole) <==> AtBorder(s, addr, s.size)
  {
    InSectorIsInterval(s, addr);
    if Holds(s, addr) {
      assert U32(addr - s.start) == addr - s.start;
    }
  }

  lemma FitsWholeUnits(s: Sector, addr: nat, length: nat)
    requires s.Valid()
    ensures LengthFits(s, addr, length, Page) <==> WholeUnits(s, addr, length, s.pageSize)
    ensures LengthFits(s, addr, length, Whole) <==> WholeUnits(s, addr, length, s.size)
  {
  }

  lemma AddressChecks(list: seq<Sector>, addr: nat)
    requires ValidList(list) && addr < U32_MOD
    ensures AddressOk(list, addr, Page) <==> exists i :: 0 <= i < |list| && AtBorder(list[i], addr, list[i].pageSize)
    ensures AddressOk(list, addr, Whole) <==> exists i :: 0 <= i < |list| && AtBorder(list[i], addr, list[i].size)
  {
    forall i | 0 <= i < |list|
      ensures AddressFits(list[i], addr, Page) <==> AtBorder(list[i], addr, list[i].pageSize)
      ensures AddressFits(list[i], addr, Whole) <==> AtBorder(list[i], addr, list[i].size)
    {
      FitsAtBorder(list[i], addr);
    }
  }

  lemma LengthChecks(list: seq<Sector>, addr: nat, length: nat)
    requires ValidList(list)
    ensures LengthOk(list, addr, length, Page)
            <==> exists i :: 0 <= i < |list| && WholeUnits(list[i], addr, length, list[i].pageSize)
    ensures LengthOk(list, addr, length, Whole)
            <==> exists i :: 0 <= i < |list| && WholeUnits(list[i], addr, length, list[i].size)
  {
    forall i | 0 <= i < |list|
      ensures LengthFits(list[i], addr, length, Page) <==> WholeUnits(list[i], addr, length, list[i].pageSize)
      ensures LengthFits(list[i], addr, length, Whole) <==> WholeUnits(list[i], addr, length, list[i].size)
    {
      FitsWholeUnits(list[i], addr, length);
    }
  }

  /** The driver is idle, and the request can be met: for a read or write the range is one of whole
      pages and the buffer is not NULL; for a compare the flash address is not 0; for an erase the
      range is one of whole sectors. */
  ghost predicate Acceptable(list: seq<Sector>, status: Status, rq: Request) {
    && status == Ready
    && match rq.kind
       case ReadJob => PageRange(list, rq.addr, rq.length) && rq.ptr != 0
       case WriteJob => PageRange(list, rq.addr, rq.length) && rq.ptr != 0
       case CompareJob => PageRange(list, rq.addr, rq.length) && rq.addr != 0
       case EraseJob => SectorRange(list, rq.addr, rq.length)
       case NoJob => false
  }

  /** Exactly these requests are accepted. */
  lemma AcceptsExactly(cfg: Config, w: World, rq: Request)
    requires ValidList(cfg.sectors) && rq.addr < U32_MOD && rq.kind != NoJob
    ensures Accepts(cfg, w, rq) <==> Acceptable(cfg.sectors, w.status, rq)
  {
    AddressChecks(cfg.sectors, rq.addr);
    LengthChecks(cfg.sectors, rq.addr, rq.length);
  }

  // ----- the size of the steps -----

  lemma {:induction false} FirstSectorIs(list: seq<Sector>, addr: nat, k: nat)
    requires ValidList(list) && k < |list| && InSector(list[k], addr)
    requires forall i :: 0 <= i < k ==> !InSector(list[i], addr)
    ensures FirstSector(list, addr) == Some(list[k])
  {
    if 0 < k {
      assert !InSector(list[0], addr);
      forall i | 0 <= i < k - 1 ensures !InSector(list[1..][i], addr) {
        assert list[1..][i] == list[i + 1];
      }
      FirstSectorIs(list[1..], addr, k - 1);
    }
  }

  /** The largest number of bytes one command of a job moves: of the four configured sizes the one
      for the mode and for reading or writing; for an erase the sector size of the address. */
  ghost predicate StepSize(cfg: Config, fast: bool, rq: Request, n: nat) {
    match rq.kind
    case ReadJob => n == if fast then cfg.readFast else cfg.readNormal
    case CompareJob => n == if fast then cfg.readFast else cfg.readNormal
    case WriteJob => n == if fast then cfg.writeFast else cfg.writeNormal
    case EraseJob => exists i :: 0 <= i < |cfg.sectors| && Holds(cfg.sectors[i], rq.addr) && n == cfg.sectors[i].size
    case NoJob => false
  }

  /** Regions that follow each other hold an address only once. */
  lemma HeldOnce(list: seq<Sector>, addr: nat, i: nat, j: nat)
    requires Contiguous(list) && i < j < |list|
    ensures !(Holds(list[i], addr) && Holds(list[j], addr))
  {
    EndsGrow(list, i, j - 1);
    assert list[j].start == list[j - 1].End();
  }

  lemma FirstHolds(list: seq<Sector>, addr: nat, k: nat)
    requires Contiguous(list) && addr < U32_MOD && k < |list| && Holds(list[k], addr)
    ensures FirstSector(list, addr) == Some(list[k])
  {
    InSectorIsInterval(list[k], addr);
    forall i | 0 <= i < k ensures !InSector(list[i], addr) {
      InSectorIsInterval(list[i], addr);
      HeldOnce(list, addr, i, k);
    }
    FirstSectorIs(list, addr, k);
  }

  /** What an accepted job records as its step size is exactly that. */
  lemma ChunkIsStepSize(cfg: Config, w: World, rq: Request, n: nat)
    requires Contiguous(cfg.sectors) && rq.addr < U32_MOD && rq.kind != NoJob && Accepts(cfg, w, rq)
    ensures StepSize(cfg, w.fast, rq, n) <==> n == ChunkOf(cfg, w.fast, rq)
  {
    if rq.kind == EraseJob {
      AcceptsExactly(cfg, w, rq);
      var k :| 0 <= k < |cfg.sectors| && AtBorder(cfg.sectors[k], rq.addr, cfg.sectors[k].size);
      FirstHolds(cfg.sectors, rq.addr, k);
      if StepSize(cfg, w.fast, rq, n) {
        var i :| 0 <= i < |cfg.sectors| && Holds(cfg.sectors[i], rq.addr) && n == cfg.sectors[i].size;
        FirstHolds(cfg.sectors, rq.addr, i);
      }
    }
  }
}
