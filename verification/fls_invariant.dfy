/** The invariant of the whole driver, kept by every step of every run. */
module FlsInvariant {
  import opened Memory
  import opened Sectors
  import opened SpiFlash
  import opened FlsSpec
  import opened FlsTransfer
  import opened FlsHistory

  /** A configuration that fits the device: contiguous regions inside it, non-zero
      transfer sizes, and a compare buffer that lies in memory. */
  ghost predicate ConfigOk(cfg: Config, b: Bus) {
    && BusOk(b)
    && Contiguous(cfg.sectors) && cfg.sectors[|cfg.sectors| - 1].End() <= |b.flash|
    && 0 < cfg.readFast && 0 < cfg.readNormal && 0 < cfg.writeFast && 0 < cfg.writeNormal
    && cfg.compareBuffer + CMP_BUFF_SIZE <= |b.ram|
  }

  /** The `n` bytes of flash from `at` on equal the `n` bytes of memory from `ram` on. */
  ghost predicate Equal(flash: seq<Byte>, at: nat, mem: seq<Byte>, ram: nat, n: nat) {
    && at + n <= |flash| && ram + n <= |mem|
    && forall k :: at <= k < at + n ==> flash[k] == mem[ram + (k - at)]
  }

  /** The calls a compare of `left` bytes takes when every status read finds the device ready. */
  function CompareCost(left: nat, chunk: nat): nat {
    if left == 0 then 0
    else 2 * Chunks(Min(left, CMP_BUFF_SIZE), chunk) + 1 + CompareCost(left - Min(left, CMP_BUFF_SIZE), chunk)
  }

  /** The sequence recorded in the job is one that is never left pending. */
  predicate Parked(j: Job) {
    !j.initialOp && j.seq_ in {SeqWrsr, SeqCmd2}
  }

  /** A read, write or erase job has had exactly the effect of one atomic operation. */
  ghost predicate Transferred(t: Task, b: Bus, calls: nat) {
    && TaskOk(t)
    && b.op == Idle && Quiet(b.trace)
    && FlashHolds(t, t.len, b.flash)
    && RamHolds(t, t.len, b.ram)
    && Commands(b.trace) == Commands(t.trace0) + TilesFrom(t.at, t.len, t.chunk)
    && calls + BusyPolls(t.trace0) == t.calls0 + 2 * Chunks(t.len, t.chunk) + 1 + BusyPolls(b.trace)
  }

  /** A compare job has found the flash range equal to the bytes it compared it with. */
  ghost predicate Compared(t: Task, b: Bus, calls: nat, retries: nat) {
    && TaskOk(t)
    && b.op == Idle && Quiet(b.trace)
    && b.flash == t.flash0
    && Equal(t.flash0, t.at, t.ram0, t.ram, t.len)
    && calls - retries + BusyPolls(t.trace0) == t.calls0 - t.retries0 + CompareCost(t.len, t.chunk) + BusyPolls(b.trace)
  }

  ghost predicate Achieved(t: Task, w: World) {
    if t.kind == CompareJob then Compared(t, w.bus, w.calls, w.retries)
    else Transferred(t, w.bus, w.calls) && w.job.seq_ == SeqCmd2 && w.bus.results[SeqCmd2] == SeqOk
  }

  /** Between jobs. */
  ghost predicate Resting(w: World) {
    && w.status == Ready && w.jobType == NoJob
    && NonePending(w.bus) && w.bus.op == Idle && Quiet(w.bus.trace)
    && Parked(w.job) && w.firstTime
    && (w.result == ResultOk ==> JustReady(w.bus.trace))
    && (w.task.Some? ==> w.result != ResultPending)
    && (w.task.Some? && w.result == ResultOk ==> Achieved(w.task.value, w))
    && (w.task.Some? && w.result == ResultFailed ==>
          w.task.value.kind == CompareJob && w.bus.flash == w.task.value.flash0)
  }

  /** In a read, write or erase job. */
  ghost predicate Running(w: World) {
    && w.status == Busy && w.result == ResultPending && w.firstTime
    && w.task.Some? && w.jobType == w.task.value.kind && w.jobType != NoJob && w.jobType != CompareJob
    && TransferInv(w.task.value, w.job, w.bus) && w.job.main != NoJob
    && HistoryInv(w.task.value, w.job, w.bus, w.calls)
  }

  /** After a failed read, write or erase job: the driver stays busy. */
  ghost predicate Locked(w: World) {
    && w.status == Busy && w.result == ResultFailed
    && w.jobType != NoJob && w.jobType != CompareJob
    && w.task.Some? && w.task.value.kind == w.jobType && TaskOk(w.task.value)
    && NonePending(w.bus) && Confined(w.task.value, w.bus)
  }

  /** From the current portion of a compare job on, `ram0` holds the caller's buffer as it is in `ram`. */
  ghost predicate AsNow(t: Task, j: Job, ram: seq<Byte>) {
    |ram| == |t.ram0| && forall i :: j.target <= i < t.ram + t.len && i < |ram| ==> ram[i] == t.ram0[i]
  }

  /** The read job of the current portion of a compare job. */
  ghost predicate PortionSet(cfg: Config, t: Task, w: World) {
    var j, p := w.job, w.part;
    && w.readSize == p.len == Min(j.left, CMP_BUFF_SIZE)
    && p.kind == CompareJob && p.at == j.addr && p.ram == cfg.compareBuffer && p.chunk == t.chunk
    && p.flash0 == t.flash0 && AsNow(t, j, p.ram0)
    && TransferInv(p, w.readJob, w.bus)
    && p.calls0 - p.retries0 + CompareCost(j.left, t.chunk) + BusyPolls(t.trace0)
       == t.calls0 - t.retries0 + CompareCost(t.len, t.chunk) + BusyPolls(p.trace0)
  }

  /** The calls for the current portion that brought it ahead. */
  function PaidCalls(w: World): int {
    w.calls - (w.retries - w.part.retries0)
  }

  /** A portion is being read into the compare buffer, or it was read and found different,
      and waits for the next comparison. */
  ghost predicate InPortion(cfg: Config, t: Task, w: World) {
    && PortionSet(cfg, t, w)
    && HistoryInv(w.part, w.readJob, w.bus, PaidCalls(w) + if w.readJob.main == NoJob then 1 else 0)
    && (w.readJob.main != NoJob ==> w.retries == w.part.retries0)
  }

  /** The caller's side of a compare job. */
  ghost predicate CompareTaskOk(cfg: Config, t: Task) {
    t.kind == CompareJob && TaskOk(t) && ApartFromBuffer(cfg, t)
  }

  /** The position of a compare job: everything before it was found equal. */
  ghost predicate CompareCourse(cfg: Config, w: World) {
    && w.status == Busy && w.result == ResultPending && w.jobType == CompareJob
    && w.task.Some? && CompareTaskOk(cfg, w.task.value)
    && var t, j, b := w.task.value, w.job, w.bus;
    && Parked(j) && j.state == JobMain && j.main == CompareJob && j.chunk == t.chunk
    && 0 < j.left <= t.len
    && j.addr == t.at + Issued(t, j) && j.target == t.ram + Issued(t, j)
    && Equal(t.flash0, t.at, t.ram0, t.ram, Issued(t, j))
    && b.flash == t.flash0 && b.op == Idle
    && AsNow(t, j, b.ram)
  }

  /** Between portions: calls so far and calls to come balance. */
  ghost predicate BetweenPortions(cfg: Config, w: World) {
    && CompareCourse(cfg, w)
    && NonePending(w.bus) && Quiet(w.bus.trace)
    && var t := w.task.value;
    && w.calls - w.retries + CompareCost(w.job.left, t.chunk) + BusyPolls(t.trace0)
       == t.calls0 - t.retries0 + CompareCost(t.len, t.chunk) + BusyPolls(w.bus.trace)
  }

  /** In a compare job. */
  ghost predicate Comparing(cfg: Config, w: World) {
    if w.firstTime
    then BetweenPortions(cfg, w) && w.job.left == w.task.value.len
    else CompareCourse(cfg, w) && InPortion(cfg, w.task.value, w)
  }

  ghost predicate DriverInv(cfg: Config, w: World) {
    && ConfigOk(cfg, w.bus)
    && AtMostOnePending(w.bus) && Disciplined(w.bus.trace)
    && w.bus.results[SeqWrsr] == SeqOk
    && (Resting(w) || Running(w) || Locked(w) || Comparing(cfg, w))
  }

  // ----- the environment -----

  lemma TransferPending(t: Task, j: Job, b: Bus)
    requires TransferInv(t, j, b)
    ensures AtMostOnePending(b) && (b.results[SeqWrsr] == SeqPending ==> false)
  {
  }

  /** While a portion is read the flash is untouched, and the memory outside the compare buffer too. */
  lemma PortionConfined(cfg: Config, t: Task, p: Task, j: Job, b: Bus)
    requires TransferInv(p, j, b) && p.kind == CompareJob && p.ram == cfg.compareBuffer && p.len <= CMP_BUFF_SIZE
    requires p.flash0 == t.flash0
    ensures b.flash == t.flash0 && b.op == Idle && BusOk(b)
    ensures forall c: Job :: AsNow(t, c, p.ram0) && ApartFromBuffer(cfg, t) && t.ram <= c.target ==> AsNow(t, c, b.ram)
  {
  }

  /** The caller's buffer is apart from the compare buffer. */
  predicate ApartFromBuffer(cfg: Config, t: Task) {
    t.ram + t.len <= cfg.compareBuffer || cfg.compareBuffer + CMP_BUFF_SIZE <= t.ram
  }

  /** Replacing the bus by one in which the job's transfer is still on course. */
  lemma RunningGoesOn(cfg: Config, w: World, b: Bus)
    requires DriverInv(cfg, w) && Running(w)
    requires TransferInv(w.task.value, w.job, b) && HistoryInv(w.task.value, w.job, b, w.calls)
    requires b.results[SeqWrsr] == SeqOk && |b.flash| == |w.bus.flash| && |b.ram| == |w.bus.ram|
    ensures DriverInv(cfg, w.(bus := b))
  {
    TransferPending(w.task.value, w.job, b);
    assert Running(w.(bus := b));
  }

  lemma PortionGoesOn(cfg: Config, w: World, b: Bus)
    requires DriverInv(cfg, w) && Comparing(cfg, w) && !w.firstTime && w.readJob.main != NoJob
    requires TransferInv(w.part, w.readJob, b) && HistoryInv(w.part, w.readJob, b, PaidCalls(w))
    requires b.results[SeqWrsr] == SeqOk
    ensures DriverInv(cfg, w.(bus := b))
  {
    TransferPending(w.part, w.readJob, b);
    PortionConfined(cfg, w.task.value, w.part, w.readJob, b);
    assert Comparing(cfg, w.(bus := b));
  }

  /** A sequence can only be pending while a transfer is under way. */
  lemma PendingMeansTransfer(cfg: Config, w: World, s: Sequence)
    requires DriverInv(cfg, w) && w.bus.results[s] == SeqPending
    ensures Running(w) || (Comparing(cfg, w) && !w.firstTime && w.readJob.main != NoJob)
    ensures s != SeqWrsr
  {
  }

  lemma CompleteInJob(cfg: Config, w: World, s: Sequence, c: Chance)
    requires DriverInv(cfg, w) && Running(w) && w.bus.results[s] == SeqPending && s != SeqWrsr
    requires LowBit(c.status) == (w.bus.op != Idle)
    ensures DriverInv(cfg, w.(bus := Complete(w.bus, s, c)))
  {
    var b := Complete(w.bus, s, c);
    CompletionKeeps(w.task.value, w.job, w.bus, s, c);
    CompletionHistory(w.task.value, w.job, w.bus, w.calls, s, c);
    assert b.results == w.bus.results[s := SeqOk];
    RunningGoesOn(cfg, w, b);
  }

  lemma CompleteInPortion(cfg: Config, w: World, s: Sequence, c: Chance)
    requires DriverInv(cfg, w) && Comparing(cfg, w) && !w.firstTime && w.readJob.main != NoJob
    requires w.bus.results[s] == SeqPending && s != SeqWrsr && LowBit(c.status) == (w.bus.op != Idle)
    ensures DriverInv(cfg, w.(bus := Complete(w.bus, s, c)))
  {
    CompletionKeeps(w.part, w.readJob, w.bus, s, c);
    CompletionHistory(w.part, w.readJob, w.bus, PaidCalls(w), s, c);
    PortionGoesOn(cfg, w, Complete(w.bus, s, c));
  }

  lemma FailInJob(cfg: Config, w: World, s: Sequence, res: SeqResult, c: Chance)
    requires DriverInv(cfg, w) && Running(w) && w.bus.results[s] == SeqPending && s != SeqWrsr
    requires res in {SeqFailed, SeqCancelled}
    ensures DriverInv(cfg, w.(bus := Fail(w.bus, s, res, c)))
  {
    FailureKeeps(w.task.value, w.job, w.bus, s, res, c);
    FailureHistory(w.task.value, w.job, w.bus, w.calls, s, res, c);
    RunningGoesOn(cfg, w, Fail(w.bus, s, res, c));
  }

  lemma FailInPortion(cfg: Config, w: World, s: Sequence, res: SeqResult, c: Chance)
    requires DriverInv(cfg, w) && Comparing(cfg, w) && !w.firstTime && w.readJob.main != NoJob
    requires w.bus.results[s] == SeqPending && s != SeqWrsr && res in {SeqFailed, SeqCancelled}
    ensures DriverInv(cfg, w.(bus := Fail(w.bus, s, res, c)))
  {
    FailureKeeps(w.part, w.readJob, w.bus, s, res, c);
    FailureHistory(w.part, w.readJob, w.bus, PaidCalls(w), s, res, c);
    PortionGoesOn(cfg, w, Fail(w.bus, s, res, c));
  }

  lemma SettleKeepsDriver(cfg: Config, w: World)
    requires DriverInv(cfg, w)
    ensures DriverInv(cfg, Do(cfg, w, DeviceReady))
  {
    if Running(w) {
      SettleKeeps(w.task.value, w.job, w.bus);
      SettleHistory(w.task.value, w.job, w.bus, w.calls);
    }
  }

  // ----- the service functions -----

  lemma {:induction false} ModMultiple(n: nat, c: nat)
    requires 0 < c && n % c == 0
    ensures Multiple(n, c)
  {
    if 0 < n {
      var q := n / c;
      assert n == q * c + 0;
      assert n - c == (q - 1) * c + 0;
      DivModUnique(n - c, c, q - 1, 0);
      ModMultiple(n - c, c);
    }
  }

  lemma {:induction false} StartsAligned(list: seq<Sector>, size: nat, i: nat)
    requires Contiguous(list) && UniformSectors(list, size) && i < |list| && 0 < size
    ensures Multiple(list[i].start, size)
  {
    if 0 < i {
      StartsAligned(list, size, i - 1);
      var n := list[i - 1].count * size;
      assert n == list[i - 1].count * size + 0;
      DivModUnique(n, size, list[i - 1].count, 0);
      ModMultiple(n, size);
      MultipleSum(list[i - 1].start, n, size);
      assert list[i].start == list[i - 1].End();
    }
  }

  lemma FitsWhole(s: Sector, addr: nat)
    requires s.Valid() && addr < U32_MOD && AddressFits(s, addr, Whole)
    ensures s.start <= addr && (addr - s.start) % s.size == 0
  {
    InSectorIsInterval(s, addr);
    assert U32(addr - s.start) == addr - s.start;
  }

  /** An accepted erase starts at a sector border. */
  lemma EraseAddressAligned(list: seq<Sector>, size: nat, addr: nat)
    requires Contiguous(list) && UniformSectors(list, size) && 0 < size && addr < U32_MOD
    requires AddressOk(list, addr, Whole)
    ensures Multiple(addr, size)
  {
    var i :| 0 <= i < |list| && AddressFits(list[i], addr, Whole);
    FitsWhole(list[i], addr);
    StartsAligned(list, size, i);
    ModMultiple(addr - list[i].start, size);
    MultipleSum(list[i].start, addr - list[i].start, size);
  }

  /** An accepted erase covers whole sectors. */
  lemma EraseLengthAligned(list: seq<Sector>, size: nat, addr: nat, length: nat)
    requires Contiguous(list) && UniformSectors(list, size) && 0 < size
    requires LengthOk(list, addr, length, Whole)
    ensures Multiple(length, size)
  {
    var k :| 0 <= k < |list| && LengthFits(list[k], addr, length, Whole);
    assert length % list[k].size == 0;
    ModMultiple(length, size);
  }

  lemma {:induction false} FirstSectorFound(list: seq<Sector>, size: nat, addr: nat)
    requires ValidList(list) && UniformSectors(list, size)
    requires exists i :: 0 <= i < |list| && InSector(list[i], addr)
    ensures FirstSector(list, addr).Some? && FirstSector(list, addr).value.size == size
  {
    if !InSector(list[0], addr) {
      var i :| 0 <= i < |list| && InSector(list[i], addr);
      assert list[1..][i - 1] == list[i];
      FirstSectorFound(list[1..], size, addr);
    }
  }

  /** An accepted proper request lies inside the device and, for an erase, covers whole sectors. */
  lemma AcceptedTask(cfg: Config, w: World, rq: Request)
    requires ConfigOk(cfg, w.bus) && Accepts(cfg, w, rq) && ProperRequest(cfg, w, rq)
    ensures var t := Call(cfg, w, rq).task;
            t.Some? && TaskOk(t.value) && Aligned(t.value, w.bus.eraseSize)
  {
    AcceptedInside(cfg.sectors, rq.addr, rq.length, UnitOf(rq.kind));
    AcceptedLength(cfg.sectors, rq.addr, rq.length, UnitOf(rq.kind));
    if rq.kind == EraseJob {
      EraseAddressAligned(cfg.sectors, w.bus.eraseSize, rq.addr);
      EraseLengthAligned(cfg.sectors, w.bus.eraseSize, rq.addr, rq.length);
      AcceptedAddress(cfg.sectors, rq.addr, Whole);
      FirstSectorFound(cfg.sectors, w.bus.eraseSize, rq.addr);
    }
  }

  lemma TransferStarts(t: Task, j: Job, b: Bus)
    requires TaskOk(t) && Aligned(t, b.eraseSize) && BusOk(b)
    requires b.flash == t.flash0 && b.ram == t.ram0
    requires NonePending(b) && b.op == Idle && Quiet(b.trace)
    requires j.addr == t.at && j.target == t.ram && j.left == t.len && j.chunk == t.chunk
    requires j.state == JobMain && j.main == t.kind
    ensures TransferInv(t, j, b)
  {
  }

  lemma CallKeepsDriver(cfg: Config, w: World, rq: Request)
    requires DriverInv(cfg, w) && Enabled(cfg, w, DoCall(rq))
    ensures DriverInv(cfg, Call(cfg, w, rq))
    ensures Accepts(cfg, w, rq) ==>
      (if rq.kind == CompareJob then Comparing(cfg, Call(cfg, w, rq)) else Running(Call(cfg, w, rq)))
  {
    if Accepts(cfg, w, rq) {
      assert Resting(w);
      AcceptedTask(cfg, w, rq);
      var w' := Call(cfg, w, rq);
      if rq.kind != CompareJob {
        TransferStarts(w'.task.value, w'.job, w'.bus);
        StartHistory(w'.task.value, w'.job, w'.bus, w'.calls);
        assert Running(w');
      } else {
        assert Comparing(cfg, w');
      }
    }
  }

  // ----- MainFunction -----

  lemma TransmitFrame(b: Bus, s: Sequence)
    requires |b.addr| == 3 && s != SeqWrsr
    ensures var b' := Transmit(b, s);
            && b'.flash == b.flash && b'.ram == b.ram && b'.eraseSize == b.eraseSize && b'.op == b.op
            && b'.results[SeqWrsr] == b.results[SeqWrsr]
  {
  }

  lemma ArmedFrame(j: Job, b: Bus, n: nat)
    ensures var b' := Armed(j, b, n);
            && b'.flash == b.flash && b'.ram == b.ram && b'.eraseSize == b.eraseSize && b'.op == b.op
            && b'.results == b.results
  {
  }

  lemma AdvanceFrame(j: Job, b: Bus)
    ensures var b' := Advance(j, b).bus;
            && b'.flash == b.flash && b'.ram == b.ram && b'.eraseSize == b.eraseSize && b'.op == b.op
            && b'.results[SeqWrsr] == b.results[SeqWrsr]
  {
    var b1 := Armed(j, b, Min(j.left, j.chunk));
    ArmedFrame(j, b, Min(j.left, j.chunk));
    TransmitFrame(b1, CommandOf(j.main));
  }

  lemma ProcessFrame(j: Job, b: Bus)
    requires AssertsHold(j, b)
    ensures var o := Process(j, b);
            && o.bus.flash == b.flash && o.bus.ram == b.ram && o.bus.eraseSize == b.eraseSize && o.bus.op == b.op
            && o.bus.results[SeqWrsr] == b.results[SeqWrsr]
  {
    AdvanceFrame(j.(initialOp := false), b);
    TransmitFrame(b.(src := 0, dst := ToStatus, len := 1, cmd := FLASH_RDSR), SeqCmd2);
  }

  /** A read, write or erase job goes on, ends with its whole effect achieved, or locks the driver. */
  lemma TransferMainKeeps(cfg: Config, w: World)
    requires DriverInv(cfg, w) && Running(w)
    ensures DriverInv(cfg, TransferMain(w))
  {
    var t := w.task.value;
    var o := Process(w.job, w.bus);
    AssertsAreSafe(t, w.job, w.bus);
    ProcessFrame(w.job, w.bus);
    ProcessKeeps(t, w.job, w.bus);
    ProcessHistory(t, w.job, w.bus, w.calls);
    TransferPending(t, o.job, o.bus);
    var w' := TransferMain(w);
    match o.rv
    case SeqPending => assert Running(w');
    case SeqOk => assert Resting(w');
    case _ => assert Locked(w');
  }

  lemma PortionStarts(cfg: Config, w: World)
    requires ConfigOk(cfg, w.bus) && BetweenPortions(cfg, w) && Disciplined(w.bus.trace)
    ensures var w' := StartPortion(cfg, w);
            !w'.firstTime && w'.readJob.main != NoJob && Comparing(cfg, w')
  {
    var w' := StartPortion(cfg, w);
    TransferStarts(w'.part, w'.readJob, w'.bus);
    StartHistory(w'.part, w'.readJob, w'.bus, w'.calls);
  }

  /** Comparing two pieces of memory, one a copy of the flash and one the caller's. */
  lemma BytesVerdict(ram: seq<Byte>, x: nat, y: nat, n: nat, flash: seq<Byte>, at: nat)
    requires x + n <= |ram| && y + n <= |ram| && at + n <= |flash|
    requires forall i :: x <= i < x + n ==> ram[i] == flash[at + (i - x)]
    ensures Bytes(ram, x, n) == Bytes(ram, y, n) <==> Equal(flash, at, ram, y, n)
  {
    var a, b := Bytes(ram, x, n), Bytes(ram, y, n);
    assert |a| == n && |b| == n;
    forall i | 0 <= i < n ensures a[i] == flash[at + i] && b[i] == ram[y + i] {
      assert a[i] == ram[x + i] && b[i] == ram[y + i];
    }
    if Equal(flash, at, ram, y, n) {
      forall i | 0 <= i < n ensures a[i] == b[i] {
        assert flash[at + i] == ram[y + (at + i - at)];
      }
    }
    if a == b {
      forall k | at <= k < at + n ensures flash[k] == ram[y + (k - at)] {
        assert a[k - at] == b[k - at];
      }
    }
  }

  /** A read that is complete has copied its flash range. */
  lemma ReadCopies(p: Task, ram: seq<Byte>)
    requires TaskOk(p) && p.kind == CompareJob && RamHolds(p, p.len, ram)
    ensures forall i :: p.ram <= i < p.ram + p.len ==> ram[i] == p.flash0[p.at + (i - p.ram)]
  {
    forall i | p.ram <= i < p.ram + p.len ensures ram[i] == p.flash0[p.at + (i - p.ram)] {
      assert ram[i] == RamByte(p, p.len, i);
    }
  }

  /** The memory comparison at the end of a portion decides about the flash and the caller's buffer. */
  lemma PortionVerdict(cfg: Config, w: World)
    requires ConfigOk(cfg, w.bus) && CompareCourse(cfg, w) && PortionSet(cfg, w.task.value, w)
    requires w.readJob.state == JobMain && w.readJob.main == NoJob
    ensures var t := w.task.value;
            Bytes(w.bus.ram, cfg.compareBuffer, w.readSize) == Bytes(w.bus.ram, w.job.target, w.readSize)
            <==> Equal(t.flash0, w.job.addr, w.bus.ram, w.job.target, w.readSize)
  {
    ReadCopies(w.part, w.bus.ram);
    BytesVerdict(w.bus.ram, cfg.compareBuffer, w.job.target, w.readSize, w.task.value.flash0, w.job.addr);
  }

  /** What equals the caller's buffer now equals what `ram0` holds of it. */
  lemma EqualAsNow(cfg: Config, w: World)
    requires CompareCourse(cfg, w) && w.readSize <= w.job.left
    requires Equal(w.task.value.flash0, w.job.addr, w.bus.ram, w.job.target, w.readSize)
    ensures Equal(w.task.value.flash0, w.job.addr, w.task.value.ram0, w.job.target, w.readSize)
  {
  }

  /** Joining two adjacent equal ranges. */
  lemma EqualJoins(flash: seq<Byte>, at: nat, mem: seq<Byte>, ram: nat, n: nat, m: nat)
    requires Equal(flash, at, mem, ram, n) && Equal(flash, at + n, mem, ram + n, m)
    ensures Equal(flash, at, mem, ram, n + m)
  {
  }

  /** The calls of a finished portion are paid. */
  lemma PortionPaid(cfg: Config, t: Task, w: World)
    requires PortionSet(cfg, t, w) && 0 < w.job.left
    requires w.readJob.state == JobMain && w.readJob.main == NoJob
    requires HistoryInv(w.part, w.readJob, w.bus, PaidCalls(w))
    ensures NonePending(w.bus) && JustReady(w.bus.trace)
    ensures w.readSize <= w.job.left
    ensures w.calls - w.retries + CompareCost(w.job.left - w.readSize, t.chunk) + BusyPolls(t.trace0)
            == t.calls0 - t.retries0 + CompareCost(t.len, t.chunk) + BusyPolls(w.bus.trace)
  {
  }

  /** An equal portion moves the compare job on, or completes it. */
  lemma PortionMoves(cfg: Config, w: World, n: nat)
    requires BusOk(w.bus) && CompareCourse(cfg, w) && 0 < n <= w.job.left
    requires var t := w.task.value;
             && Equal(t.flash0, w.job.addr, t.ram0, w.job.target, n)
             && NonePending(w.bus) && Quiet(w.bus.trace)
             && w.calls - w.retries + CompareCost(w.job.left - n, t.chunk) + BusyPolls(t.trace0)
                == t.calls0 - t.retries0 + CompareCost(t.len, t.chunk) + BusyPolls(w.bus.trace)
    ensures var w' := w.(job := Moved(w.job, n));
            && w'.job.left == w.job.left - n
            && (if w'.job.left == 0 then Compared(w.task.value, w.bus, w.calls, w.retries) else BetweenPortions(cfg, w'))
  {
    var t, k := w.task.value, Issued(w.task.value, w.job);
    EqualJoins(t.flash0, t.at, t.ram0, t.ram, k, n);
    var j := Moved(w.job, n);
    assert j == w.job.(target := w.job.target + n, addr := w.job.addr + n, left := w.job.left - n);
    assert k + n == Issued(t, j);
  }

  /** A portion has been read, and is to be compared. */
  ghost predicate PortionDone(cfg: Config, w: World) {
    && ConfigOk(cfg, w.bus) && AtMostOnePending(w.bus) && Disciplined(w.bus.trace) && w.bus.results[SeqWrsr] == SeqOk
    && CompareCourse(cfg, w) && PortionSet(cfg, w.task.value, w) && !w.firstTime
    && w.readJob.state == JobMain && w.readJob.main == NoJob
    && HistoryInv(w.part, w.readJob, w.bus, PaidCalls(w))
  }

  /** The comparison stays, ends or moves on. */
  lemma PortionReadKeeps(cfg: Config, w: World)
    requires PortionDone(cfg, w)
    ensures DriverInv(cfg, PortionRead(cfg, w))
  {
    PortionVerdict(cfg, w);
    if Equal(w.task.value.flash0, w.job.addr, w.bus.ram, w.job.target, w.readSize) {
      PortionEqual(cfg, w);
    } else {
      PortionDiffers(cfg, w);
      assert PortionRead(cfg, w) == w.(retries := w.retries + 1);
    }
  }

  lemma PortionDiffers(cfg: Config, w: World)
    requires PortionDone(cfg, w)
    ensures DriverInv(cfg, w.(retries := w.retries + 1))
  {
    assert Comparing(cfg, w.(retries := w.retries + 1));
  }

  lemma PortionEqual(cfg: Config, w: World)
    requires PortionDone(cfg, w)
    requires Equal(w.task.value.flash0, w.job.addr, w.bus.ram, w.job.target, w.readSize)
    ensures var w' := w.(job := Moved(w.job, w.readSize));
            if w'.job.left == 0
            then DriverInv(cfg, w'.(result := ResultOk, jobType := NoJob, status := Ready, firstTime := true))
            else DriverInv(cfg, StartPortion(cfg, w'))
  {
    EqualAsNow(cfg, w);
    PortionPaid(cfg, w.task.value, w);
    PortionMoves(cfg, w, w.readSize);
    var w' := w.(job := Moved(w.job, w.readSize));
    if w'.job.left != 0 {
      PortionStarts(cfg, w');
    } else {
      assert Resting(w'.(result := ResultOk, jobType := NoJob, status := Ready, firstTime := true));
    }
  }

  /** One call of ProcessJob for the read job of a portion. */
  lemma PortionProcessed(cfg: Config, w: World)
    requires DriverInv(cfg, w) && Comparing(cfg, w) && !w.firstTime
    ensures var o := Process(w.readJob, w.bus);
            var w' := Processed(w, o);
            && ConfigOk(cfg, w'.bus) && AtMostOnePending(w'.bus) && Disciplined(w'.bus.trace)
            && w'.bus.results[SeqWrsr] == SeqOk
            && CompareCourse(cfg, w') && PortionSet(cfg, w.task.value, w')
            && HistoryInv(w.part, w'.readJob, w'.bus, PaidCalls(w'))
            && (o.rv == SeqOk ==> o.job.state == JobMain && o.job.main == NoJob)
            && (o.rv == SeqPending ==> o.job.main != NoJob && w.readJob.main != NoJob)
            && (o.rv != SeqOk && o.rv != SeqPending ==> NonePending(w'.bus) && Quiet(w'.bus.trace))
  {
    var t, p := w.task.value, w.part;
    var o := Process(w.readJob, w.bus);
    AssertsAreSafe(p, w.readJob, w.bus);
    ProcessFrame(w.readJob, w.bus);
    ProcessKeeps(p, w.readJob, w.bus);
    TransferPending(p, o.job, o.bus);
    PortionConfined(cfg, t, p, o.job, o.bus);
    if w.readJob.main != NoJob {
      ProcessHistory(p, w.readJob, w.bus, PaidCalls(w));
    }
  }

  lemma PortionMainKeeps(cfg: Config, w: World)
    requires DriverInv(cfg, w) && Comparing(cfg, w) && !w.firstTime
    ensures DriverInv(cfg, PortionMain(cfg, w))
  {
    PortionProcessed(cfg, w);
    var o := Process(w.readJob, w.bus);
    var w' := Processed(w, o);
    if o.rv == SeqOk {
      PortionReadKeeps(cfg, w');
      assert PortionMain(cfg, w) == PortionRead(cfg, w');
    } else if o.rv == SeqPending {
      assert Comparing(cfg, w');
      assert PortionMain(cfg, w) == w';
    } else {
      PortionFails(cfg, w');
    }
  }

  lemma PortionFails(cfg: Config, w: World)
    requires ConfigOk(cfg, w.bus) && AtMostOnePending(w.bus) && Disciplined(w.bus.trace) && w.bus.results[SeqWrsr] == SeqOk
    requires CompareCourse(cfg, w) && NonePending(w.bus) && Quiet(w.bus.trace)
    ensures DriverInv(cfg, w.(result := ResultFailed, jobType := NoJob, status := Ready, firstTime := true))
  {
    assert Resting(w.(result := ResultFailed, jobType := NoJob, status := Ready, firstTime := true));
  }

  lemma CompareMainKeeps(cfg: Config, w: World)
    requires DriverInv(cfg, w) && Comparing(cfg, w)
    ensures DriverInv(cfg, CompareMain(cfg, w))
  {
    if w.firstTime {
      PortionStarts(cfg, w);
      PortionMainKeeps(cfg, StartPortion(cfg, w));
    } else {
      PortionMainKeeps(cfg, w);
    }
  }

  // ----- every step -----

  /** Every enabled step keeps the driver invariant. */
  lemma StepKeeps(cfg: Config, w: World, a: Action)
    requires DriverInv(cfg, w) && Enabled(cfg, w, a)
    ensures DriverInv(cfg, Do(cfg, w, a))
  {
    match a
    case DoMain =>
      if Running(w) {
        TransferMainKeeps(cfg, w);
      } else if Comparing(cfg, w) {
        CompareMainKeeps(cfg, w);
      }
    case DoCall(rq) => CallKeepsDriver(cfg, w, rq);
    case DoSetMode(_) =>
    case SpiComplete(s, c) => CompleteKeepsDriver(cfg, w, s, c);
    case SpiFail(s, res, c) => FailKeepsDriver(cfg, w, s, res, c);
    case DeviceReady => SettleKeepsDriver(cfg, w);
    case UseMemory(ram) => UseKeepsDriver(cfg, w, ram);
  }

  /** The application may change memory at any time, but not the buffer of a pending read or
      write, and not the driver's compare buffer during a compare. */
  lemma UseKeepsDriver(cfg: Config, w: World, ram: seq<Byte>)
    requires DriverInv(cfg, w) && Enabled(cfg, w, UseMemory(ram))
    ensures DriverInv(cfg, Used(w, ram))
  {
    UseFrame(cfg, w, ram);
    if Running(w) {
      UseInJob(cfg, w, ram);
    } else if Locked(w) {
      UseLocked(w, ram);
    } else if Comparing(cfg, w) {
      UseInCompare(cfg, w, ram);
    }
  }

  lemma UseFrame(cfg: Config, w: World, ram: seq<Byte>)
    requires ConfigOk(cfg, w.bus) && |ram| == |w.bus.ram|
    ensures var b := Used(w, ram).bus;
            b == w.bus.(ram := ram) && ConfigOk(cfg, b) && (AtMostOnePending(w.bus) ==> AtMostOnePending(b))
  {
  }

  lemma UseInJob(cfg: Config, w: World, ram: seq<Byte>)
    requires Running(w) && Enabled(cfg, w, UseMemory(ram))
    ensures Running(Used(w, ram))
  {
    UseKeeps(w.task.value, w.job, w.bus, ram);
  }

  lemma UseLocked(w: World, ram: seq<Byte>)
    requires Locked(w) && |ram| == |w.bus.ram|
    ensures Locked(Used(w, ram))
  {
    assert Used(w, ram).task.value.ram0 == ram;
  }

  lemma UseInCompare(cfg: Config, w: World, ram: seq<Byte>)
    requires Comparing(cfg, w) && Enabled(cfg, w, UseMemory(ram))
    ensures Comparing(cfg, Used(w, ram))
  {
    UseInCourse(cfg, w, ram);
    if !w.firstTime {
      UseInPortion(cfg, w, ram);
    }
  }

  lemma UseInCourse(cfg: Config, w: World, ram: seq<Byte>)
    requires CompareCourse(cfg, w) && |ram| == |w.bus.ram|
    ensures CompareCourse(cfg, Used(w, ram))
  {
    FoundEqualStays(w.task.value, Issued(w.task.value, w.job), ram);
  }

  /** What was found equal stays so in `ram0`, and the rest of the buffer there is as it is now. */
  lemma FoundEqualStays(t: Task, k: nat, ram: seq<Byte>)
    requires |ram| == |t.ram0| && Equal(t.flash0, t.at, t.ram0, t.ram, k)
    ensures var r := Rebased(t.ram0, ram, t.ram, k);
            && Equal(t.flash0, t.at, r, t.ram, k)
            && forall i :: t.ram + k <= i < |ram| ==> r[i] == ram[i]
  {
    var r := Rebased(t.ram0, ram, t.ram, k);
    forall i | t.at <= i < t.at + k ensures t.flash0[i] == r[t.ram + (i - t.at)] {
      assert t.flash0[i] == t.ram0[t.ram + (i - t.at)];
    }
  }

  lemma UseInPortion(cfg: Config, w: World, ram: seq<Byte>)
    requires CompareCourse(cfg, w) && InPortion(cfg, w.task.value, w)
    requires SameWithin(ram, w.bus.ram, cfg.compareBuffer, CMP_BUFF_SIZE)
    ensures InPortion(cfg, Used(w, ram).task.value, Used(w, ram))
  {
    var w' := Used(w, ram);
    UseKeeps(w.part, w.readJob, w.bus, ram);
    assert TransferInv(w'.part, w'.readJob, w'.bus);
    UsePortionMemory(cfg, w, ram);
  }

  lemma UsePortionMemory(cfg: Config, w: World, ram: seq<Byte>)
    requires CompareCourse(cfg, w) && AsNow(w.task.value, w.job, w.part.ram0)
    requires w.part.ram == cfg.compareBuffer && w.part.len <= CMP_BUFF_SIZE && |ram| == |w.bus.ram|
    ensures AsNow(Used(w, ram).task.value, w.job, Used(w, ram).part.ram0)
  {
  }

  lemma CompleteKeepsDriver(cfg: Config, w: World, s: Sequence, c: Chance)
    requires DriverInv(cfg, w) && Enabled(cfg, w, SpiComplete(s, c))
    ensures DriverInv(cfg, Do(cfg, w, SpiComplete(s, c)))
  {
    PendingMeansTransfer(cfg, w, s);
    if Running(w) {
      CompleteInJob(cfg, w, s, c);
    } else {
      CompleteInPortion(cfg, w, s, c);
    }
  }

  lemma FailKeepsDriver(cfg: Config, w: World, s: Sequence, res: SeqResult, c: Chance)
    requires DriverInv(cfg, w) && Enabled(cfg, w, SpiFail(s, res, c))
    ensures DriverInv(cfg, Do(cfg, w, SpiFail(s, res, c)))
  {
    PendingMeansTransfer(cfg, w, s);
    if Running(w) {
      FailInJob(cfg, w, s, res, c);
    } else {
      FailInPortion(cfg, w, s, res, c);
    }
  }
}
