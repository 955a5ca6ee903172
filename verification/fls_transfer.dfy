/** The invariant of one transfer (a read, write or erase job, or one portion of a
    compare job) under every step of ProcessJob and of the environment. */
module FlsTransfer {
  import opened Memory
  import opened Sectors
  import opened SpiFlash
  import opened FlsSpec

  predicate IsRead(kind: JobType) {
    kind == ReadJob || kind == CompareJob
  }

  ghost predicate TaskOk(t: Task) {
    && t.kind != NoJob
    && 0 < t.len && 0 < t.chunk
    && t.at + t.len <= |t.flash0| <= DEVICE_SPACE
    && (t.kind != EraseJob ==> t.ram + t.len <= |t.ram0|)
  }

  /** Erase jobs work on whole sectors, of the size the device erases. */
  ghost predicate Aligned(t: Task, eraseSize: nat) {
    t.kind == EraseJob && 0 < eraseSize ==>
      t.chunk == eraseSize && Multiple(t.at, eraseSize) && Multiple(t.len, eraseSize)
  }

  /** The flash byte at `i` when the first `k` bytes of the task have had their effect. */
  ghost function FlashByte(t: Task, k: nat, i: nat): Byte
    requires TaskOk(t) && k <= t.len && i < |t.flash0|
  {
    if t.at <= i < t.at + k && t.kind == WriteJob then t.flash0[i] & t.ram0[t.ram + (i - t.at)]
    else if t.at <= i < t.at + k && t.kind == EraseJob then 0xFF
    else t.flash0[i]
  }

  /** The memory byte at `i` when the first `k` bytes of the task have had their effect. */
  ghost function RamByte(t: Task, k: nat, i: nat): Byte
    requires TaskOk(t) && k <= t.len && i < |t.ram0|
  {
    if IsRead(t.kind) && t.ram <= i < t.ram + k then t.flash0[t.at + (i - t.ram)] else t.ram0[i]
  }

  /** The device holds, or is about to hold, the effect of the first `k` bytes. */
  ghost predicate FlashHolds(t: Task, k: nat, flash: seq<Byte>)
    requires TaskOk(t) && k <= t.len
  {
    |flash| == |t.flash0| && forall i :: 0 <= i < |flash| ==> flash[i] == FlashByte(t, k, i)
  }

  ghost predicate RamHolds(t: Task, k: nat, ram: seq<Byte>)
    requires TaskOk(t) && k <= t.len
  {
    |ram| == |t.ram0| && forall i :: 0 <= i < |ram| ==> ram[i] == RamByte(t, k, i)
  }

  ghost predicate Held(t: Task, k: nat, b: Bus)
    requires TaskOk(t) && BusOk(b) && k <= t.len
  {
    && FlashHolds(t, k, Settled(b))
    && RamHolds(t, k, b.ram)
    && (IsRead(t.kind) ==> b.op == Idle)
  }

  /** Nothing outside the ranges of the task has changed or is about to change. */
  ghost predicate Confined(t: Task, b: Bus) {
    && SameOutside(b.flash, t.flash0, t.at, t.len)
    && (b.op.Storing? ==> t.at <= b.op.at && b.op.at + |b.op.data| <= t.at + t.len)
    && (IsRead(t.kind) ==> b.flash == t.flash0 && b.op == Idle && SameOutside(b.ram, t.ram0, t.ram, t.len))
    && (!IsRead(t.kind) ==> b.ram == t.ram0)
  }

  /** The bytes whose transfer has been commanded so far. */
  function Issued(t: Task, j: Job): int {
    t.len - j.left
  }

  ghost predicate Progress(t: Task, j: Job, b: Bus) {
    && BusOk(b) && |b.flash| == |t.flash0| && |b.ram| == |t.ram0|
    && j.left <= t.len
    && j.addr == t.at + Issued(t, j)
    && j.target == t.ram + Issued(t, j)
    && (0 < j.left ==> j.chunk == t.chunk)
  }

  /** A whole number of chunks. */
  predicate Multiple(n: nat, chunk: nat) {
    n == 0 || (0 < chunk <= n && Multiple(n - chunk, chunk))
  }

  /** The job moves from chunk border to chunk border. */
  predicate OnGrid(t: Task, j: Job) {
    && 0 < t.chunk && j.left <= t.len
    && (0 < j.left ==> Multiple(Issued(t, j), t.chunk))
    && (j.state == JobReadStatus ==> j.chunk <= Issued(t, j) && Multiple(Issued(t, j) - j.chunk, t.chunk))
    && (j.state == JobReadStatus && t.kind == EraseJob ==> j.chunk == t.chunk)
  }

  /** The buffers hold the chunk that ends at the job's current address. */
  predicate Sending(j: Job, b: Bus)
    requires j.chunk <= j.addr && j.chunk <= j.target
  {
    && |b.addr| == 3 && DeviceAddress(b.addr) == j.addr - j.chunk
    && match j.main
       case EraseJob => b.cmd == FLASH_ERASE_4K
       case WriteJob => b.cmd == FLASH_BYTE_WRITE && b.src == j.target - j.chunk && b.len == j.chunk
       case _ => b.cmd == FLASH_READ_25 && b.dst == ToRam(j.target - j.chunk) && b.len == j.chunk
  }

  /** Before the first chunk. A compare portion starts with `initialOp` clear and the
      result of an older sequence, which may be a failure. */
  ghost predicate AtStart(t: Task, j: Job, b: Bus)
    requires TaskOk(t) && BusOk(b)
  {
    && j.main == t.kind && j.left == t.len
    && NonePending(b) && b.op == Idle && Held(t, 0, b) && Quiet(b.trace)
  }

  /** All chunks done and the device found ready. */
  ghost predicate AtEnd(t: Task, j: Job, b: Bus)
    requires TaskOk(t) && BusOk(b)
  {
    && !j.initialOp && j.left == 0 && j.seq_ == SeqCmd2
    && b.results[SeqCmd2] == SeqOk
    && NonePending(b) && b.op == Idle && Held(t, t.len, b) && JustReady(b.trace)
  }

  /** A chunk has been commanded. */
  ghost predicate InCommand(t: Task, j: Job, b: Bus)
    requires TaskOk(t) && Progress(t, j, b)
  {
    && !j.initialOp && j.main == t.kind && j.seq_ == CommandOf(t.kind)
    && 0 < j.chunk <= Issued(t, j)
    && match b.results[j.seq_]
       case SeqPending =>
         && OnlyPending(b, j.seq_) && b.op == Idle && Held(t, Issued(t, j) - j.chunk, b) && Sending(j, b)
         && !Quiet(b.trace)
       case SeqOk => NonePending(b) && Held(t, Issued(t, j), b) && !Quiet(b.trace)
       case _ => NonePending(b) && Quiet(b.trace)
  }

  /** The status of the device has been asked for. */
  ghost predicate InPoll(t: Task, j: Job, b: Bus)
    requires TaskOk(t) && Progress(t, j, b)
  {
    && !j.initialOp && j.main == t.kind && j.seq_ == SeqCmd2 && 0 < Issued(t, j)
    && match b.results[SeqCmd2]
       case SeqPending =>
         && OnlyPending(b, SeqCmd2) && Held(t, Issued(t, j), b) && b.cmd == FLASH_RDSR && b.dst == ToStatus && b.len == 1
         && !Quiet(b.trace)
       case SeqOk =>
         && NonePending(b) && Held(t, Issued(t, j), b)
         && (!LowBit(b.status) ==> b.op == Idle && JustReady(b.trace)) && (Quiet(b.trace) <==> !LowBit(b.status))
       case _ => NonePending(b) && Quiet(b.trace)
  }

  ghost predicate Phase(t: Task, j: Job, b: Bus)
    requires TaskOk(t) && Progress(t, j, b)
  {
    match j.state
    case JobMain => if j.main == NoJob then AtEnd(t, j, b) else AtStart(t, j, b)
    case JobReadStatus => InCommand(t, j, b)
    case JobReadStatusResult => InPoll(t, j, b)
  }

  ghost predicate TransferInv(t: Task, j: Job, b: Bus) {
    && TaskOk(t) && Aligned(t, b.eraseSize)
    && Progress(t, j, b) && OnGrid(t, j) && Confined(t, b) && Phase(t, j, b)
  }

  // ----- arithmetic -----

  lemma DivModUnique(n: nat, c: nat, q: nat, r: nat)
    requires 0 < c && n == q * c + r && r < c
    ensures n / c == q && n % c == r
  {
    var d := n / c - q;
    assert d * c == n / c * c - q * c;
    assert n == n / c * c + n % c;
  }

  lemma {:induction false} MultipleMod(n: nat, c: nat)
    requires 0 < c && Multiple(n, c)
    ensures n % c == 0
  {
    if 0 < n {
      MultipleMod(n - c, c);
      assert n == ((n - c) / c + 1) * c + 0;
      DivModUnique(n, c, (n - c) / c + 1, 0);
    }
  }

  lemma {:induction false} MultipleSum(a: nat, b: nat, c: nat)
    requires 0 < c && Multiple(a, c) && Multiple(b, c)
    ensures Multiple(a + b, c)
  {
    if 0 < a {
      MultipleSum(a - c, b, c);
    }
  }


  /** The environment moves: a sequence ends or the device finishes. */
  lemma SettleKeeps(t: Task, j: Job, b: Bus)
    requires TransferInv(t, j, b)
    ensures TransferInv(t, j, Settle(b))
  {
  }

  /** The application changes memory, but not the buffer of the transfer. */
  lemma UseKeeps(t: Task, j: Job, b: Bus, ram: seq<Byte>)
    requires TransferInv(t, j, b) && |ram| == |b.ram|
    requires t.kind != EraseJob ==> SameWithin(ram, b.ram, t.ram, t.len)
    ensures var n := if t.kind == EraseJob then 0 else t.len;
            TransferInv(t.(ram0 := Rebased(t.ram0, ram, t.ram, n)), j, b.(ram := ram))
  {
    var t' := t.(ram0 := Rebased(t.ram0, ram, t.ram, if t.kind == EraseJob then 0 else t.len));
    UseConfined(t, t', b, ram);
    match j.state
    case JobMain => UseHeld(t, t', b, ram, if j.main == NoJob then t.len else 0);
    case JobReadStatus => UseInCommand(t, t', j, b, ram);
    case JobReadStatusResult => UseInPoll(t, t', j, b, ram);
  }

  lemma UseInCommand(t: Task, t': Task, j: Job, b: Bus, ram: seq<Byte>)
    requires TaskOk(t) && Progress(t, j, b) && InCommand(t, j, b) && |ram| == |b.ram| == |t.ram0|
    requires t.kind != EraseJob ==> SameWithin(ram, b.ram, t.ram, t.len)
    requires t' == t.(ram0 := Rebased(t.ram0, ram, t.ram, if t.kind == EraseJob then 0 else t.len))
    ensures TaskOk(t') && Progress(t', j, b.(ram := ram)) && InCommand(t', j, b.(ram := ram))
  {
    if b.results[j.seq_] == SeqPending {
      UseHeld(t, t', b, ram, Issued(t, j) - j.chunk);
    } else if b.results[j.seq_] == SeqOk {
      UseHeld(t, t', b, ram, Issued(t, j));
    }
  }

  lemma UseInPoll(t: Task, t': Task, j: Job, b: Bus, ram: seq<Byte>)
    requires TaskOk(t) && Progress(t, j, b) && InPoll(t, j, b) && |ram| == |b.ram| == |t.ram0|
    requires t.kind != EraseJob ==> SameWithin(ram, b.ram, t.ram, t.len)
    requires t' == t.(ram0 := Rebased(t.ram0, ram, t.ram, if t.kind == EraseJob then 0 else t.len))
    ensures TaskOk(t') && Progress(t', j, b.(ram := ram)) && InPoll(t', j, b.(ram := ram))
  {
    if b.results[SeqCmd2] in {SeqPending, SeqOk} {
      UseHeld(t, t', b, ram, Issued(t, j));
    }
  }

  lemma UseConfined(t: Task, t': Task, b: Bus, ram: seq<Byte>)
    requires TaskOk(t) && Confined(t, b) && |ram| == |b.ram| == |t.ram0|
    requires t.kind != EraseJob ==> SameWithin(ram, b.ram, t.ram, t.len)
    requires t' == t.(ram0 := Rebased(t.ram0, ram, t.ram, if t.kind == EraseJob then 0 else t.len))
    ensures TaskOk(t') && Confined(t', b.(ram := ram))
  {
    if !IsRead(t.kind) {
      assert t'.ram0 == ram;
    }
  }

  lemma UseHeld(t: Task, t': Task, b: Bus, ram: seq<Byte>, k: nat)
    requires TaskOk(t) && BusOk(b) && k <= t.len && Held(t, k, b) && |ram| == |b.ram| == |t.ram0|
    requires t.kind != EraseJob ==> SameWithin(ram, b.ram, t.ram, t.len)
    requires t' == t.(ram0 := Rebased(t.ram0, ram, t.ram, if t.kind == EraseJob then 0 else t.len))
    ensures TaskOk(t') && Held(t', k, b.(ram := ram))
  {
    var flash := Settled(b);
    forall i | 0 <= i < |flash| ensures flash[i] == FlashByte(t', k, i) {
      assert flash[i] == FlashByte(t, k, i);
    }
    forall i | 0 <= i < |ram| ensures ram[i] == RamByte(t', k, i) {
      assert b.ram[i] == RamByte(t, k, i);
    }
  }

  lemma PollCompletes(t: Task, j: Job, b: Bus, c: Chance)
    requires TransferInv(t, j, b) && b.results[SeqCmd2] == SeqPending
    requires LowBit(c.status) == (b.op != Idle)
    ensures TransferInv(t, j, Complete(b, SeqCmd2, c))
  {
  }

  lemma ReadStores(t: Task, k: nat, ram: seq<Byte>, data: seq<Byte>)
    requires TaskOk(t) && k + |data| <= t.len && IsRead(t.kind) && RamHolds(t, k, ram)
    requires forall i :: 0 <= i < |data| ==> data[i] == t.flash0[t.at + k + i]
    ensures RamHolds(t, k + |data|, Splice(ram, t.ram + k, data))
  {
    var r := Splice(ram, t.ram + k, data);
    forall i | 0 <= i < |r| ensures r[i] == RamByte(t, k + |data|, i) {
      assert ram[i] == RamByte(t, k, i);
      if t.ram + k <= i < t.ram + k + |data| {
        var d := i - (t.ram + k);
        assert data[d] == t.flash0[t.at + k + d];
      }
    }
  }

  lemma WriteStores(t: Task, k: nat, flash: seq<Byte>, at: nat, data: seq<Byte>)
    requires TaskOk(t) && k + |data| <= t.len && t.kind == WriteJob && FlashHolds(t, k, flash) && at == t.at + k
    requires forall i :: 0 <= i < |data| ==> data[i] == flash[at + i] & t.ram0[t.ram + k + i]
    ensures FlashHolds(t, k + |data|, Splice(flash, at, data))
  {
    var r := Splice(flash, at, data);
    forall i | 0 <= i < |r| ensures r[i] == FlashByte(t, k + |data|, i) {
      assert flash[i] == FlashByte(t, k, i);
      if at <= i < at + |data| {
        var d := i - at;
        assert data[d] == flash[at + d] & t.ram0[t.ram + k + d];
      }
    }
  }

  lemma EraseStores(t: Task, k: nat, n: nat, flash: seq<Byte>)
    requires TaskOk(t) && k + n <= t.len && t.kind == EraseJob && FlashHolds(t, k, flash)
    ensures FlashHolds(t, k + n, Splice(flash, t.at + k, Erased(n)))
  {
  }

  /** A command for the last chunk is pending: the buffers describe it, and the
      effect of everything before it is in place. */
  ghost predicate Commanded(t: Task, j: Job, b: Bus) {
    && TaskOk(t) && BusOk(b) && b.op == Idle
    && j.left <= t.len && j.chunk <= Issued(t, j) && j.main == t.kind
    && j.addr == t.at + Issued(t, j) && j.target == t.ram + Issued(t, j)
    && Sending(j, b)
    && FlashHolds(t, Issued(t, j) - j.chunk, b.flash)
    && RamHolds(t, Issued(t, j) - j.chunk, b.ram)
    && (!IsRead(t.kind) ==> b.ram == t.ram0)
  }

  lemma PendingCommand(t: Task, j: Job, b: Bus, s: Sequence)
    requires TransferInv(t, j, b) && b.results[s] == SeqPending && s != SeqCmd2
    ensures Commanded(t, j, b) && j.state == JobReadStatus && s == j.seq_ == CommandOf(t.kind)
  {
  }

  /** A read ends with the chunk's part of the memory overwritten, by the right bytes if it succeeded. */
  lemma ReadEnds(t: Task, j: Job, b: Bus, res: SeqResult, ram: seq<Byte>, tr: Trace)
    requires TransferInv(t, j, b) && b.results[SeqRead] == SeqPending && res != SeqPending
    requires j.chunk <= Issued(t, j)
    requires SameOutside(ram, b.ram, t.ram + (Issued(t, j) - j.chunk), j.chunk)
    requires res == SeqOk ==> RamHolds(t, Issued(t, j), ram)
    requires tr == if res == SeqOk then b.trace else Then(b.trace, Failed(SeqRead))
    ensures TransferInv(t, j, b.(results := b.results[SeqRead := res], ram := ram, trace := tr))
  {
    PendingCommand(t, j, b, SeqRead);
  }

  /** The flash bytes a read of the next `n` bytes brings. */
  lemma SourceBytes(t: Task, k: nat, n: nat, flash: seq<Byte>)
    requires TaskOk(t) && k + n <= t.len && IsRead(t.kind) && FlashHolds(t, k, flash)
    ensures var data := flash[t.at + k..t.at + k + n];
            |data| == n && forall i :: 0 <= i < n ==> data[i] == t.flash0[t.at + k + i]
  {
    var data := flash[t.at + k..t.at + k + n];
    forall i | 0 <= i < n ensures data[i] == t.flash0[t.at + k + i] {
      assert flash[t.at + k + i] == FlashByte(t, k, t.at + k + i);
    }
  }

  lemma ReadBackIs(b: Bus, at: nat, dst: nat, n: nat, junk: seq<Byte>)
    requires |b.addr| == 3 && DeviceAddress(b.addr) == at && b.dst == ToRam(dst) && b.len == n
    requires b.cmd == FLASH_READ_25 && b.op == Idle && at + n <= |b.flash| && dst + n <= |b.ram|
    ensures ReadBack(b, junk) == Splice(b.ram, dst, b.flash[at..at + n])
    ensures SameOutside(ReadBack(b, junk), b.ram, dst, n)
  {
  }

  lemma ReadData(t: Task, j: Job, b: Bus, junk: seq<Byte>)
    requires Commanded(t, j, b) && IsRead(t.kind)
    ensures RamHolds(t, Issued(t, j), ReadBack(b, junk))
  {
    var k := Issued(t, j) - j.chunk;
    assert t.at + k + j.chunk <= |b.flash| && t.ram + k + j.chunk <= |b.ram|;
    ReadDataAt(t, k, j.chunk, b, junk);
  }

  lemma ReadDataAt(t: Task, k: nat, n: nat, b: Bus, junk: seq<Byte>)
    requires |b.addr| == 3 && DeviceAddress(b.addr) == t.at + k && b.dst == ToRam(t.ram + k) && b.len == n
    requires b.cmd == FLASH_READ_25 && b.op == Idle && t.at + k + n <= |b.flash| && t.ram + k + n <= |b.ram|
    requires TaskOk(t) && k + n <= t.len && IsRead(t.kind) && FlashHolds(t, k, b.flash) && RamHolds(t, k, b.ram)
    ensures RamHolds(t, k + n, ReadBack(b, junk))
  {
    ReadBackIs(b, t.at + k, t.ram + k, n, junk);
    ReadArrives(t, k, n, b.flash, b.ram);
  }

  lemma ReadStaysInside(t: Task, j: Job, b: Bus, junk: seq<Byte>)
    requires Commanded(t, j, b) && IsRead(t.kind)
    ensures SameOutside(ReadBack(b, junk), b.ram, t.ram + (Issued(t, j) - j.chunk), j.chunk)
  {
    var k := Issued(t, j) - j.chunk;
    ReadBackIs(b, t.at + k, t.ram + k, j.chunk, junk);
  }

  lemma ReadArrives(t: Task, k: nat, n: nat, flash: seq<Byte>, ram: seq<Byte>)
    requires TaskOk(t) && k + n <= t.len && IsRead(t.kind) && FlashHolds(t, k, flash) && RamHolds(t, k, ram)
    ensures RamHolds(t, k + n, Splice(ram, t.ram + k, flash[t.at + k..t.at + k + n]))
  {
    SourceBytes(t, k, n, flash);
    ReadStores(t, k, ram, flash[t.at + k..t.at + k + n]);
  }

  lemma ReadCompletes(t: Task, j: Job, b: Bus, c: Chance)
    requires TransferInv(t, j, b) && b.results[SeqRead] == SeqPending
    ensures TransferInv(t, j, Complete(b, SeqRead, c))
  {
    PendingCommand(t, j, b, SeqRead);
    ReadData(t, j, b, c.junk);
    ReadStaysInside(t, j, b, c.junk);
    ReadEnds(t, j, b, SeqOk, ReadBack(b, c.junk), b.trace);
  }

  /** `op` stores the right bytes for the chunk that was commanded last. */
  ghost predicate StoresChunk(t: Task, j: Job, b: Bus, op: Operation)
    requires TaskOk(t)
  {
    && j.left <= t.len && j.chunk <= Issued(t, j)
    && op.Storing?
    && op.at == t.at + (Issued(t, j) - j.chunk) && |op.data| == j.chunk
    && op.at + |op.data| <= |b.flash|
    && FlashHolds(t, Issued(t, j), Splice(b.flash, op.at, op.data))
  }

  lemma StoredByte(b: Bus, i: nat)
    requires |b.addr| == 3 && b.op == Idle && b.cmd == FLASH_BYTE_WRITE && i < b.len
    requires DeviceAddress(b.addr) + b.len <= |b.flash| && b.src + b.len <= |b.ram|
    ensures var op := StoredByWrite(b);
            && op.Storing? && i < |op.data|
            && op.data[i] == b.flash[DeviceAddress(b.addr) + i] & b.ram[b.src + i]
  {
    var at := DeviceAddress(b.addr);
    var x, y := b.flash[at..at + b.len], b.ram[b.src..b.src + b.len];
    assert x[i] == b.flash[at + i] && y[i] == b.ram[b.src + i];
  }

  /** `op` stores, from `at` on, the flash content cleared by `n` bytes of memory from `src` on. */
  ghost predicate StoresProduct(op: Operation, flash: seq<Byte>, at: nat, ram: seq<Byte>, src: nat, n: nat) {
    && at + n <= |flash| && src + n <= |ram|
    && op.Storing? && op.at == at && |op.data| == n
    && forall i :: 0 <= i < n ==> op.data[i] == flash[at + i] & ram[src + i]
  }

  lemma WriteOperation(b: Bus, at: nat, src: nat, n: nat, ram: seq<Byte>)
    requires |b.addr| == 3 && DeviceAddress(b.addr) == at && b.src == src && b.len == n && b.ram == ram
    requires b.op == Idle && b.cmd == FLASH_BYTE_WRITE && at + n <= |b.flash| && src + n <= |ram|
    ensures StoresProduct(StoredByWrite(b), b.flash, at, ram, src, n)
  {
    forall i | 0 <= i < n ensures StoredByWrite(b).data[i] == b.flash[at + i] & ram[src + i] {
      StoredByte(b, i);
    }
  }

  lemma OperationStores(t: Task, k: nat, n: nat, flash: seq<Byte>, op: Operation)
    requires TaskOk(t) && k + n <= t.len && t.kind == WriteJob && FlashHolds(t, k, flash)
    requires StoresProduct(op, flash, t.at + k, t.ram0, t.ram + k, n)
    ensures FlashHolds(t, k + n, Splice(flash, op.at, op.data))
  {
    WriteStores(t, k, flash, op.at, op.data);
  }

  lemma PendingWrite(t: Task, j: Job, b: Bus)
    requires Commanded(t, j, b) && t.kind == WriteJob
    ensures StoresChunk(t, j, b, StoredByWrite(b))
  {
    var k := Issued(t, j) - j.chunk;
    WriteOperation(b, t.at + k, t.ram + k, j.chunk, t.ram0);
    OperationStores(t, k, j.chunk, b.flash, StoredByWrite(b));
  }

  lemma PendingErase(t: Task, j: Job, b: Bus)
    requires TransferInv(t, j, b) && b.results[SeqErase] == SeqPending
    ensures StoresChunk(t, j, b, StoredByErase(b))
  {
    PendingCommand(t, j, b, SeqErase);
    var k := Issued(t, j) - j.chunk;
    assert j.chunk == t.chunk == b.eraseSize && Multiple(k, t.chunk) && Multiple(t.at, t.chunk);
    MultipleSum(t.at, k, t.chunk);
    MultipleMod(t.at + k, t.chunk);
    ErasesBlock(b, t.at + k, j.chunk);
    EraseStores(t, k, j.chunk, b.flash);
  }

  lemma ErasesBlock(b: Bus, at: nat, n: nat)
    requires |b.addr| == 3 && DeviceAddress(b.addr) == at && 0 < b.eraseSize == n && at % n == 0
    requires b.op == Idle && b.cmd == FLASH_ERASE_4K && at + n <= |b.flash|
    ensures StoredByErase(b) == Storing(at, Erased(n))
  {
  }

  /** A write or erase ends with the device storing something inside the chunk, the right thing if it succeeded. */
  lemma StoreKeeps(t: Task, j: Job, b: Bus, s: Sequence, res: SeqResult, op: Operation, tr: Trace)
    requires TransferInv(t, j, b) && b.results[s] == SeqPending && s in {SeqWrite, SeqErase} && res != SeqPending
    requires op.Storing? ==> j.chunk <= Issued(t, j) && op.at == t.at + (Issued(t, j) - j.chunk) && |op.data| == j.chunk
    requires res == SeqOk ==> StoresChunk(t, j, b, op)
    requires tr == if res == SeqOk then b.trace else Then(b.trace, Failed(s))
    ensures TransferInv(t, j, b.(results := b.results[s := res], op := op, trace := tr))
  {
    PendingCommand(t, j, b, s);
  }

  lemma CompletionKeeps(t: Task, j: Job, b: Bus, s: Sequence, c: Chance)
    requires TransferInv(t, j, b) && b.results[s] == SeqPending
    requires s == SeqCmd2 ==> LowBit(c.status) == (b.op != Idle)
    ensures TransferInv(t, j, Complete(b, s, c))
  {
    match s
    case SeqCmd2 => PollCompletes(t, j, b, c);
    case SeqRead => ReadCompletes(t, j, b, c);
    case SeqWrite =>
      PendingCommand(t, j, b, s);
      PendingWrite(t, j, b);
      StoreKeeps(t, j, b, s, SeqOk, StoredByWrite(b), b.trace);
    case SeqErase =>
      PendingErase(t, j, b);
      StoreKeeps(t, j, b, s, SeqOk, StoredByErase(b), b.trace);
    case SeqWrsr =>
  }

  lemma PollFails(t: Task, j: Job, b: Bus, res: SeqResult, c: Chance)
    requires TransferInv(t, j, b) && b.results[SeqCmd2] == SeqPending && res in {SeqFailed, SeqCancelled}
    ensures TransferInv(t, j, Fail(b, SeqCmd2, res, c))
  {
  }

  lemma ReadFails(t: Task, j: Job, b: Bus, res: SeqResult, c: Chance)
    requires TransferInv(t, j, b) && b.results[SeqRead] == SeqPending && res in {SeqFailed, SeqCancelled}
    ensures TransferInv(t, j, Fail(b, SeqRead, res, c))
  {
    PendingCommand(t, j, b, SeqRead);
    ReadEnds(t, j, b, res, Filled(b, c.junk), Then(b.trace, Failed(SeqRead)));
  }

  lemma FailureKeeps(t: Task, j: Job, b: Bus, s: Sequence, res: SeqResult, c: Chance)
    requires TransferInv(t, j, b) && b.results[s] == SeqPending && res in {SeqFailed, SeqCancelled}
    ensures TransferInv(t, j, Fail(b, s, res, c))
  {
    match s
    case SeqCmd2 => PollFails(t, j, b, res, c);
    case SeqRead => ReadFails(t, j, b, res, c);
    case SeqWrite =>
      PendingCommand(t, j, b, s);
      PendingWrite(t, j, b);
      StoreKeeps(t, j, b, s, res, Spoiled(b.op, StoredByWrite(b), c.junk), Then(b.trace, Failed(s)));
    case SeqErase =>
      PendingErase(t, j, b);
      StoreKeeps(t, j, b, s, res, Spoiled(b.op, StoredByErase(b), c.junk), Then(b.trace, Failed(s)));
    case SeqWrsr =>
  }

  // ----- the driver -----

  /** In every state of a transfer the next call of ProcessJob meets the driver's asserts. */
  lemma AssertsAreSafe(t: Task, j: Job, b: Bus)
    requires TransferInv(t, j, b)
    ensures AssertsHold(j, b)
  {
  }

  lemma TransmitStarts(b: Bus, s: Sequence)
    requires |b.addr| == 3 && NonePending(b)
    ensures Transmit(b, s) == b.(results := b.results[s := SeqPending],
                                 trace := Then(b.trace, Sent(s, DeviceAddress(b.addr), SizeOf(b, s), b.op != Idle)))
    ensures OnlyPending(Transmit(b, s), s)
  {
  }

  /** What is known when the status is about to be asked for. */
  lemma BeforePoll(t: Task, j: Job, b: Bus)
    requires TransferInv(t, j, b) && b.results[j.seq_] == SeqOk
    requires j.state == JobReadStatus || (j.state == JobReadStatusResult && LowBit(b.status))
    ensures !j.initialOp && j.main == t.kind && 0 < Issued(t, j)
    ensures NonePending(b) && Held(t, Issued(t, j), b) && !Quiet(b.trace)
  {
  }

  lemma PollSends(j: Job, b: Bus)
    requires |b.addr| == 3 && NonePending(b)
    ensures var o := Poll(j, b);
            && o.job == j.(state := JobReadStatusResult, seq_ := SeqCmd2)
            && OnlyPending(o.bus, SeqCmd2) && o.bus.cmd == FLASH_RDSR && o.bus.dst == ToStatus
            && o.bus.addr == b.addr && o.bus.flash == b.flash && o.bus.ram == b.ram && o.bus.op == b.op
            && o.bus.eraseSize == b.eraseSize && (Quiet(o.bus.trace) <==> Quiet(b.trace))
  {
    TransmitStarts(b.(src := 0, dst := ToStatus, len := 1, cmd := FLASH_RDSR), SeqCmd2);
  }

  lemma PollKeeps(t: Task, j: Job, b: Bus)
    requires TransferInv(t, j, b) && b.results[j.seq_] == SeqOk
    requires j.state == JobReadStatus || (j.state == JobReadStatusResult && LowBit(b.status))
    ensures TransferInv(t, Poll(j.(initialOp := false), b).job, Poll(j.(initialOp := false), b).bus)
  {
    BeforePoll(t, j, b);
    PollSends(j.(initialOp := false), b);
    var o := Poll(j.(initialOp := false), b);
    assert InPoll(t, o.job, o.bus);
  }

  lemma {:induction false} MultipleDiff(a: nat, b: nat, c: nat)
    requires 0 < c && b <= a && Multiple(a, c) && Multiple(b, c)
    ensures Multiple(a - b, c)
  {
    if 0 < b {
      MultipleDiff(a - c, b - c, c);
    }
  }

  /** The next chunk ends at a chunk border, or at the end of the job. */
  lemma NextChunkOnGrid(t: Task, j: Job)
    requires TaskOk(t) && Aligned(t, t.chunk) && OnGrid(t, j) && 0 < j.left && j.chunk == t.chunk
    ensures var n := Min(j.left, j.chunk);
            OnGrid(t, j.(chunk := n, left := j.left - n, state := JobReadStatus))
  {
    if t.kind == EraseJob {
      MultipleDiff(t.len, Issued(t, j), t.chunk);
    }
  }

  /** The next chunk may be sent, or the transfer is over. */
  ghost predicate MayAdvance(t: Task, j: Job, b: Bus)
    requires TaskOk(t) && BusOk(b)
  {
    && j.left <= t.len && (j.main == t.kind || j.left == 0)
    && NonePending(b) && b.op == Idle && Held(t, Issued(t, j), b) && Quiet(b.trace)
  }

  /** The armed buffers describe the chunk, and nothing else has changed. */
  lemma ArmedDescribes(j: Job, b: Bus, n: nat)
    requires BusOk(b) && j.addr < DEVICE_SPACE && j.main != NoJob
    ensures var a := Armed(j, b, n);
            && DeviceAddress(a.addr) == j.addr
            && (j.main == EraseJob ==> a.cmd == FLASH_ERASE_4K)
            && (j.main == WriteJob ==> a.cmd == FLASH_BYTE_WRITE && a.src == j.target && a.len == n)
            && (j.main in {ReadJob, CompareJob} ==> a.cmd == FLASH_READ_25 && a.dst == ToRam(j.target) && a.len == n)
            && a.results == b.results && a.trace == b.trace
            && a.flash == b.flash && a.ram == b.ram && a.op == b.op && a.eraseSize == b.eraseSize
  {
    SpiAddressRoundTrip(j.addr);
  }

  /** Arming the buffers and starting the sequence leaves a pending command for the chunk. */
  lemma AdvanceArms(j: Job, b: Bus)
    requires BusOk(b) && NonePending(b) && 0 < j.left && j.addr + j.left <= DEVICE_SPACE && j.main != NoJob
    ensures var n := Min(j.left, j.chunk);
            var o := Advance(j, b);
            && o.job == j.(chunk := n, seq_ := CommandOf(j.main), addr := j.addr + n, target := j.target + n,
                           left := j.left - n, state := JobReadStatus)
            && OnlyPending(o.bus, o.job.seq_)
            && Sending(o.job, o.bus)
            && o.bus.flash == b.flash && o.bus.ram == b.ram && o.bus.op == b.op && o.bus.eraseSize == b.eraseSize
            && var size := if j.main == EraseJob then b.eraseSize else n;
               o.bus.trace == Then(b.trace, Sent(CommandOf(j.main), j.addr, size, b.op != Idle))
  {
    var n := Min(j.left, j.chunk);
    ArmedDescribes(j, b, n);
    TransmitStarts(Armed(j, b, n), CommandOf(j.main));
    assert U32(j.addr + n) == j.addr + n;
  }

  lemma AdvanceProgress(t: Task, j: Job, b: Bus)
    requires TaskOk(t) && Progress(t, j, b) && MayAdvance(t, j, b) && 0 < j.left
    ensures var o := Advance(j, b);
            && Progress(t, o.job, o.bus) && 0 < o.job.chunk <= Issued(t, o.job)
            && Held(t, Issued(t, o.job) - o.job.chunk, o.bus)
  {
    AdvanceArms(j, b);
    var o := Advance(j, b);
    assert Issued(t, o.job) - o.job.chunk == Issued(t, j);
  }

  lemma AdvanceCommands(t: Task, j: Job, b: Bus)
    requires TaskOk(t) && Progress(t, j, b) && MayAdvance(t, j, b) && 0 < j.left && !j.initialOp
    ensures var o := Advance(j, b);
            Progress(t, o.job, o.bus) && InCommand(t, o.job, o.bus)
  {
    AdvanceArms(j, b);
    AdvanceProgress(t, j, b);
  }

  lemma AdvanceSends(t: Task, j: Job, b: Bus)
    requires TransferInv(t, j, b) && MayAdvance(t, j, b) && 0 < j.left
    ensures var o := Advance(j.(initialOp := false), b);
            TransferInv(t, o.job, o.bus)
  {
    NextChunkOnGrid(t, j);
    AdvanceArms(j.(initialOp := false), b);
    AdvanceCommands(t, j.(initialOp := false), b);
  }

  lemma AdvanceEnds(t: Task, j: Job, b: Bus)
    requires TransferInv(t, j, b) && MayAdvance(t, j, b) && JustReady(b.trace)
    requires j.left == 0 && j.seq_ == SeqCmd2 && b.results[SeqCmd2] == SeqOk
    ensures var o := Advance(j.(initialOp := false), b);
            TransferInv(t, o.job, o.bus)
  {
  }

  /** One call of ProcessJob keeps the transfer invariant. It reports success
      exactly when the transfer is over, and failure exactly when the awaited sequence failed. */
  lemma ProcessKeeps(t: Task, j: Job, b: Bus)
    requires TransferInv(t, j, b)
    ensures var o := Process(j, b);
            && TransferInv(t, o.job, o.bus)
            && (o.rv == SeqOk <==> Effective(j, b) && j.left == 0 && j.state != JobReadStatus
                                   && !(j.state == JobReadStatusResult && LowBit(b.status)))
            && (o.rv == SeqOk ==> o.job.state == JobMain && o.job.main == NoJob && o.bus == b)
            && (o.rv == SeqPending ==> o.job.main == t.kind)
            && (o.rv != SeqOk && o.rv != SeqPending ==>
                  o == Outcome(j, b, b.results[j.seq_]) && !j.initialOp && NonePending(b))
  {
    if Effective(j, b) {
      if j.state == JobReadStatus || (j.state == JobReadStatusResult && LowBit(b.status)) {
        PollKeeps(t, j, b);
      } else if 0 < j.left {
        AdvanceSends(t, j, b);
      } else {
        AdvanceEnds(t, j, b);
      }
    }
  }
}
