/** The flash driver as functions on its state: one call of ProcessJob, one call of
    MainFunction, the service functions, and the steps of a run. */
module FlsSpec {
  import opened Memory
  import opened Sectors
  import opened SpiFlash

  datatype JobType = NoJob | CompareJob | EraseJob | ReadJob | WriteJob

  datatype JobState = JobMain | JobReadStatus | JobReadStatusResult

  datatype Job = Job(
    target: nat, addr: nat, left: nat, state: JobState, main: JobType,
    seq_: Sequence, chunk: nat, initialOp: bool)

  /** What one call of ProcessJob does. */
  datatype Outcome = Outcome(job: Job, bus: Bus, rv: SeqResult)

  /** Send a status read. */
  ghost function Poll(j: Job, b: Bus): Outcome
    requires |b.addr| == 3
  {
    Outcome(j.(state := JobReadStatusResult, seq_ := SeqCmd2),
            Transmit(b.(src := 0, dst := ToStatus, len := 1, cmd := FLASH_RDSR), SeqCmd2),
            SeqPending)
  }

  function CommandOf(kind: JobType): Sequence {
    match kind
    case EraseJob => SeqErase
    case WriteJob => SeqWrite
    case _ => SeqRead
  }

  /** The buffers set up for the next chunk of `n` bytes. */
  function Armed(j: Job, b: Bus, n: nat): (r: Bus)
    ensures |r.addr| == 3
  {
    var b' := b.(addr := SpiAddress(j.addr));
    match j.main
    case EraseJob => b'.(cmd := FLASH_ERASE_4K)
    case WriteJob => b'.(cmd := FLASH_BYTE_WRITE, src := j.target, dst := Nowhere, len := n)
    case _ => b'.(cmd := FLASH_READ_25, src := 0, dst := ToRam(j.target), len := n)
  }

  /** Send the next chunk, or finish. */
  ghost function Advance(j: Job, b: Bus): Outcome {
    if j.left == 0 then
      Outcome(j.(state := JobMain, main := NoJob), b, SeqOk)
    else
      var n := Min(j.left, j.chunk);
      Outcome(j.(chunk := n, seq_ := CommandOf(j.main), addr := U32(j.addr + n), target := j.target + n,
                 left := j.left - n, state := JobReadStatus),
              Transmit(Armed(j, b, n), CommandOf(j.main)),
              SeqPending)
  }

  /** The call does something: it is the first of its job, or the sequence it waits for has completed. */
  predicate Effective(j: Job, b: Bus) {
    j.initialOp || b.results[j.seq_] == SeqOk
  }

  ghost function Process(j: Job, b: Bus): Outcome
    requires |b.addr| == 3
  {
    if !Effective(j, b) then Outcome(j, b, b.results[j.seq_])
    else
      var j' := j.(initialOp := false);
      if j.state == JobReadStatus || (j.state == JobReadStatusResult && LowBit(b.status)) then Poll(j', b)
      else Advance(j', b)
  }

  /** The conditions under which no assert of ProcessJob fails. */
  ghost predicate AssertsHold(j: Job, b: Bus)
  {
    && |b.addr| == 3
    && (j.initialOp ==> b.results[j.seq_] != SeqPending && j.state == JobMain)
    && (Effective(j, b) ==>
          && NonePending(b)
          && (j.state != JobReadStatus && j.left != 0 ==> j.main != NoJob))
  }

  // ----- the driver -----

  datatype Config = Config(
    sectors: seq<Sector>,
    readFast: nat, readNormal: nat, writeFast: nat, writeNormal: nat,
    compareBuffer: nat)   // where the static compare buffer lies

  /** Capacity of the static compare buffer. */
  const CMP_BUFF_SIZE: nat := 64

  datatype Status = Uninit | Ready | Busy

  datatype JobResult = ResultOk | ResultFailed | ResultPending

  /** A transfer as its caller sees it (for specification only): the flash, trace and counters
      at its start, and in `ram0` the memory without the driver's own stores. What a compare
      has found equal so far keeps in `ram0` the bytes it was compared with. */
  datatype Task = Task(
    kind: JobType, at: nat, ram: nat, len: nat, chunk: nat,
    flash0: seq<Byte>, ram0: seq<Byte>, trace0: Trace, calls0: nat, retries0: nat)

  /** The driver's variables and its environment. `task`, `part`, `calls` and `retries` record
      history: the job last accepted, the portion a compare is reading, the number of
      effective MainFunction calls, and how many comparisons of a portion found it different. */
  datatype World = World(
    status: Status, result: JobResult, jobType: JobType, fast: bool,
    job: Job, readJob: Job, firstTime: bool, readSize: nat,
    bus: Bus,
    task: Option<Task>, part: Task, calls: nat, retries: nat)

  /** The bytes of `m` from `at` on, as memcmp sees them. */
  function Bytes(m: seq<Byte>, at: nat, n: nat): seq<Byte> {
    if at + n <= |m| then m[at..at + n] else []
  }

  /** The read job for the next portion of a compare job. */
  function Portion(cfg: Config, j: Job): Job {
    j.(left := Min(j.left, CMP_BUFF_SIZE), target := cfg.compareBuffer)
  }

  function PortionTask(cfg: Config, j: Job, b: Bus, calls: nat, retries: nat): Task {
    Task(CompareJob, j.addr, cfg.compareBuffer, Min(j.left, CMP_BUFF_SIZE), j.chunk,
         b.flash, b.ram, b.trace, calls, retries)
  }

  function StartPortion(cfg: Config, w: World): World {
    w.(readJob := Portion(cfg, w.job), readSize := Min(w.job.left, CMP_BUFF_SIZE), firstTime := false,
       part := PortionTask(cfg, w.job, w.bus, w.calls, w.retries))
  }

  ghost function CompareMain(cfg: Config, w: World): World
    requires |w.bus.addr| == 3
  {
    PortionMain(cfg, if w.firstTime then StartPortion(cfg, w) else w)
  }

  ghost function PortionMain(cfg: Config, w: World): World
    requires |w.bus.addr| == 3
  {
    var o := Process(w.readJob, w.bus);
    var w' := Processed(w, o);
    match o.rv
    case SeqPending => w'
    case SeqOk => PortionRead(cfg, w')
    case _ => w'.(result := ResultFailed, jobType := NoJob, status := Ready, firstTime := true)
  }

  /** The read job has been processed once. */
  function Processed(w: World, o: Outcome): World {
    w.(readJob := o.job, bus := o.bus, calls := w.calls + if Effective(w.readJob, w.bus) then 1 else 0)
  }

  /** A portion has been read: compare it, then stay, finish, or start the next one. */
  function PortionRead(cfg: Config, w: World): World {
    if Bytes(w.bus.ram, cfg.compareBuffer, w.readSize) != Bytes(w.bus.ram, w.job.target, w.readSize)
    then w.(retries := w.retries + 1)
    else
      var w' := w.(job := Moved(w.job, w.readSize));
      if w'.job.left == 0
      then w'.(result := ResultOk, jobType := NoJob, status := Ready, firstTime := true)
      else StartPortion(cfg, w')
  }

  /** The compare job after `n` equal bytes. */
  function Moved(j: Job, n: nat): Job {
    j.(target := j.target + n, addr := U32(j.addr + n), left := U32(j.left - n))
  }

  ghost function TransferMain(w: World): World
    requires |w.bus.addr| == 3
  {
    var o := Process(w.job, w.bus);
    var w' := JobProcessed(w, o);
    match o.rv
    case SeqPending => w'
    case SeqOk => w'.(result := ResultOk, jobType := NoJob, status := Ready)
    case _ => w'.(result := ResultFailed)
  }

  /** The job itself has been processed once. */
  function JobProcessed(w: World, o: Outcome): World {
    w.(job := o.job, bus := o.bus, calls := w.calls + if Effective(w.job, w.bus) then 1 else 0)
  }

  ghost function MainFunction(cfg: Config, w: World): World
    requires |w.bus.addr| == 3
  {
    if w.result != ResultPending || w.jobType == NoJob then w
    else if w.jobType == CompareJob then CompareMain(cfg, w)
    else TransferMain(w)
  }

  // ----- the service functions -----

  datatype Request = Request(kind: JobType, addr: nat, ptr: nat, length: nat)

  function UnitOf(kind: JobType): Unit {
    if kind == EraseJob then Whole else Page
  }

  /** Compare checks its flash address against NULL where read and write check the buffer. */
  function NullChecked(rq: Request): nat {
    match rq.kind
    case CompareJob => rq.addr
    case EraseJob => 1
    case _ => rq.ptr
  }

  ghost predicate Accepts(cfg: Config, w: World, rq: Request)
    requires ValidList(cfg.sectors)
  {
    && w.status == Ready
    && AddressOk(cfg.sectors, rq.addr, UnitOf(rq.kind))
    && LengthOk(cfg.sectors, rq.addr, rq.length, UnitOf(rq.kind))
    && NullChecked(rq) != 0
  }

  /** The first sector that holds `addr`. */
  function FirstSector(list: seq<Sector>, addr: nat): Option<Sector> {
    if list == [] then None
    else if 0 < list[0].size && InSector(list[0], addr) then Some(list[0])
    else FirstSector(list[1..], addr)
  }

  function ChunkOf(cfg: Config, fast: bool, rq: Request): nat {
    match rq.kind
    case EraseJob =>
      var s := FirstSector(cfg.sectors, rq.addr);
      if s.Some? then s.value.size else 0
    case WriteJob => if fast then cfg.writeFast else cfg.writeNormal
    case _ => if fast then cfg.readFast else cfg.readNormal
  }

  /** The state with the request recorded as the new job. Compare leaves `initialOp` and
      the sequence of the previous job in place. */
  function Recorded(cfg: Config, w: World, rq: Request): World {
    var chunk := ChunkOf(cfg, w.fast, rq);
    var target := if rq.kind == EraseJob then 0 else rq.ptr;
    var j := w.job.(chunk := chunk, addr := rq.addr, target := target, left := rq.length,
                    state := JobMain, main := rq.kind);
    var j' := if rq.kind == CompareJob then j else j.(initialOp := true, seq_ := FirstSequence(rq.kind));
    w.(status := Busy, result := ResultPending, jobType := rq.kind, job := j',
       task := Some(Task(rq.kind, rq.addr, target, rq.length, chunk, w.bus.flash, w.bus.ram, w.bus.trace, w.calls, w.retries)))
  }

  /** A service call: refused without any effect, or recorded. */
  ghost function Call(cfg: Config, w: World, rq: Request): World
    requires ValidList(cfg.sectors)
  {
    if Accepts(cfg, w, rq) then Recorded(cfg, w, rq) else w
  }

  /** The sequence a service function names before the first transfer: erase names the write sequence. */
  function FirstSequence(kind: JobType): Sequence {
    if kind == ReadJob then SeqRead else SeqWrite
  }

  // ----- runs -----

  datatype Action =
    | DoMain
    | DoCall(rq: Request)
    | DoSetMode(fast: bool)
    | SpiComplete(seq_: Sequence, chance: Chance)
    | SpiFail(seq_: Sequence, res: SeqResult, chance: Chance)
    | DeviceReady
    | UseMemory(ram: seq<Byte>)   // the application works on its memory

  /** Every region has sectors of the size the device erases. */
  ghost predicate UniformSectors(list: seq<Sector>, size: nat) {
    forall i :: 0 <= i < |list| ==> list[i].size == size
  }

  /** Callers pass a buffer that lies in memory, apart from the driver's static
      buffer, and a range that does not wrap around 32 bits. Erase jobs need a
      configuration with the device's sector size. */
  ghost predicate ProperRequest(cfg: Config, w: World, rq: Request) {
    && rq.kind != NoJob
    && rq.addr < U32_MOD && rq.length < U32_MOD
    && rq.addr + rq.length < U32_MOD
    && (rq.kind == EraseJob ==> UniformSectors(cfg.sectors, w.bus.eraseSize))
    && (rq.kind != EraseJob ==> rq.ptr + rq.length <= |w.bus.ram|)
    && (rq.kind != EraseJob ==> rq.ptr + rq.length <= cfg.compareBuffer || cfg.compareBuffer + CMP_BUFF_SIZE <= rq.ptr)
  }

  /** Not as Init leaves the driver: with the result pending, but no job. */
  predicate Begun(w: World) {
    w.result == ResultPending ==> w.jobType != NoJob
  }

  /** While its job is pending the caller of a read or write leaves its buffer alone. The
      caller of a compare may even change the buffer; the static compare buffer is the driver's. */
  ghost predicate LeavesAlone(cfg: Config, t: Task, ram: seq<Byte>, ram': seq<Byte>) {
    match t.kind
    case CompareJob => SameWithin(ram', ram, cfg.compareBuffer, CMP_BUFF_SIZE)
    case EraseJob => true
    case _ => SameWithin(ram', ram, t.ram, t.len)
  }

  /** How much of the buffer keeps, in `ram0`, its bytes when the application changes memory. */
  function KeptLength(w: World, t: Task): nat {
    if w.result != ResultPending then 0
    else
      match t.kind
      case CompareJob => if w.job.left <= t.len then t.len - w.job.left else 0
      case EraseJob => 0
      case _ => t.len
  }

  /** The application has changed memory to `ram`. */
  function Used(w: World, ram: seq<Byte>): World {
    if w.status != Busy || w.task.None? then w.(bus := w.bus.(ram := ram), task := None)
    else
      var t := w.task.value;
      w.(bus := w.bus.(ram := ram),
         task := Some(t.(ram0 := Rebased(t.ram0, ram, t.ram, KeptLength(w, t)))),
         part := w.part.(ram0 := Rebased(w.part.ram0, ram, w.part.ram, w.part.len)))
  }

  /** What may happen in a state. MainFunction is first called after a job was accepted. */
  ghost predicate Enabled(cfg: Config, w: World, a: Action) {
    match a
    case DoMain => Begun(w)
    case DoCall(rq) => ProperRequest(cfg, w, rq)
    case DoSetMode(_) => true
    case SpiComplete(s, c) => w.bus.results[s] == SeqPending && (c.status & 1 == 1) == (w.bus.op != Idle)
    case SpiFail(s, res, _) => w.bus.results[s] == SeqPending && res in {SeqFailed, SeqCancelled}
    case DeviceReady => true
    case UseMemory(ram) =>
      && |ram| == |w.bus.ram|
      && (w.status == Busy && w.result == ResultPending && w.task.Some? ==> LeavesAlone(cfg, w.task.value, w.bus.ram, ram))
  }

  ghost function Do(cfg: Config, w: World, a: Action): World
    requires BusOk(w.bus) && ValidList(cfg.sectors)
  {
    match a
    case DoMain => MainFunction(cfg, w)
    case DoCall(rq) => Call(cfg, w, rq)
    case DoSetMode(fast) => if w.status == Ready then w.(fast := fast) else w
    case SpiComplete(s, c) => w.(bus := Complete(w.bus, s, c))
    case SpiFail(s, res, c) => w.(bus := Fail(w.bus, s, res, c))
    case DeviceReady => w.(bus := Settle(w.bus))
    case UseMemory(ram) => Used(w, ram)
  }
}
