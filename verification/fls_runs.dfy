/** What holds over whole runs of the driver, its callers, the SPI and the device. */
module FlsRuns {
  import opened Memory
  import opened Sectors
  import opened SpiFlash
  import opened FlsSpec
  import opened FlsTransfer
  import opened FlsHistory
  import opened FlsInvariant
  import opened FlsAccept

  /** A run: the states passed and the actions between them. */
  datatype Run = Run(ws: seq<World>, acts: seq<Action>)

  ghost predicate ValidRun(cfg: Config, r: Run) {
    && ValidList(cfg.sectors) && |r.ws| == |r.acts| + 1
    && forall i :: 0 <= i < |r.acts| ==>
         BusOk(r.ws[i].bus) && Enabled(cfg, r.ws[i], r.acts[i]) && r.ws[i + 1] == Do(cfg, r.ws[i], r.acts[i])
  }

  /** The state Init leaves: idle, but with the job result pending. */
  ghost predicate AfterInit(cfg: Config, w: World) {
    && ConfigOk(cfg, w.bus)
    && w.status == Ready && w.result == ResultPending && w.jobType == NoJob
    && !w.job.initialOp && w.job.seq_ == SeqWrsr && w.firstTime
    && w.bus.results[SeqWrsr] == SeqOk && NonePending(w.bus)
    && w.bus.op == Idle && w.bus.trace == PowerOn
    && w.task == None
  }

  lemma NextInv(cfg: Config, r: Run, i: nat)
    requires ValidRun(cfg, r) && i < |r.acts| && DriverInv(cfg, r.ws[i])
    ensures DriverInv(cfg, r.ws[i + 1])
  {
    StepKeeps(cfg, r.ws[i], r.acts[i]);
  }

  lemma {:induction false} InvUpTo(cfg: Config, r: Run, n: nat)
    requires ValidRun(cfg, r) && DriverInv(cfg, r.ws[0]) && n < |r.ws|
    ensures forall i :: 0 <= i <= n ==> DriverInv(cfg, r.ws[i])
  {
    if 0 < n {
      InvUpTo(cfg, r, n - 1);
      NextInv(cfg, r, n - 1);
    }
  }

  /** Every state of a run keeps the invariant. */
  lemma InvAt(cfg: Config, r: Run, i: nat)
    requires ValidRun(cfg, r) && DriverInv(cfg, r.ws[0]) && i < |r.ws|
    ensures DriverInv(cfg, r.ws[i])
  {
    InvUpTo(cfg, r, i);
  }

  // ----- safety -----

  /** The job a call of MainFunction hands to ProcessJob. */
  function JobInHand(cfg: Config, w: World): Job {
    if w.jobType == CompareJob then (if w.firstTime then StartPortion(cfg, w).readJob else w.readJob) else w.job
  }

  /** No call of MainFunction in a job can fail an assert of ProcessJob. */
  lemma AssertsInHand(cfg: Config, w: World)
    requires DriverInv(cfg, w) && w.result == ResultPending && w.jobType != NoJob
    ensures AssertsHold(JobInHand(cfg, w), w.bus)
  {
    if Running(w) {
      AssertsAreSafe(w.task.value, w.job, w.bus);
    } else if w.firstTime {
      PortionStarts(cfg, w);
      AssertsAreSafe(StartPortion(cfg, w).part, StartPortion(cfg, w).readJob, w.bus);
    } else {
      AssertsAreSafe(w.part, w.readJob, w.bus);
    }
  }

  /** No assert fails in a call of MainFunction. */
  ghost predicate MainAsserts(cfg: Config, w: World) {
    w.result == ResultPending ==> w.jobType != NoJob && AssertsHold(JobInHand(cfg, w), w.bus)
  }

  /** At every point of every run after Init at most one SPI sequence is outstanding,
      the status is busy exactly when there is a job, a call of MainFunction meets all
      asserts exactly if the state is not the one Init left, and the bus trace is disciplined. */
  lemma EveryRunIsSafe(cfg: Config, r: Run, i: nat)
    requires ValidRun(cfg, r) && AfterInit(cfg, r.ws[0]) && i < |r.ws|
    ensures var w := r.ws[i];
            && AtMostOnePending(w.bus)
            && (w.status == Busy <==> w.jobType != NoJob)
            && (MainAsserts(cfg, w) <==> Begun(w))
            && Disciplined(w.bus.trace)
  {
    InvAt(cfg, r, i);
    if r.ws[i].result == ResultPending && r.ws[i].jobType != NoJob {
      AssertsInHand(cfg, r.ws[i]);
    }
  }

  lemma BegunStays(cfg: Config, w: World, a: Action)
    requires BusOk(w.bus) && ValidList(cfg.sectors) && Begun(w) && Enabled(cfg, w, a)
    ensures Begun(Do(cfg, w, a))
  {
  }

  lemma {:induction false} BegunUpTo(cfg: Config, r: Run, i: nat, j: nat)
    requires ValidRun(cfg, r) && i <= j < |r.ws| && Begun(r.ws[i])
    ensures Begun(r.ws[j])
    decreases j - i
  {
    if i < j {
      BegunStays(cfg, r.ws[i], r.acts[i]);
      BegunUpTo(cfg, r, i + 1, j);
    }
  }

  /** Right after Init a call of MainFunction fails an assert; from the first accepted job
      on, for the rest of the run, none does. */
  lemma AssertsFromFirstJob(cfg: Config, r: Run, i: nat, j: nat)
    requires ValidRun(cfg, r) && AfterInit(cfg, r.ws[0]) && i <= j < |r.ws|
    ensures !MainAsserts(cfg, r.ws[0])
    ensures r.ws[i].jobType != NoJob ==> MainAsserts(cfg, r.ws[j])
  {
    if r.ws[i].jobType != NoJob {
      BegunUpTo(cfg, r, i, j);
      EveryRunIsSafe(cfg, r, j);
    }
  }

  /** In every run no command is sent to a busy device. */
  lemma CommandsFindReady(cfg: Config, r: Run, n: nat)
    requires ValidRun(cfg, r) && AfterInit(cfg, r.ws[0]) && n < |r.ws|
    ensures var es := Events(r.ws[n].bus.trace);
            forall k :: 0 <= k < |es| && IsCommand(es[k]) ==> !es[k].busy
  {
    InvAt(cfg, r, n);
    var es := Events(r.ws[n].bus.trace);
    forall k | 0 <= k < |es| && IsCommand(es[k]) ensures !es[k].busy {
      CommandsFindIdle(r.ws[n].bus.trace, k);
    }
  }

  /** Before each command but the first a status read since the previous command found the
      device ready, exactly if no sequence failed in between. */
  lemma CommandsAreChecked(cfg: Config, r: Run, n: nat, i: nat, j: nat)
    requires ValidRun(cfg, r) && AfterInit(cfg, r.ws[0]) && n < |r.ws|
    requires var es := Events(r.ws[n].bus.trace); j < |es| && LastCommand(es, i, j) && IsCommand(es[j])
    ensures var es := Events(r.ws[n].bus.trace);
            (exists k :: i < k < j && es[k] == Polled(false)) <==> !(exists k :: i < k < j && es[k].Failed?)
  {
    InvAt(cfg, r, n);
    ReadyUnlessFailed(r.ws[n].bus.trace, i, j);
  }

  /** A job reports success only when the device is ready again, and the last thing on the
      bus was a status read that said so. */
  lemma SuccessMeansReady(cfg: Config, r: Run, i: nat)
    requires ValidRun(cfg, r) && AfterInit(cfg, r.ws[0]) && i < |r.ws|
    requires r.ws[i].result == ResultOk
    ensures r.ws[i].status == Ready && r.ws[i].bus.op == Idle && NonePending(r.ws[i].bus)
    ensures JustReady(r.ws[i].bus.trace)
  {
    InvAt(cfg, r, i);
    assert Resting(r.ws[i]);
  }

  // ----- one job -----

  /** The driver invariant, between jobs. */
  ghost predicate AtRest(cfg: Config, w: World) {
    ConfigOk(cfg, w.bus) && Disciplined(w.bus.trace) && w.bus.results[SeqWrsr] == SeqOk && Resting(w)
  }

  lemma ReadyIsAtRest(cfg: Config, w: World)
    requires w.status == Ready
    ensures DriverInv(cfg, w) <==> AtRest(cfg, w)
  {
  }

  /** A run that starts with an accepted proper request and stays in that job up to its last state. */
  ghost predicate JobRun(cfg: Config, r: Run, rq: Request) {
    && ValidRun(cfg, r) && 0 < |r.acts|
    && AtRest(cfg, r.ws[0])
    && r.acts[0] == DoCall(rq) && Accepts(cfg, r.ws[0], rq)
    && forall i :: 0 < i < |r.acts| ==> r.ws[i].status == Busy
  }

  function Last(r: Run): World
    requires 0 < |r.ws|
  {
    r.ws[|r.ws| - 1]
  }

  ghost function Extended(cfg: Config, r: Run, a: Action): Run
    requires 0 < |r.ws| && BusOk(Last(r).bus) && ValidList(cfg.sectors)
  {
    Run(r.ws + [Do(cfg, Last(r), a)], r.acts + [a])
  }

  lemma ExtendValid(cfg: Config, r: Run, a: Action)
    requires ValidRun(cfg, r) && BusOk(Last(r).bus) && Enabled(cfg, Last(r), a)
    ensures ValidRun(cfg, Extended(cfg, r, a))
    ensures Last(Extended(cfg, r, a)) == Do(cfg, Last(r), a) && Extended(cfg, r, a).ws[0] == r.ws[0]
  {
    var r' := Extended(cfg, r, a);
    forall i | 0 <= i < |r'.acts|
      ensures BusOk(r'.ws[i].bus) && Enabled(cfg, r'.ws[i], r'.acts[i]) && r'.ws[i + 1] == Do(cfg, r'.ws[i], r'.acts[i])
    {
      if i < |r.acts| {
        assert r'.ws[i] == r.ws[i] && r'.ws[i + 1] == r.ws[i + 1] && r'.acts[i] == r.acts[i];
      }
    }
  }

  /** A run of a job can be continued while the job goes on. */
  lemma ExtendRun(cfg: Config, r: Run, rq: Request, a: Action)
    requires JobRun(cfg, r, rq) && Last(r).status == Busy && BusOk(Last(r).bus) && Enabled(cfg, Last(r), a)
    ensures JobRun(cfg, Extended(cfg, r, a), rq)
    ensures Last(Extended(cfg, r, a)) == Do(cfg, Last(r), a) && Extended(cfg, r, a).ws[0] == r.ws[0]
  {
    ExtendValid(cfg, r, a);
    var r' := Extended(cfg, r, a);
    forall i | 0 < i < |r'.acts| ensures r'.ws[i].status == Busy {
      assert r'.ws[i] == r.ws[i];
    }
  }

  /** Two records of the same task, at different times. */
  ghost predicate SameTask(t: Task, t': Task) {
    && t' == t.(ram0 := t'.ram0)
    && |t'.ram0| == |t.ram0|
  }

  /** The callers of read and write leave their buffers alone. */
  ghost predicate SameBuffer(t: Task, t': Task) {
    t.kind in {ReadJob, WriteJob} ==> SameWithin(t'.ram0, t.ram0, t.ram, t.len)
  }

  lemma OthersKeepTask(cfg: Config, w: World, a: Action)
    requires BusOk(w.bus) && ValidList(cfg.sectors) && w.status == Busy && Enabled(cfg, w, a) && !a.UseMemory?
    ensures Do(cfg, w, a).task == w.task
    ensures w.result == ResultFailed ==> Do(cfg, w, a).result == ResultFailed
  {
  }

  lemma UseKeepsTask(cfg: Config, w: World, ram: seq<Byte>)
    requires w.status == Busy && Enabled(cfg, w, UseMemory(ram)) && w.task.Some?
    requires |w.task.value.ram0| == |w.bus.ram|
    ensures var w' := Used(w, ram);
            && w'.task.Some? && SameTask(w.task.value, w'.task.value) && w'.result == w.result
            && (w.result == ResultPending ==> SameBuffer(w.task.value, w'.task.value))
  {
  }

  lemma BusyHasTask(cfg: Config, w: World)
    requires DriverInv(cfg, w) && w.status == Busy
    ensures w.task.Some? && |w.task.value.ram0| == |w.bus.ram| && w.result in {ResultPending, ResultFailed}
  {
  }

  lemma BusyCompares(cfg: Config, w: World)
    requires DriverInv(cfg, w) && w.status == Busy && w.task.Some? && w.task.value.kind == CompareJob
    ensures Comparing(cfg, w)
  {
  }

  lemma BusyKeepsTask(cfg: Config, w: World, a: Action)
    requires DriverInv(cfg, w) && w.status == Busy && Enabled(cfg, w, a)
    ensures var w' := Do(cfg, w, a);
            && w.task.Some? && w'.task.Some? && SameTask(w.task.value, w'.task.value)
            && (!a.UseMemory? ==> w'.task == w.task)
            && (w'.result != ResultFailed ==> w.result != ResultFailed && SameBuffer(w.task.value, w'.task.value))
  {
    BusyHasTask(cfg, w);
    if a.UseMemory? {
      UseKeepsTask(cfg, w, a.ram);
    } else {
      OthersKeepTask(cfg, w, a);
    }
  }

  /** The task recorded when the request was accepted. */
  function TaskOf(cfg: Config, w: World, rq: Request): Task {
    Recorded(cfg, w, rq).task.value
  }

  /** It stays the task of the run. */
  lemma {:induction false} TaskStays(cfg: Config, r: Run, rq: Request, i: nat)
    requires JobRun(cfg, r, rq) && 0 < i < |r.ws|
    ensures r.ws[i].task.Some? && SameTask(TaskOf(cfg, r.ws[0], rq), r.ws[i].task.value)
    ensures r.ws[i].result != ResultFailed ==> SameBuffer(TaskOf(cfg, r.ws[0], rq), r.ws[i].task.value)
  {
    if i == 1 {
      assert r.ws[1] == Do(cfg, r.ws[0], r.acts[0]);
    } else {
      TaskStays(cfg, r, rq, i - 1);
      JobInvariant(cfg, r, rq, i - 1);
      BusyKeepsTask(cfg, r.ws[i - 1], r.acts[i - 1]);
    }
  }

  lemma JobInvariant(cfg: Config, r: Run, rq: Request, i: nat)
    requires JobRun(cfg, r, rq) && i < |r.ws|
    ensures DriverInv(cfg, r.ws[i])
  {
    ReadyIsAtRest(cfg, r.ws[0]);
    InvAt(cfg, r, i);
  }

  /** Every state of the job run keeps the invariant, with the accepted task. */
  lemma JobInv(cfg: Config, r: Run, rq: Request, i: nat)
    requires JobRun(cfg, r, rq) && 0 < i < |r.ws|
    ensures DriverInv(cfg, r.ws[i])
    ensures r.ws[i].task.Some? && SameTask(TaskOf(cfg, r.ws[0], rq), r.ws[i].task.value)
    ensures r.ws[i].result != ResultFailed ==> SameBuffer(TaskOf(cfg, r.ws[0], rq), r.ws[i].task.value)
    ensures r.ws[1] == Call(cfg, r.ws[0], rq) && rq.kind != NoJob
    ensures i < |r.ws| - 1 ==> r.ws[i].status == Busy
  {
    JobInvariant(cfg, r, rq, i);
    TaskStays(cfg, r, rq, i);
    assert r.ws[1] == Do(cfg, r.ws[0], r.acts[0]);
  }

  // ----- memory -----

  /** The memory as it would be if only the application wrote to it. */
  ghost function AppMemory(r: Run, i: nat): seq<Byte>
    requires i < |r.ws| && |r.ws| == |r.acts| + 1
  {
    if i == 0 then r.ws[0].bus.ram
    else if r.acts[i - 1].UseMemory? then r.acts[i - 1].ram
    else AppMemory(r, i - 1)
  }

  /** Where a job of this kind lets the driver store into memory, and how much. */
  function StoreAt(cfg: Config, kind: JobType, ptr: nat): nat {
    if kind == CompareJob then cfg.compareBuffer else ptr
  }

  function StoreLength(kind: JobType, length: nat): nat {
    match kind
    case CompareJob => CMP_BUFF_SIZE
    case ReadJob => length
    case _ => 0
  }

  lemma SpliceConfined(ram: seq<Byte>, p: nat, data: seq<Byte>, at: nat, n: nat)
    requires p + |data| <= |ram| && at <= p && p + |data| <= at + n
    ensures SameOutside(Splice(ram, p, data), ram, at, n)
  {
  }

  lemma ReadConfined(b: Bus, junk: seq<Byte>, at: nat, n: nat)
    requires |b.addr| == 3 && b.dst.ToRam? && at <= b.dst.at && b.dst.at + b.len <= at + n
    ensures SameOutside(ReadBack(b, junk), b.ram, at, n)
    ensures SameOutside(Filled(b, junk), b.ram, at, n)
  {
    var from := DeviceAddress(b.addr);
    if b.dst.at + b.len <= |b.ram| {
      if |junk| == b.len {
        SpliceConfined(b.ram, b.dst.at, junk, at, n);
      }
      if from + b.len <= |b.flash| {
        SpliceConfined(b.ram, b.dst.at, b.flash[from..from + b.len], at, n);
      }
    }
  }

  /** What a sequence stores lies where the data channel was told to store. */
  lemma StoresAtDestination(b: Bus, s: Sequence, c: Chance, res: SeqResult, at: nat, n: nat)
    requires |b.addr| == 3 && 0 < b.eraseSize
    requires s == SeqRead ==> b.dst.ToRam? && at <= b.dst.at && b.dst.at + b.len <= at + n
    ensures SameOutside(Complete(b, s, c).ram, b.ram, at, n)
    ensures SameOutside(Fail(b, s, res, c).ram, b.ram, at, n)
  {
    if s == SeqRead {
      ReadConfined(b, c.junk, at, n);
    }
  }

  lemma ReadTarget(t: Task, j: Job, b: Bus)
    requires TransferInv(t, j, b) && b.results[SeqRead] == SeqPending
    ensures b.dst.ToRam? && t.ram <= b.dst.at && b.dst.at + b.len <= t.ram + t.len && IsRead(t.kind)
  {
    PendingCommand(t, j, b, SeqRead);
  }

  /** No step of the driver, the SPI or the device changes memory elsewhere. */
  lemma StepStores(cfg: Config, w: World, a: Action)
    requires DriverInv(cfg, w) && w.status == Busy && Enabled(cfg, w, a) && !a.UseMemory?
    ensures w.task.Some?
    ensures var t := w.task.value;
            SameOutside(Do(cfg, w, a).bus.ram, w.bus.ram, StoreAt(cfg, t.kind, t.ram), StoreLength(t.kind, t.len))
  {
    BusyHasTask(cfg, w);
    if a.DoMain? {
      if w.result == ResultPending {
        AssertsInHand(cfg, w);
      }
      MainStoresNothing(cfg, w);
    } else if a.SpiComplete? {
      PendingStores(cfg, w, a.seq_, a.chance, SeqOk);
    } else if a.SpiFail? {
      PendingStores(cfg, w, a.seq_, a.chance, a.res);
    }
  }

  lemma PendingStores(cfg: Config, w: World, s: Sequence, c: Chance, res: SeqResult)
    requires DriverInv(cfg, w) && w.bus.results[s] == SeqPending
    ensures w.task.Some?
    ensures var t := w.task.value;
            var at, n := StoreAt(cfg, t.kind, t.ram), StoreLength(t.kind, t.len);
            SameOutside(Complete(w.bus, s, c).ram, w.bus.ram, at, n) && SameOutside(Fail(w.bus, s, res, c).ram, w.bus.ram, at, n)
  {
    PendingMeansTransfer(cfg, w, s);
    var t := w.task.value;
    if s == SeqRead {
      if Running(w) {
        ReadTarget(t, w.job, w.bus);
      } else {
        ReadTarget(w.part, w.readJob, w.bus);
      }
    }
    StoresAtDestination(w.bus, s, c, res, StoreAt(cfg, t.kind, t.ram), StoreLength(t.kind, t.len));
  }

  lemma MainStoresNothing(cfg: Config, w: World)
    requires |w.bus.addr| == 3
    requires w.result == ResultPending && w.jobType != NoJob ==> AssertsHold(JobInHand(cfg, w), w.bus)
    ensures MainFunction(cfg, w).bus.ram == w.bus.ram
  {
    if w.result == ResultPending && w.jobType != NoJob {
      ProcessFrame(JobInHand(cfg, w), w.bus);
    }
  }

  // ----- the effect of a job -----

  /** What a completed operation on `n` bytes from `at` on makes of the flash. */
  ghost predicate FlashEffect(kind: JobType, at: nat, ptr: nat, n: nat, flash: seq<Byte>, ram: seq<Byte>, flash': seq<Byte>)
    requires at + n <= |flash| && (kind != EraseJob ==> ptr + n <= |ram|)
  {
    && SameOutside(flash', flash, at, n)
    && match kind
       case WriteJob => forall i :: at <= i < at + n ==> flash'[i] == flash[i] & ram[ptr + (i - at)]
       case EraseJob => forall i :: at <= i < at + n ==> flash'[i] == 0xFF
       case _ => flash' == flash
  }

  /** What it makes of the application's memory `app`. */
  ghost predicate RamEffect(kind: JobType, at: nat, ptr: nat, n: nat, flash: seq<Byte>, app: seq<Byte>, ram': seq<Byte>)
    requires at + n <= |flash|
  {
    && SameOutside(ram', app, ptr, StoreLength(kind, n))
    && (kind == ReadJob ==>
          ptr + n <= |ram'| && forall i :: ptr <= i < ptr + n ==> ram'[i] == flash[at + (i - ptr)])
  }

  /** The effect of a completed read, write or erase, as one atomic operation on the range:
      from the state `b` before, and the memory `app` the application has made since. */
  ghost predicate AtomicEffect(rq: Request, b: Bus, app: seq<Byte>, b': Bus)
    requires rq.addr + rq.length <= |b.flash|
    requires rq.kind != EraseJob ==> rq.ptr + rq.length <= |b.ram|
  {
    && FlashEffect(rq.kind, rq.addr, rq.ptr, rq.length, b.flash, b.ram, b'.flash)
    && RamEffect(rq.kind, rq.addr, rq.ptr, rq.length, b.flash, app, b'.ram)
  }

  /** An accepted proper request lies inside the device. */
  lemma RequestInside(cfg: Config, w: World, rq: Request)
    requires ConfigOk(cfg, w.bus) && Accepts(cfg, w, rq) && ProperRequest(cfg, w, rq)
    ensures rq.addr + rq.length <= |w.bus.flash| && 0 < rq.length
    ensures 0 < ChunkOf(cfg, w.fast, rq)
  {
    AcceptedTask(cfg, w, rq);
  }

  lemma HeldFlash(t: Task, ptr: nat, flash: seq<Byte>, ram: seq<Byte>)
    requires TaskOk(t) && FlashHolds(t, t.len, flash) && (t.kind != EraseJob ==> t.ram == ptr)
    requires |ram| == |t.ram0| && (t.kind == WriteJob ==> SameWithin(t.ram0, ram, t.ram, t.len))
    ensures FlashEffect(t.kind, t.at, ptr, t.len, t.flash0, ram, flash)
  {
    assert forall i :: 0 <= i < |flash| ==> flash[i] == FlashByte(t, t.len, i);
  }

  lemma HeldRam(t: Task, ram: seq<Byte>)
    requires TaskOk(t) && RamHolds(t, t.len, ram) && t.kind == ReadJob
    ensures t.ram + t.len <= |ram| && forall i :: t.ram <= i < t.ram + t.len ==> ram[i] == t.flash0[t.at + (i - t.ram)]
  {
    forall i | t.ram <= i < t.ram + t.len ensures ram[i] == t.flash0[t.at + (i - t.ram)] {
      assert ram[i] == RamByte(t, t.len, i);
    }
  }

  lemma TransferAchieved(cfg: Config, r: Run, rq: Request)
    requires JobRun(cfg, r, rq) && rq.kind in {ReadJob, WriteJob, EraseJob}
    requires Last(r).result == ResultOk
    ensures Last(r).task.Some? && Transferred(Last(r).task.value, Last(r).bus, Last(r).calls)
    ensures SameTask(TaskOf(cfg, r.ws[0], rq), Last(r).task.value)
    ensures SameBuffer(TaskOf(cfg, r.ws[0], rq), Last(r).task.value)
    ensures Last(r).job.seq_ == SeqCmd2 && Last(r).bus.results[SeqCmd2] == SeqOk
  {
    JobInv(cfg, r, rq, |r.ws| - 1);
    assert Resting(Last(r));
  }

  /** One step keeps memory and the application's memory the same outside that place. */
  lemma StepConfined(cfg: Config, w: World, a: Action, app: seq<Byte>)
    requires DriverInv(cfg, w) && w.status == Busy && Enabled(cfg, w, a) && w.task.Some?
    requires var t := w.task.value; SameOutside(w.bus.ram, app, StoreAt(cfg, t.kind, t.ram), StoreLength(t.kind, t.len))
    ensures var t := w.task.value;
            SameOutside(Do(cfg, w, a).bus.ram, if a.UseMemory? then a.ram else app,
                        StoreAt(cfg, t.kind, t.ram), StoreLength(t.kind, t.len))
  {
    if !a.UseMemory? {
      StepStores(cfg, w, a);
    }
  }

  /** At every step of a job memory is as the application made it, but for what the job lets the driver store. */
  lemma {:induction false} MemoryConfined(cfg: Config, r: Run, rq: Request, i: nat)
    requires JobRun(cfg, r, rq) && 0 < i < |r.ws|
    ensures SameOutside(r.ws[i].bus.ram, AppMemory(r, i), StoreAt(cfg, rq.kind, rq.ptr), StoreLength(rq.kind, rq.length))
  {
    if i == 1 {
      JobInv(cfg, r, rq, 1);
    } else {
      MemoryConfined(cfg, r, rq, i - 1);
      MemoryNext(cfg, r, rq, i - 1);
    }
  }

  lemma MemoryNext(cfg: Config, r: Run, rq: Request, i: nat)
    requires JobRun(cfg, r, rq) && 0 < i < |r.acts|
    requires SameOutside(r.ws[i].bus.ram, AppMemory(r, i), StoreAt(cfg, rq.kind, rq.ptr), StoreLength(rq.kind, rq.length))
    ensures SameOutside(r.ws[i + 1].bus.ram, AppMemory(r, i + 1), StoreAt(cfg, rq.kind, rq.ptr), StoreLength(rq.kind, rq.length))
  {
    JobInv(cfg, r, rq, i);
    if rq.kind == EraseJob {
      NothingStored(r.ws[i].bus.ram, AppMemory(r, i), rq.ptr, r.ws[i].task.value.ram);
    }
    StepConfined(cfg, r.ws[i], r.acts[i], AppMemory(r, i));
  }

  lemma NothingStored(a: seq<Byte>, b: seq<Byte>, at: nat, at': nat)
    requires SameOutside(a, b, at, 0)
    ensures SameOutside(a, b, at', 0)
  {
  }

  lemma AtomicOf(cfg: Config, r: Run, rq: Request)
    requires JobRun(cfg, r, rq) && rq.kind in {ReadJob, WriteJob, EraseJob}
    requires Last(r).result == ResultOk
    ensures rq.addr + rq.length <= |r.ws[0].bus.flash|
    ensures rq.kind != EraseJob ==> rq.ptr + rq.length <= |r.ws[0].bus.ram|
    ensures AtomicEffect(rq, r.ws[0].bus, AppMemory(r, |r.ws| - 1), Last(r).bus)
  {
    RequestInside(cfg, r.ws[0], rq);
    FlashOf(cfg, r, rq);
    if rq.kind == ReadJob {
      RamOf(cfg, r, rq);
    }
    MemoryConfined(cfg, r, rq, |r.ws| - 1);
  }

  lemma FlashOf(cfg: Config, r: Run, rq: Request)
    requires JobRun(cfg, r, rq) && rq.kind in {ReadJob, WriteJob, EraseJob} && Last(r).result == ResultOk
    requires rq.addr + rq.length <= |r.ws[0].bus.flash|
    ensures rq.kind != EraseJob ==> rq.ptr + rq.length <= |r.ws[0].bus.ram|
    ensures FlashEffect(rq.kind, rq.addr, rq.ptr, rq.length, r.ws[0].bus.flash, r.ws[0].bus.ram, Last(r).bus.flash)
  {
    TransferAchieved(cfg, r, rq);
    HeldFlash(Last(r).task.value, rq.ptr, Last(r).bus.flash, r.ws[0].bus.ram);
  }

  lemma RamOf(cfg: Config, r: Run, rq: Request)
    requires JobRun(cfg, r, rq) && rq.kind == ReadJob && Last(r).result == ResultOk
    requires rq.addr + rq.length <= |r.ws[0].bus.flash|
    ensures rq.ptr + rq.length <= |Last(r).bus.ram|
    ensures forall i :: rq.ptr <= i < rq.ptr + rq.length ==>
              Last(r).bus.ram[i] == r.ws[0].bus.flash[rq.addr + (i - rq.ptr)]
  {
    TransferAchieved(cfg, r, rq);
    HeldRam(Last(r).task.value, Last(r).bus.ram);
  }

  /** A run that takes a read, write or erase job to success has exactly the atomic
      effect, and the commands it sent are the tiles of the range, of the size configured for
      the job and the mode. It took two effective calls of MainFunction per tile, one more to
      finish, and one more for each status read that found the device busy. */
  lemma TransferIsAtomic(cfg: Config, r: Run, rq: Request)
    requires JobRun(cfg, r, rq) && rq.kind in {ReadJob, WriteJob, EraseJob}
    requires Last(r).result == ResultOk
    ensures rq.addr + rq.length <= |r.ws[0].bus.flash|
    ensures AtomicEffect(rq, r.ws[0].bus, AppMemory(r, |r.ws| - 1), Last(r).bus)
    ensures var chunk := ChunkOf(cfg, r.ws[0].fast, rq);
            && 0 < chunk && StepSize(cfg, r.ws[0].fast, rq, chunk)
            && Commands(Last(r).bus.trace) == Commands(r.ws[0].bus.trace) + TilesFrom(rq.addr, rq.length, chunk)
            && Last(r).calls - r.ws[0].calls
               == 2 * ((rq.length + chunk - 1) / chunk) + 1 + BusyPolls(Last(r).bus.trace) - BusyPolls(r.ws[0].bus.trace)
  {
    AtomicOf(cfg, r, rq);
    HistoryOf(cfg, r, rq);
    StepSizeOf(cfg, r, rq);
  }

  /** The step size of the job of a run. */
  lemma StepSizeOf(cfg: Config, r: Run, rq: Request)
    requires JobRun(cfg, r, rq)
    ensures forall n: nat :: StepSize(cfg, r.ws[0].fast, rq, n) <==> n == ChunkOf(cfg, r.ws[0].fast, rq)
    ensures StepSize(cfg, r.ws[0].fast, rq, ChunkOf(cfg, r.ws[0].fast, rq))
  {
    assert Enabled(cfg, r.ws[0], r.acts[0]);
    forall n: nat ensures StepSize(cfg, r.ws[0].fast, rq, n) <==> n == ChunkOf(cfg, r.ws[0].fast, rq) {
      ChunkIsStepSize(cfg, r.ws[0], rq, n);
    }
  }

  lemma HistoryOf(cfg: Config, r: Run, rq: Request)
    requires JobRun(cfg, r, rq) && rq.kind in {ReadJob, WriteJob, EraseJob} && Last(r).result == ResultOk
    ensures var chunk := ChunkOf(cfg, r.ws[0].fast, rq);
            && 0 < chunk
            && Commands(Last(r).bus.trace) == Commands(r.ws[0].bus.trace) + TilesFrom(rq.addr, rq.length, chunk)
            && Last(r).calls - r.ws[0].calls
               == 2 * ((rq.length + chunk - 1) / chunk) + 1 + BusyPolls(Last(r).bus.trace) - BusyPolls(r.ws[0].bus.trace)
  {
    TransferAchieved(cfg, r, rq);
    ChunksIsCeiling(rq.length, Last(r).task.value.chunk);
  }

  lemma FlashConfined(cfg: Config, r: Run, rq: Request, i: nat)
    requires JobRun(cfg, r, rq) && 0 < i < |r.ws|
    ensures rq.kind != CompareJob ==> SameOutside(r.ws[i].bus.flash, r.ws[0].bus.flash, rq.addr, rq.length)
    ensures rq.kind in {ReadJob, CompareJob} ==> r.ws[i].bus.flash == r.ws[0].bus.flash
  {
    JobInv(cfg, r, rq, i);
    RequestInside(cfg, r.ws[0], rq);
    if r.ws[i].status != Busy && rq.kind != CompareJob {
      var t := r.ws[i].task.value;
      HeldFlash(t, t.ram, r.ws[i].bus.flash, t.ram0);
    }
  }

  /** At every step of a job, finished or not, failed or not, the flash outside its range is
      as it was, and memory outside the place where it stores is as the application made it. */
  lemma OutsideUntouched(cfg: Config, r: Run, rq: Request, i: nat)
    requires JobRun(cfg, r, rq) && 0 < i < |r.ws|
    ensures rq.kind != CompareJob ==> SameOutside(r.ws[i].bus.flash, r.ws[0].bus.flash, rq.addr, rq.length)
    ensures rq.kind in {ReadJob, CompareJob} ==> r.ws[i].bus.flash == r.ws[0].bus.flash
    ensures rq.kind in {WriteJob, EraseJob} ==> r.ws[i].bus.ram == AppMemory(r, i)
    ensures rq.kind == ReadJob ==> SameOutside(r.ws[i].bus.ram, AppMemory(r, i), rq.ptr, rq.length)
    ensures rq.kind == CompareJob ==> SameOutside(r.ws[i].bus.ram, AppMemory(r, i), cfg.compareBuffer, CMP_BUFF_SIZE)
  {
    FlashConfined(cfg, r, rq, i);
    MemoryConfined(cfg, r, rq, i);
    JobInv(cfg, r, rq, i);
  }

  // ----- several jobs -----

  /** A run that takes a job of this kind to success. */
  ghost predicate Succeeds(cfg: Config, r: Run, rq: Request, kind: JobType) {
    JobRun(cfg, r, rq) && rq.kind == kind && Last(r).result == ResultOk
  }

  /** Erase, then write inside the erased range, then read back: the reader gets the written bytes. */
  lemma EraseWriteRead(cfg: Config, e: Run, w: Run, r: Run, eq_: Request, wq: Request, rq: Request)
    requires Succeeds(cfg, e, eq_, EraseJob) && Succeeds(cfg, w, wq, WriteJob) && Succeeds(cfg, r, rq, ReadJob)
    requires w.ws[0].bus.flash == Last(e).bus.flash && r.ws[0].bus.flash == Last(w).bus.flash
    requires eq_.addr <= wq.addr && wq.addr + wq.length <= eq_.addr + eq_.length
    requires rq.addr == wq.addr && rq.length == wq.length
    ensures rq.ptr + rq.length <= |Last(r).bus.ram| && wq.ptr + wq.length <= |w.ws[0].bus.ram|
    ensures Last(r).bus.ram[rq.ptr..rq.ptr + rq.length] == w.ws[0].bus.ram[wq.ptr..wq.ptr + wq.length]
  {
    ErasedThenWritten(cfg, e, w, eq_, wq);
    ReadReturns(cfg, r, rq, w.ws[0].bus.ram, wq.ptr);
  }

  /** What a read job brings equals whatever the flash range is equal to. */
  lemma ReadReturns(cfg: Config, r: Run, rq: Request, mem: seq<Byte>, src: nat)
    requires Succeeds(cfg, r, rq, ReadJob)
    requires Equal(r.ws[0].bus.flash, rq.addr, mem, src, rq.length)
    ensures rq.ptr + rq.length <= |Last(r).bus.ram|
    ensures Last(r).bus.ram[rq.ptr..rq.ptr + rq.length] == mem[src..src + rq.length]
  {
    AtomicOf(cfg, r, rq);
    ReadsBack(r.ws[0].bus.flash, rq.addr, mem, src, Last(r).bus.ram, rq.ptr, rq.length);
  }

  lemma ErasedThenWritten(cfg: Config, e: Run, w: Run, eq_: Request, wq: Request)
    requires Succeeds(cfg, e, eq_, EraseJob) && Succeeds(cfg, w, wq, WriteJob)
    requires w.ws[0].bus.flash == Last(e).bus.flash
    requires eq_.addr <= wq.addr && wq.addr + wq.length <= eq_.addr + eq_.length
    ensures Equal(Last(w).bus.flash, wq.addr, w.ws[0].bus.ram, wq.ptr, wq.length)
  {
    AtomicOf(cfg, e, eq_);
    AtomicOf(cfg, w, wq);
    WrittenIntoErased(eq_, e.ws[0].bus, Last(e).bus, wq, w.ws[0].bus, Last(w).bus);
  }

  /** A write inside an erased range leaves exactly the written bytes there. */
  lemma WrittenIntoErased(eq_: Request, e: Bus, e': Bus, wq: Request, w: Bus, w': Bus)
    requires eq_.kind == EraseJob && eq_.addr + eq_.length <= |e.flash|
    requires FlashEffect(EraseJob, eq_.addr, eq_.ptr, eq_.length, e.flash, e.ram, e'.flash)
    requires wq.kind == WriteJob && wq.addr + wq.length <= |w.flash| && wq.ptr + wq.length <= |w.ram|
    requires FlashEffect(WriteJob, wq.addr, wq.ptr, wq.length, w.flash, w.ram, w'.flash) && w.flash == e'.flash
    requires eq_.addr <= wq.addr && wq.addr + wq.length <= eq_.addr + eq_.length
    ensures Equal(w'.flash, wq.addr, w.ram, wq.ptr, wq.length)
  {
    forall i | wq.addr <= i < wq.addr + wq.length ensures w'.flash[i] == w.ram[wq.ptr + (i - wq.addr)] {
      assert w.flash[i] == 0xFF;
      ErasedAnd(w.ram[wq.ptr + (i - wq.addr)]);
    }
  }

  lemma ReadsBack(flash: seq<Byte>, at: nat, mem: seq<Byte>, src: nat, ram: seq<Byte>, dst: nat, n: nat)
    requires Equal(flash, at, mem, src, n) && dst + n <= |ram|
    requires forall i :: dst <= i < dst + n ==> ram[i] == flash[at + (i - dst)]
    ensures ram[dst..dst + n] == mem[src..src + n]
  {
    forall i | dst <= i < dst + n ensures ram[i] == mem[src + (i - dst)] {
      assert flash[at + (i - dst)] == mem[src + ((at + (i - dst)) - at)];
    }
    SameSlices(ram, dst, mem, src, n);
  }

  lemma SameSlices(a: seq<Byte>, x: nat, b: seq<Byte>, y: nat, n: nat)
    requires x + n <= |a| && y + n <= |b|
    requires forall i :: x <= i < x + n ==> a[i] == b[y + (i - x)]
    ensures a[x..x + n] == b[y..y + n]
  {
  }

  lemma ErasedAnd(x: Byte)
    ensures 0xFF & x == x
  {
  }
}
