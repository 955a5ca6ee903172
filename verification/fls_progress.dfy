/** Progress: jobs end. Without a failing sequence every job succeeds within a known number
    of effective calls; a compare needs one more for each time it finds a portion different. */
module FlsProgress {
  import opened Memory
  import opened Sectors
  import opened SpiFlash
  import opened FlsSpec
  import opened FlsTransfer
  import opened FlsHistory
  import opened FlsInvariant
  import opened FlsRuns
  import opened FlsCompare
  import opened FlsFailures

  // ----- jobs without a failing sequence -----

  /** The sequence the job waits for is pending or has ended well, or it does not wait for one yet. */
  predicate SeqWell(j: Job, b: Bus) {
    j.initialOp || b.results[j.seq_] in {SeqOk, SeqPending}
  }

  /** The job has not failed, and is not about to. */
  predicate Hopeful(cfg: Config, w: World) {
    w.result != ResultFailed && (w.result == ResultPending && w.jobType != NoJob ==> SeqWell(JobInHand(cfg, w), w.bus))
  }

  /** While nothing is pending, a call of MainFunction gets a hopeful job ahead. */
  lemma CallIsEffective(cfg: Config, w: World)
    requires |w.bus.addr| == 3 && w.jobType != NoJob && w.result == ResultPending
    requires NonePending(w.bus) && Hopeful(cfg, w)
    ensures MainFunction(cfg, w).calls == w.calls + 1
  {
    assert Effective(JobInHand(cfg, w), w.bus);
  }

  lemma ProcessWell(j: Job, b: Bus)
    requires AssertsHold(j, b) && SeqWell(j, b)
    ensures var o := Process(j, b);
            && o.rv in {SeqOk, SeqPending} && BusyPolls(o.bus.trace) == BusyPolls(b.trace)
            && (o.rv == SeqPending ==> SeqWell(o.job, o.bus))
            && (o.rv == SeqOk ==> o.bus == b && o.job.seq_ == j.seq_)
  {
    if Effective(j, b) {
      var j' := j.(initialOp := false);
      TransmitStarts(b.(src := 0, dst := ToStatus, len := 1, cmd := FLASH_RDSR), SeqCmd2);
      TransmitStarts(Armed(j', b, Min(j.left, j.chunk)), CommandOf(j.main));
    }
  }

  /** When a portion has been read, the sequence of the next one has ended well. */
  lemma NextPortionWell(cfg: Config, w: World)
    requires CompareCourse(cfg, w) && PortionSet(cfg, w.task.value, w) && w.bus.results[SeqWrsr] == SeqOk
    requires w.readJob.state == JobMain && w.readJob.main == NoJob
    ensures SeqWell(w.readJob, w.bus) && SeqWell(w.job, w.bus)
  {
  }

  lemma PortionHopeful(cfg: Config, w: World)
    requires DriverInv(cfg, w) && Comparing(cfg, w) && !w.firstTime && SeqWell(w.readJob, w.bus)
    requires AssertsHold(w.readJob, w.bus)
    ensures Hopeful(cfg, PortionMain(cfg, w)) && BusyPolls(PortionMain(cfg, w).bus.trace) == BusyPolls(w.bus.trace)
  {
    PortionProcessed(cfg, w);
    ProcessWell(w.readJob, w.bus);
    var o := Process(w.readJob, w.bus);
    if o.rv == SeqOk {
      NextPortionWell(cfg, Processed(w, o));
    }
  }

  lemma MainHopeful(cfg: Config, w: World)
    requires DriverInv(cfg, w) && Hopeful(cfg, w) && w.result == ResultPending && w.jobType != NoJob
    ensures Hopeful(cfg, MainFunction(cfg, w))
    ensures BusyPolls(MainFunction(cfg, w).bus.trace) == BusyPolls(w.bus.trace)
  {
    AssertsInHand(cfg, w);
    if w.jobType != CompareJob {
      ProcessWell(w.job, w.bus);
    } else if w.firstTime {
      PortionStarts(cfg, w);
      PortionHopeful(cfg, StartPortion(cfg, w));
    } else {
      PortionHopeful(cfg, w);
    }
  }

  lemma CompleteHopeful(cfg: Config, w: World, s: Sequence, c: Chance)
    requires BusOk(w.bus) && Hopeful(cfg, w)
    ensures Hopeful(cfg, w.(bus := Complete(w.bus, s, c)))
  {
    assert Complete(w.bus, s, c).results == w.bus.results[s := SeqOk];
  }

  /** A job that has not failed does not fail in a step in which no sequence fails. */
  lemma StepHopeful(cfg: Config, w: World, a: Action)
    requires DriverInv(cfg, w) && Hopeful(cfg, w) && w.status == Busy
    requires Enabled(cfg, w, a) && !a.SpiFail?
    ensures Hopeful(cfg, Do(cfg, w, a))
  {
    if a.DoMain? {
      if w.result == ResultPending && w.jobType != NoJob {
        MainHopeful(cfg, w);
      }
    } else {
      OthersHopeful(cfg, w, a);
    }
  }

  lemma OthersHopeful(cfg: Config, w: World, a: Action)
    requires BusOk(w.bus) && ValidList(cfg.sectors) && Hopeful(cfg, w) && w.status == Busy
    requires Enabled(cfg, w, a) && !a.SpiFail? && !a.DoMain?
    ensures Hopeful(cfg, Do(cfg, w, a))
  {
    if a.SpiComplete? {
      CompleteHopeful(cfg, w, a.seq_, a.chance);
    }
  }

  ghost predicate NoFailures(r: Run) {
    forall i :: 0 <= i < |r.acts| ==> !r.acts[i].SpiFail?
  }

  /** A compare starts with the sequence of the job before it. */
  ghost predicate SeqReady(w: World, rq: Request) {
    rq.kind == CompareJob ==> w.bus.results[w.job.seq_] == SeqOk
  }

  lemma {:induction false} RunHopeful(cfg: Config, r: Run, rq: Request, i: nat)
    requires JobRun(cfg, r, rq) && NoFailures(r) && SeqReady(r.ws[0], rq) && 0 < i < |r.ws|
    ensures Hopeful(cfg, r.ws[i])
  {
    if i == 1 {
      assert r.ws[1] == Do(cfg, r.ws[0], r.acts[0]);
    } else {
      RunHopeful(cfg, r, rq, i - 1);
      JobInv(cfg, r, rq, i - 1);
      StepHopeful(cfg, r.ws[i - 1], r.acts[i - 1]);
    }
  }

  // ----- the budget of a job -----

  /** The calls of MainFunction a request takes when the device is always found ready. */
  function JobCost(rq: Request, chunk: nat): nat
    requires 0 < chunk
  {
    if rq.kind == CompareJob then CompareCost(rq.length, chunk) else 2 * Chunks(rq.length, chunk) + 1
  }

  lemma TransferBudget(w: World)
    requires Running(w)
    ensures var t := w.task.value;
            w.calls + BusyPolls(t.trace0) < t.calls0 + 2 * Chunks(t.len, t.chunk) + 1 + BusyPolls(w.bus.trace)
  {
  }

  lemma CompareBudget(cfg: Config, w: World)
    requires Comparing(cfg, w)
    ensures var t := w.task.value;
            w.calls - w.retries + BusyPolls(t.trace0)
            < t.calls0 - t.retries0 + CompareCost(t.len, t.chunk) + BusyPolls(w.bus.trace)
  {
  }

  /** The calls a job has used, without those that found a portion different or the device busy. */
  function UsedCalls(r: Run, i: nat): int
    requires 0 <= i < |r.ws|
  {
    var w, w0 := r.ws[i], r.ws[0];
    (w.calls - w0.calls) - (w.retries - w0.retries) - (BusyPolls(w.bus.trace) - BusyPolls(w0.bus.trace))
  }

  /** Only compares retry. */
  lemma {:induction false} NoRetries(cfg: Config, r: Run, rq: Request, i: nat)
    requires JobRun(cfg, r, rq) && rq.kind != CompareJob && 0 < i < |r.ws|
    ensures r.ws[i].retries == r.ws[0].retries
  {
    JobInv(cfg, r, rq, 1);
    if 1 < i {
      NoRetries(cfg, r, rq, i - 1);
      JobInv(cfg, r, rq, i - 1);
      NoRetryStep(cfg, r.ws[i - 1], r.acts[i - 1]);
    }
  }

  lemma NoRetryStep(cfg: Config, w: World, a: Action)
    requires DriverInv(cfg, w) && w.status == Busy && Enabled(cfg, w, a)
    requires w.task.Some? && w.task.value.kind != CompareJob
    ensures Do(cfg, w, a).retries == w.retries
  {
    BusyHasTask(cfg, w);
  }

  /** A job still going on has not used up its calls. */
  lemma StillGoing(cfg: Config, r: Run, rq: Request, i: nat)
    requires JobRun(cfg, r, rq) && 0 < i < |r.ws| && r.ws[i].status == Busy && r.ws[i].result == ResultPending
    ensures 0 < ChunkOf(cfg, r.ws[0].fast, rq) && UsedCalls(r, i) < JobCost(rq, ChunkOf(cfg, r.ws[0].fast, rq))
  {
    RequestInside(cfg, r.ws[0], rq);
    JobInv(cfg, r, rq, i);
    if rq.kind == CompareJob {
      assert Comparing(cfg, r.ws[i]);
      CompareBudget(cfg, r.ws[i]);
    } else {
      NoRetries(cfg, r, rq, i);
      assert Running(r.ws[i]);
      TransferBudget(r.ws[i]);
    }
  }

  /** If no sequence fails, a job whose calls are used up has succeeded. */
  lemma JobsFinish(cfg: Config, r: Run, rq: Request)
    requires JobRun(cfg, r, rq) && NoFailures(r) && SeqReady(r.ws[0], rq)
    ensures 0 < ChunkOf(cfg, r.ws[0].fast, rq)
    ensures JobCost(rq, ChunkOf(cfg, r.ws[0].fast, rq)) <= UsedCalls(r, |r.ws| - 1) ==> Last(r).result == ResultOk
  {
    var m := |r.ws| - 1;
    RequestInside(cfg, r.ws[0], rq);
    JobInv(cfg, r, rq, m);
    RunHopeful(cfg, r, rq, m);
    if Last(r).result != ResultOk {
      assert !Resting(Last(r));
      StillGoing(cfg, r, rq, m);
    }
  }

  // ----- the verdict of a compare -----

  /** A call that finds a portion different is the one that begins or continues to hold the job up. */
  lemma RetryMain(cfg: Config, w: World)
    requires DriverInv(cfg, w) && Comparing(cfg, w)
    ensures var w' := MainFunction(cfg, w);
            w'.retries == w.retries || (w'.status == Busy && Stuck(cfg, w'))
  {
    StepKeeps(cfg, w, DoMain);
    if w.firstTime {
      PortionStarts(cfg, w);
      RetryPortion(cfg, StartPortion(cfg, w));
    } else {
      RetryPortion(cfg, w);
    }
  }

  lemma RetryPortion(cfg: Config, w: World)
    requires DriverInv(cfg, w) && Comparing(cfg, w) && !w.firstTime
    ensures var w' := PortionMain(cfg, w);
            w'.retries == w.retries || (Comparing(cfg, w') && Mismatched(w') && Differs(w'))
  {
    PortionProcessed(cfg, w);
    PortionMainKeeps(cfg, w);
    var o := Process(w.readJob, w.bus);
    if o.rv == SeqOk {
      PortionVerdict(cfg, Processed(w, o));
      RetryRead(cfg, Processed(w, o));
    }
  }

  lemma RetryRead(cfg: Config, w: World)
    requires w.jobType == CompareJob && !w.firstTime && w.readJob.main == NoJob
    ensures var w' := PortionRead(cfg, w);
            w'.retries == w.retries || (w' == w.(retries := w.retries + 1) && Mismatched(w'))
    ensures PortionRead(cfg, w).retries == w.retries <==>
            Bytes(w.bus.ram, cfg.compareBuffer, w.readSize) == Bytes(w.bus.ram, w.job.target, w.readSize)
  {
  }

  /** The portion is a part of the task, and of the caller's buffer as it is now. */
  lemma PortionInBuffer(cfg: Config, w: World)
    requires HeldUp(cfg, w)
    ensures w.task.Some?
    ensures var t := w.task.value;
            && t.ram <= w.job.target && w.job.target + w.readSize <= t.ram + t.len
            && w.job.addr - t.at == w.job.target - t.ram && w.bus.flash == t.flash0
            && SameWithin(w.bus.ram, t.ram0, w.job.target, w.readSize)
  {
    FinishedPortion(cfg, w);
  }

  lemma RetryStep(cfg: Config, w: World, a: Action)
    requires DriverInv(cfg, w) && Comparing(cfg, w) && Enabled(cfg, w, a)
    requires a.UseMemory? ==> SameWithin(a.ram, w.bus.ram, w.task.value.ram, w.task.value.len)
    ensures var w' := Do(cfg, w, a);
            && (w'.retries == w.retries || (Stuck(cfg, w')))
            && (Stuck(cfg, w) ==> Stuck(cfg, w'))
  {
    if a == DoMain {
      RetryMain(cfg, w);
    }
    if Stuck(cfg, w) {
      PortionInBuffer(cfg, w);
      StuckStep(cfg, w, a);
    }
  }

  /** In a compare whose buffer is left alone, a portion once found different holds the job up. */
  lemma {:induction false} RetriesHoldUp(cfg: Config, r: Run, rq: Request, i: nat)
    requires JobRun(cfg, r, rq) && rq.kind == CompareJob && BufferKept(r, rq.ptr, rq.length) && 0 < i < |r.ws|
    ensures r.ws[i].retries == r.ws[0].retries || (Stuck(cfg, r.ws[i]))
  {
    JobInv(cfg, r, rq, 1);
    if 1 < i {
      RetriesHoldUp(cfg, r, rq, i - 1);
      JobInv(cfg, r, rq, i - 1);
      BusyHasTask(cfg, r.ws[i - 1]);
      assert Comparing(cfg, r.ws[i - 1]);
      RetryStep(cfg, r.ws[i - 1], r.acts[i - 1]);
    }
  }

  /** Equal bytes never hold the job up. */
  lemma EqualNeverHeld(cfg: Config, r: Run, rq: Request, i: nat)
    requires JobRun(cfg, r, rq) && rq.kind == CompareJob && BufferKept(r, rq.ptr, rq.length) && 0 < i < |r.ws|
    requires Equal(r.ws[0].bus.flash, rq.addr, r.ws[0].bus.ram, rq.ptr, rq.length)
    ensures !(Stuck(cfg, r.ws[i]))
  {
    JobInv(cfg, r, rq, i);
    BufferStays(cfg, r, rq, i);
    EqualSame(r.ws[0].bus.flash, rq.addr, r.ws[0].bus.ram, r.ws[i].bus.ram, rq.ptr, rq.length);
    if HeldUp(cfg, r.ws[i]) {
      PortionInBuffer(cfg, r.ws[i]);
      EqualPortion(r.ws[i], rq.addr, rq.ptr, rq.length);
    }
  }

  lemma EqualPortion(w: World, at: nat, ptr: nat, n: nat)
    requires Equal(w.bus.flash, at, w.bus.ram, ptr, n)
    requires ptr <= w.job.target && w.job.target + w.readSize <= ptr + n && w.job.addr - at == w.job.target - ptr
    ensures !Differs(w)
  {
    EqualPart(w.bus.flash, at, w.bus.ram, ptr, n, w.job.target - ptr, w.readSize);
  }

  /** A part of two equal ranges. */
  lemma EqualPart(flash: seq<Byte>, at: nat, mem: seq<Byte>, ram: nat, n: nat, k: nat, m: nat)
    requires Equal(flash, at, mem, ram, n) && k + m <= n
    ensures Equal(flash, at + k, mem, ram + k, m)
  {
    forall i | at + k <= i < at + k + m ensures flash[i] == mem[ram + k + (i - (at + k))] {
      assert flash[i] == mem[ram + (i - at)];
    }
  }

  /** The verdict of a compare whose buffer is left alone and in which no sequence fails: once
      its calls are used up, not counting those that found a difference, it has succeeded if
      the bytes are equal, and is held up at a differing portion if they are not. */
  lemma CompareVerdict(cfg: Config, r: Run, rq: Request)
    requires JobRun(cfg, r, rq) && rq.kind == CompareJob && NoFailures(r) && SeqReady(r.ws[0], rq)
    requires BufferKept(r, rq.ptr, rq.length)
    requires 0 < ChunkOf(cfg, r.ws[0].fast, rq)
    requires JobCost(rq, ChunkOf(cfg, r.ws[0].fast, rq))
             <= Last(r).calls - r.ws[0].calls - (BusyPolls(Last(r).bus.trace) - BusyPolls(r.ws[0].bus.trace))
    ensures if Equal(r.ws[0].bus.flash, rq.addr, r.ws[0].bus.ram, rq.ptr, rq.length)
            then Last(r).result == ResultOk else Stuck(cfg, Last(r))
  {
    var m := |r.ws| - 1;
    RetriesHoldUp(cfg, r, rq, m);
    if Equal(r.ws[0].bus.flash, rq.addr, r.ws[0].bus.ram, rq.ptr, rq.length) {
      EqualNeverHeld(cfg, r, rq, m);
      JobsFinish(cfg, r, rq);
    } else if Last(r).result == ResultOk {
      CompareOkMeansEqual(cfg, r, rq);
    } else {
      JobsFinish(cfg, r, rq);
    }
  }

  // ----- a prompt environment -----

  /** In a job that has not failed. */
  ghost predicate Going(cfg: Config, w: World) {
    DriverInv(cfg, w) && Hopeful(cfg, w) && w.status == Busy && w.result == ResultPending && w.task.Some?
  }

  /** `r'` goes on where `r` stops, with calls and the environment only, and without a failure. */
  ghost predicate PromptlyExtends(r: Run, r': Run) {
    && |r.ws| == |r.acts| + 1 && |r'.ws| == |r'.acts| + 1 && |r.acts| <= |r'.acts|
    && r.ws == r'.ws[..|r.ws|] && r.acts == r'.acts[..|r.acts|]
    && forall i :: |r.acts| <= i < |r'.acts| ==> !r'.acts[i].UseMemory? && !r'.acts[i].SpiFail?
  }

  lemma ExtendsTwice(r: Run, r': Run, r'': Run)
    requires PromptlyExtends(r, r') && PromptlyExtends(r', r'')
    ensures PromptlyExtends(r, r'')
  {
    assert r''.ws[..|r'.ws|][..|r.ws|] == r''.ws[..|r.ws|];
    assert r''.acts[..|r'.acts|][..|r.acts|] == r''.acts[..|r.acts|];
    forall i | |r.acts| <= i < |r''.acts| ensures !r''.acts[i].UseMemory? && !r''.acts[i].SpiFail? {
      if i < |r'.acts| {
        assert r'.acts[i] == r''.acts[i];
      }
    }
  }

  lemma ExtendPromptly(cfg: Config, r: Run, rq: Request, a: Action)
    requires JobRun(cfg, r, rq) && Last(r).status == Busy && BusOk(Last(r).bus) && Enabled(cfg, Last(r), a)
    requires !a.UseMemory? && !a.SpiFail?
    ensures JobRun(cfg, Extended(cfg, r, a), rq) && Last(Extended(cfg, r, a)) == Do(cfg, Last(r), a)
    ensures PromptlyExtends(r, Extended(cfg, r, a))
  {
    ExtendRun(cfg, r, rq, a);
  }

  /** The device finishes its work. */
  lemma PromptSettle(cfg: Config, w: World)
    requires DriverInv(cfg, w) && Hopeful(cfg, w)
    ensures var w' := Do(cfg, w, DeviceReady);
            && DriverInv(cfg, w') && Hopeful(cfg, w')
            && w' == w.(bus := w'.bus)
            && w'.bus.op == Idle && w'.bus.results == w.bus.results && w'.bus.trace == w.bus.trace
  {
    StepKeeps(cfg, w, DeviceReady);
  }

  /** The one pending sequence completes, while the device is idle. */
  lemma PromptComplete(cfg: Config, w: World, s: Sequence)
    requires Going(cfg, w) && w.bus.results[s] == SeqPending && w.bus.op == Idle
    ensures var a := SpiComplete(s, Chance(0, []));
            && Enabled(cfg, w, a)
            && var w' := Do(cfg, w, a);
               Going(cfg, w') && NonePending(w'.bus)
               && w' == w.(bus := w'.bus) && BusyPolls(w'.bus.trace) == BusyPolls(w.bus.trace)
  {
    assert !LowBit(0);
    StepKeeps(cfg, w, SpiComplete(s, Chance(0, [])));
    CompleteHopeful(cfg, w, s, Chance(0, []));
    CompleteIdle(w.bus, s);
  }

  lemma CompleteIdle(b: Bus, s: Sequence)
    requires BusOk(b) && AtMostOnePending(b) && b.results[s] == SeqPending && b.op == Idle
    ensures var b' := Complete(b, s, Chance(0, []));
            NonePending(b') && BusyPolls(b'.trace) == BusyPolls(b.trace)
  {
    assert Complete(b, s, Chance(0, [])).results == b.results[s := SeqOk];
    assert forall x: Sequence :: b.results[x] == SeqPending ==> x == s;
  }

  /** The environment ends what is pending. */
  lemma Flushed(cfg: Config, r: Run, rq: Request) returns (r': Run)
    requires JobRun(cfg, r, rq) && Going(cfg, Last(r))
    ensures JobRun(cfg, r', rq) && PromptlyExtends(r, r')
    ensures Going(cfg, Last(r')) && NonePending(Last(r').bus)
    ensures Last(r') == Last(r).(bus := Last(r').bus) && BusyPolls(Last(r').bus.trace) == BusyPolls(Last(r).bus.trace)
  {
    r' := r;
    if !NonePending(Last(r).bus) {
      var s: Sequence :| Last(r).bus.results[s] == SeqPending;
      var settled := SettledRun(cfg, r, rq);
      r' := CompletedRun(cfg, settled, rq, s);
      ExtendsTwice(r, settled, r');
    }
  }

  lemma SettledRun(cfg: Config, r: Run, rq: Request) returns (r': Run)
    requires JobRun(cfg, r, rq) && Going(cfg, Last(r))
    ensures JobRun(cfg, r', rq) && PromptlyExtends(r, r') && Going(cfg, Last(r'))
    ensures Last(r') == Last(r).(bus := Last(r').bus) && Last(r').bus.op == Idle
    ensures Last(r').bus.trace == Last(r).bus.trace && Last(r').bus.results == Last(r).bus.results
  {
    PromptSettle(cfg, Last(r));
    ExtendPromptly(cfg, r, rq, DeviceReady);
    r' := Extended(cfg, r, DeviceReady);
  }

  lemma CompletedRun(cfg: Config, r: Run, rq: Request, s: Sequence) returns (r': Run)
    requires JobRun(cfg, r, rq) && Going(cfg, Last(r))
    requires Last(r).bus.results[s] == SeqPending && Last(r).bus.op == Idle
    ensures JobRun(cfg, r', rq) && PromptlyExtends(r, r') && Going(cfg, Last(r')) && NonePending(Last(r').bus)
    ensures Last(r') == Last(r).(bus := Last(r').bus) && BusyPolls(Last(r').bus.trace) == BusyPolls(Last(r).bus.trace)
  {
    PromptComplete(cfg, Last(r), s);
    ExtendPromptly(cfg, r, rq, SpiComplete(s, Chance(0, [])));
    r' := Extended(cfg, r, SpiComplete(s, Chance(0, [])));
  }

  /** A call that gets the job ahead, or finds a difference. */
  lemma PromptCall(cfg: Config, w: World)
    requires Going(cfg, w) && NonePending(w.bus)
    ensures var w' := Do(cfg, w, DoMain);
            && w'.calls == w.calls + 1 && w'.task == w.task
            && BusyPolls(w'.bus.trace) == BusyPolls(w.bus.trace)
            && (w'.retries == w.retries || Stuck(cfg, w'))
            && (if w'.status == Busy then Going(cfg, w') else w'.result == ResultOk)
  {
    StepKeeps(cfg, w, DoMain);
    CallIsEffective(cfg, w);
    MainHopeful(cfg, w);
    OthersKeepTask(cfg, w, DoMain);
    CallRetries(cfg, w);
    AfterMain(cfg, Do(cfg, w, DoMain));
  }

  lemma CallRetries(cfg: Config, w: World)
    requires Going(cfg, w)
    ensures MainFunction(cfg, w).retries == w.retries || Stuck(cfg, MainFunction(cfg, w))
  {
    if w.task.value.kind == CompareJob {
      BusyCompares(cfg, w);
      RetryMain(cfg, w);
    } else {
      NoRetryStep(cfg, w, DoMain);
    }
  }

  lemma AfterMain(cfg: Config, w: World)
    requires DriverInv(cfg, w) && Hopeful(cfg, w) && w.task.Some?
    ensures if w.status == Busy then w.result == ResultPending else w.result == ResultOk || w.result == ResultFailed
  {
  }

  /** The environment ends what is pending, then MainFunction is called. */
  lemma PromptRound(cfg: Config, r: Run, rq: Request) returns (r': Run)
    requires JobRun(cfg, r, rq) && Going(cfg, Last(r))
    ensures JobRun(cfg, r', rq) && PromptlyExtends(r, r') && r'.ws[0] == r.ws[0]
    ensures Last(r').task == Last(r).task
    ensures Last(r').result == ResultOk || Stuck(cfg, Last(r'))
            || (Going(cfg, Last(r')) && UsedCalls(r', |r'.ws| - 1) == UsedCalls(r, |r.ws| - 1) + 1)
  {
    var f := Flushed(cfg, r, rq);
    r' := Called(cfg, f, rq);
    ExtendsTwice(r, f, r');
    SameStart(r, f);
    SameStart(f, r');
  }

  lemma Called(cfg: Config, r: Run, rq: Request) returns (r': Run)
    requires JobRun(cfg, r, rq) && Going(cfg, Last(r)) && NonePending(Last(r).bus)
    ensures JobRun(cfg, r', rq) && PromptlyExtends(r, r')
    ensures Last(r').task == Last(r).task && Last(r').calls == Last(r).calls + 1
    ensures BusyPolls(Last(r').bus.trace) == BusyPolls(Last(r).bus.trace)
    ensures Last(r').result == ResultOk || Stuck(cfg, Last(r'))
            || (Going(cfg, Last(r')) && Last(r').retries == Last(r).retries)
  {
    PromptCall(cfg, Last(r));
    ExtendPromptly(cfg, r, rq, DoMain);
    r' := Extended(cfg, r, DoMain);
  }

  lemma SameStart(r: Run, r': Run)
    requires PromptlyExtends(r, r')
    ensures r'.ws[0] == r.ws[0]
  {
    assert r.ws[0] == r'.ws[..|r.ws|][0];
  }

  /** What is left of the budget. */
  function Remaining(cfg: Config, r: Run, rq: Request): int
    requires 0 < |r.ws| && 0 < ChunkOf(cfg, r.ws[0].fast, rq)
  {
    JobCost(rq, ChunkOf(cfg, r.ws[0].fast, rq)) - UsedCalls(r, |r.ws| - 1)
  }

  /** If the environment ends each sequence and each busy time before the next call, a job that
      is going on succeeds, or is held up at a portion that differs. */
  lemma {:induction false} PromptRun(cfg: Config, r: Run, rq: Request) returns (r': Run)
    requires JobRun(cfg, r, rq) && Going(cfg, Last(r)) && 0 < ChunkOf(cfg, r.ws[0].fast, rq)
    ensures JobRun(cfg, r', rq) && PromptlyExtends(r, r') && Last(r').task == Last(r).task
    ensures Last(r').result == ResultOk || Stuck(cfg, Last(r'))
    decreases Remaining(cfg, r, rq)
  {
    RemainingPositive(cfg, r, rq);
    r' := PromptRound(cfg, r, rq);
    if Last(r').result != ResultOk && !Stuck(cfg, Last(r')) {
      var next := r';
      r' := PromptRun(cfg, next, rq);
      ExtendsTwice(r, next, r');
    }
  }

  /** The bytes a compare has found equal, and those it has still to compare, are equal. */
  ghost predicate MeetsEqual(t: Task) {
    t.kind == CompareJob ==> Equal(t.flash0, t.at, t.ram0, t.ram, t.len)
  }

  /** Then no portion differs. */
  lemma EqualAhead(cfg: Config, w: World)
    requires HeldUp(cfg, w) && w.task.Some? && MeetsEqual(w.task.value)
    ensures !Differs(w)
  {
    FinishedPortion(cfg, w);
    var t := w.task.value;
    PortionInBuffer(cfg, w);
    EqualPart(t.flash0, t.at, t.ram0, t.ram, t.len, w.job.target - t.ram, w.readSize);
    EqualSame(t.flash0, w.job.addr, t.ram0, w.bus.ram, w.job.target, w.readSize);
  }

  /** Every job that is going on, and meets no difference, can still succeed. */
  lemma CanStillSucceed(cfg: Config, r: Run, rq: Request) returns (r': Run)
    requires JobRun(cfg, r, rq) && Going(cfg, Last(r)) && MeetsEqual(Last(r).task.value)
    requires 0 < ChunkOf(cfg, r.ws[0].fast, rq)
    ensures JobRun(cfg, r', rq) && PromptlyExtends(r, r') && Last(r').result == ResultOk
  {
    r' := PromptRun(cfg, r, rq);
    if Stuck(cfg, Last(r')) {
      EqualAhead(cfg, Last(r'));
    }
  }

  lemma RemainingPositive(cfg: Config, r: Run, rq: Request)
    requires JobRun(cfg, r, rq) && Last(r).status == Busy && Last(r).result == ResultPending
    requires 0 < ChunkOf(cfg, r.ws[0].fast, rq)
    ensures 0 < Remaining(cfg, r, rq)
  {
    StillGoing(cfg, r, rq, |r.ws| - 1);
  }

  // ----- which jobs can succeed -----

  /** What it takes for a job to succeed: a compare needs equal bytes, and a good end of the
      sequence of the job before it. */
  ghost predicate CanSucceed(w: World, rq: Request) {
    && SeqReady(w, rq)
    && (rq.kind == CompareJob ==> Equal(w.bus.flash, rq.addr, w.bus.ram, rq.ptr, rq.length))
  }

  function Started(cfg: Config, w: World, rq: Request): Run {
    Run([w, Recorded(cfg, w, rq)], [DoCall(rq)])
  }

  /** The run that only consists of the accepted call. */
  lemma AcceptedRun(cfg: Config, w: World, rq: Request)
    requires DriverInv(cfg, w) && Accepts(cfg, w, rq) && ProperRequest(cfg, w, rq) && SeqReady(w, rq)
    ensures JobRun(cfg, Started(cfg, w, rq), rq)
    ensures Going(cfg, Recorded(cfg, w, rq)) && NonePending(w.bus)
    ensures CanSucceed(w, rq) ==> MeetsEqual(Recorded(cfg, w, rq).task.value)
    ensures 0 < ChunkOf(cfg, w.fast, rq)
  {
    ReadyIsAtRest(cfg, w);
    StepKeeps(cfg, w, DoCall(rq));
    RequestInside(cfg, w, rq);
  }

  /** Every accepted job that can succeed does succeed in some run, without the application
      touching memory. */
  lemma EveryJobCanFinish(cfg: Config, w: World, rq: Request) returns (r: Run)
    requires DriverInv(cfg, w) && Accepts(cfg, w, rq) && ProperRequest(cfg, w, rq) && CanSucceed(w, rq)
    ensures JobRun(cfg, r, rq) && r.ws[0] == w && Last(r).result == ResultOk
    ensures PromptlyExtends(Started(cfg, w, rq), r)
  {
    AcceptedRun(cfg, w, rq);
    r := CanStillSucceed(cfg, Started(cfg, w, rq), rq);
    assert r.ws[0] == Started(cfg, w, rq).ws[0];
  }

  /** An accepted compare of different bytes gets to the portion that holds it up. */
  lemma DifferenceIsMet(cfg: Config, w: World, rq: Request) returns (r: Run)
    requires DriverInv(cfg, w) && Accepts(cfg, w, rq) && ProperRequest(cfg, w, rq) && rq.kind == CompareJob
    requires SeqReady(w, rq) && !Equal(w.bus.flash, rq.addr, w.bus.ram, rq.ptr, rq.length)
    ensures JobRun(cfg, r, rq) && r.ws[0] == w && Stuck(cfg, Last(r))
    ensures PromptlyExtends(Started(cfg, w, rq), r)
  {
    AcceptedRun(cfg, w, rq);
    r := PromptRun(cfg, Started(cfg, w, rq), rq);
    SameStart(Started(cfg, w, rq), r);
    if Last(r).result == ResultOk {
      NobodyTouches(cfg, w, r, rq);
      CompareOkMeansEqual(cfg, r, rq);
    }
  }

  /** A read, write or erase job under way can still succeed if and only if none of its
      sequences has failed. */
  lemma TransferSucceedsIff(cfg: Config, r: Run, rq: Request)
    requires JobRun(cfg, r, rq) && rq.kind in {ReadJob, WriteJob, EraseJob} && Last(r).status == Busy
    ensures (exists r': Run :: JobRun(cfg, r', rq) && Prefix(r, r') && Last(r').result == ResultOk) <==> NoFailures(r)
  {
    if NoFailures(r) {
      var m := |r.ws| - 1;
      RunHopeful(cfg, r, rq, m);
      JobInv(cfg, r, rq, m);
      BusyHasTask(cfg, Last(r));
      RequestInside(cfg, r.ws[0], rq);
      var r' := CanStillSucceed(cfg, r, rq);
      assert Prefix(r, r');
    }
    forall r': Run | JobRun(cfg, r', rq) && Prefix(r, r') && Last(r').result == ResultOk ensures NoFailures(r) {
      FailedPrefix(cfg, r, r', rq);
    }
  }

  ghost predicate Prefix(r: Run, r': Run) {
    r.ws <= r'.ws && r.acts <= r'.acts
  }

  lemma FailedPrefix(cfg: Config, r: Run, r': Run, rq: Request)
    requires JobRun(cfg, r', rq) && rq.kind != CompareJob && Prefix(r, r') && Last(r').result == ResultOk
    ensures NoFailures(r)
  {
    forall k | 0 <= k < |r.acts| ensures !r.acts[k].SpiFail? {
      assert r.acts[k] == r'.acts[k];
      if r'.acts[k].SpiFail? {
        FailedJobIsLost(cfg, r', rq, k, |r'.ws| - 1);
      }
    }
  }

  /** A compare job whose caller leaves the buffer alone can reach success if and only if the
      bytes are equal and the sequence of the job before it ended well. */
  lemma CompareSucceedsIff(cfg: Config, w: World, rq: Request)
    requires DriverInv(cfg, w) && Accepts(cfg, w, rq) && ProperRequest(cfg, w, rq) && rq.kind == CompareJob
    ensures (exists r: Run ::
               JobRun(cfg, r, rq) && r.ws[0] == w && BufferKept(r, rq.ptr, rq.length) && Last(r).result == ResultOk)
            <==> CanSucceed(w, rq)
  {
    if CanSucceed(w, rq) {
      var r := EveryJobCanFinish(cfg, w, rq);
      NobodyTouches(cfg, w, r, rq);
    }
    forall r: Run | JobRun(cfg, r, rq) && r.ws[0] == w && BufferKept(r, rq.ptr, rq.length) && Last(r).result == ResultOk
      ensures CanSucceed(w, rq)
    {
      CompareOkMeansEqual(cfg, r, rq);
      StaleNeverSucceeds(cfg, r, rq, |r.ws| - 1);
    }
  }

  lemma NobodyTouches(cfg: Config, w: World, r: Run, rq: Request)
    requires PromptlyExtends(Started(cfg, w, rq), r)
    ensures BufferKept(r, rq.ptr, rq.length)
  {
    forall i | 0 <= i < |r.acts| ensures !r.acts[i].UseMemory? {
      if i == 0 {
        assert r.acts[0] == Started(cfg, w, rq).acts[0];
      }
    }
  }

  /** If the caller may also change the buffer, the sequence of the job before it alone decides. */
  lemma AnyCompareSucceedsIff(cfg: Config, w: World, rq: Request)
    requires DriverInv(cfg, w) && Accepts(cfg, w, rq) && ProperRequest(cfg, w, rq) && rq.kind == CompareJob
    ensures (exists r: Run :: JobRun(cfg, r, rq) && r.ws[0] == w && Last(r).result == ResultOk) <==> SeqReady(w, rq)
  {
    if SeqReady(w, rq) {
      var r := ComparedAfterCopy(cfg, w, rq);
      assert JobRun(cfg, r, rq) && r.ws[0] == w;
    }
    forall r: Run | JobRun(cfg, r, rq) && r.ws[0] == w && Last(r).result == ResultOk ensures SeqReady(w, rq) {
      StaleNeverSucceeds(cfg, r, rq, |r.ws| - 1);
    }
  }

  /** The caller makes the buffer equal to the flash, and the job succeeds. */
  lemma ComparedAfterCopy(cfg: Config, w: World, rq: Request) returns (r: Run)
    requires DriverInv(cfg, w) && Accepts(cfg, w, rq) && ProperRequest(cfg, w, rq) && rq.kind == CompareJob
    requires SeqReady(w, rq)
    ensures JobRun(cfg, r, rq) && r.ws[0] == w && Last(r).result == ResultOk
  {
    AcceptedRun(cfg, w, rq);
    RequestInside(cfg, w, rq);
    var ram := Splice(w.bus.ram, rq.ptr, w.bus.flash[rq.addr..rq.addr + rq.length]);
    CopyGoesOn(cfg, w, rq, ram);
    ExtendRun(cfg, Started(cfg, w, rq), rq, UseMemory(ram));
    var s := Extended(cfg, Started(cfg, w, rq), UseMemory(ram));
    r := CanStillSucceed(cfg, s, rq);
    SameStart(s, r);
  }

  lemma CopyGoesOn(cfg: Config, w: World, rq: Request, ram: seq<Byte>)
    requires DriverInv(cfg, w) && Accepts(cfg, w, rq) && ProperRequest(cfg, w, rq) && rq.kind == CompareJob
    requires SeqReady(w, rq) && rq.addr + rq.length <= |w.bus.flash|
    requires ram == Splice(w.bus.ram, rq.ptr, w.bus.flash[rq.addr..rq.addr + rq.length])
    ensures var w1 := Recorded(cfg, w, rq);
            && w1.status == Busy && BusOk(w1.bus) && Enabled(cfg, w1, UseMemory(ram))
            && Going(cfg, Do(cfg, w1, UseMemory(ram))) && MeetsEqual(Do(cfg, w1, UseMemory(ram)).task.value)
  {
    AcceptedRun(cfg, w, rq);
    StepKeeps(cfg, Recorded(cfg, w, rq), UseMemory(ram));
    CopyMeetsEqual(cfg, w, rq, ram);
  }

  lemma CopyMeetsEqual(cfg: Config, w: World, rq: Request, ram: seq<Byte>)
    requires rq.kind == CompareJob && rq.addr + rq.length <= |w.bus.flash| && rq.ptr + rq.length <= |w.bus.ram|
    requires rq.ptr + rq.length <= cfg.compareBuffer || cfg.compareBuffer + CMP_BUFF_SIZE <= rq.ptr
    requires ram == Splice(w.bus.ram, rq.ptr, w.bus.flash[rq.addr..rq.addr + rq.length])
    ensures Enabled(cfg, Recorded(cfg, w, rq), UseMemory(ram))
    ensures var w' := Used(Recorded(cfg, w, rq), ram); w'.task.Some? && MeetsEqual(w'.task.value)
  {
    CopyIsEqual(w.bus.flash, rq.addr, w.bus.ram, rq.ptr, rq.length);
    assert Used(Recorded(cfg, w, rq), ram).task.value.ram0 == ram;
  }

  lemma CopyIsEqual(flash: seq<Byte>, at: nat, ram: seq<Byte>, ptr: nat, n: nat)
    requires at + n <= |flash| && ptr + n <= |ram|
    ensures Equal(flash, at, Splice(ram, ptr, flash[at..at + n]), ptr, n)
  {
    var data := flash[at..at + n];
    forall k | at <= k < at + n ensures flash[k] == Splice(ram, ptr, data)[ptr + (k - at)] {
      assert data[k - at] == flash[k];
    }
  }

  /** A compare job that meets a failed sequence never succeeds. */
  lemma StaleNeverSucceeds(cfg: Config, r: Run, rq: Request, i: nat)
    requires JobRun(cfg, r, rq) && rq.kind == CompareJob && 0 < i < |r.ws|
    requires r.ws[i].result == ResultOk
    ensures r.ws[0].bus.results[r.ws[0].job.seq_] == SeqOk
  {
    if r.ws[0].bus.results[r.ws[0].job.seq_] != SeqOk {
      StaleUpTo(cfg, r, rq, i);
    }
  }

  lemma {:induction false} StaleUpTo(cfg: Config, r: Run, rq: Request, i: nat)
    requires JobRun(cfg, r, rq) && rq.kind == CompareJob && 0 < i < |r.ws|
    requires r.ws[0].bus.results[r.ws[0].job.seq_] != SeqOk
    ensures var w := r.ws[i];
            && w.result != ResultOk
            && (w.status == Busy ==> StaleStart(w))
  {
    JobInv(cfg, r, rq, i);
    if i == 1 {
      assert r.ws[1] == Do(cfg, r.ws[0], r.acts[0]);
    } else {
      StaleUpTo(cfg, r, rq, i - 1);
      JobInv(cfg, r, rq, i - 1);
      StaleStep(cfg, r.ws[i - 1], r.acts[i - 1]);
    }
  }

  /** A compare job before its first call, with a failed sequence. */
  predicate StaleStart(w: World) {
    && w.jobType == CompareJob && w.firstTime && w.result == ResultPending
    && !w.job.initialOp && w.bus.results[w.job.seq_] in {SeqFailed, SeqCancelled} && NonePending(w.bus)
  }

  lemma StaleStep(cfg: Config, w: World, a: Action)
    requires DriverInv(cfg, w) && w.status == Busy && StaleStart(w) && Enabled(cfg, w, a)
    ensures var w' := Do(cfg, w, a); w'.result != ResultOk && (w'.status == Busy ==> StaleStart(w'))
  {
  }
}
