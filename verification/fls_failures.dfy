/** What failing sequences do to the driver. */
module FlsFailures {
  import opened Memory
  import opened Sectors
  import opened SpiFlash
  import opened FlsSpec
  import opened FlsTransfer
  import opened FlsHistory
  import opened FlsInvariant
  import opened FlsRuns

  lemma LockedStep(cfg: Config, w: World, a: Action)
    requires DriverInv(cfg, w) && Locked(w) && Enabled(cfg, w, a)
    ensures Locked(Do(cfg, w, a)) && Do(cfg, w, a).bus.trace == w.bus.trace
  {
    if a.UseMemory? {
      UseLocked(w, a.ram);
    }
  }

  lemma LockedNext(cfg: Config, r: Run, i: nat)
    requires ValidRun(cfg, r) && i < |r.acts| && DriverInv(cfg, r.ws[i]) && Locked(r.ws[i])
    ensures Locked(r.ws[i + 1]) && r.ws[i + 1].bus.trace == r.ws[i].bus.trace
  {
    LockedStep(cfg, r.ws[i], r.acts[i]);
  }

  /** Up to state `n` the driver is locked, with nothing new on the bus. */
  ghost predicate LockedUpTo(r: Run, n: nat)
    requires n < |r.ws|
  {
    forall i :: 0 <= i <= n ==>
      && Locked(r.ws[i]) && r.ws[i].status == Busy && r.ws[i].result == ResultFailed
      && r.ws[i].bus.trace == r.ws[0].bus.trace
  }

  /** After a failed read, write or erase job the driver never leaves the busy state,
      accepts no job and sends nothing. */
  lemma {:induction false} FailureIsForever(cfg: Config, r: Run, n: nat)
    requires ValidRun(cfg, r) && DriverInv(cfg, r.ws[0]) && n < |r.ws| && Locked(r.ws[0])
    ensures LockedUpTo(r, n)
  {
    if 0 < n {
      FailureIsForever(cfg, r, n - 1);
      InvAt(cfg, r, n - 1);
      LockedNext(cfg, r, n - 1);
    }
  }

  // ----- how a job gets there -----

  /** A read, write or erase job whose awaited sequence has failed. */
  ghost predicate Doomed(w: World) {
    Running(w) && !w.job.initialOp && w.bus.results[w.job.seq_] in {SeqFailed, SeqCancelled} && NonePending(w.bus)
  }

  lemma AwaitsPending(t: Task, j: Job, b: Bus, s: Sequence)
    requires TransferInv(t, j, b) && b.results[s] == SeqPending
    ensures s == j.seq_ && !j.initialOp && OnlyPending(b, s)
  {
  }

  /** A failing sequence dooms the job. */
  lemma FailureDooms(cfg: Config, w: World, s: Sequence, res: SeqResult, c: Chance)
    requires DriverInv(cfg, w) && Running(w) && Enabled(cfg, w, SpiFail(s, res, c))
    ensures Doomed(Do(cfg, w, SpiFail(s, res, c)))
  {
    AwaitsPending(w.task.value, w.job, w.bus, s);
    PendingMeansTransfer(cfg, w, s);
    FailureKeeps(w.task.value, w.job, w.bus, s, res, c);
    FailureHistory(w.task.value, w.job, w.bus, w.calls, s, res, c);
    assert Fail(w.bus, s, res, c).results == w.bus.results[s := res];
  }

  /** The next call of MainFunction locks the driver; nothing else saves the job. */
  lemma DoomedStep(cfg: Config, w: World, a: Action)
    requires DriverInv(cfg, w) && Doomed(w) && Enabled(cfg, w, a)
    ensures if a == DoMain then Locked(Do(cfg, w, a)) else Doomed(Do(cfg, w, a))
  {
    if a == DoMain {
      DoomedMain(w);
      StepKeeps(cfg, w, a);
    } else if a.UseMemory? {
      UseInJob(cfg, w, a.ram);
    } else if a.DeviceReady? {
      SettleKeeps(w.task.value, w.job, w.bus);
      SettleHistory(w.task.value, w.job, w.bus, w.calls);
    }
  }

  lemma DoomedMain(w: World)
    requires Doomed(w)
    ensures var w' := TransferMain(w); w'.status == Busy && w'.result == ResultFailed
  {
  }

  /** From after state `k` up to state `i` the job is lost: doomed, or the driver locked. */
  ghost predicate LostUpTo(r: Run, k: nat, i: nat)
    requires i < |r.ws|
  {
    forall j :: k < j <= i ==> Doomed(r.ws[j]) || Locked(r.ws[j])
  }

  lemma LostNext(cfg: Config, r: Run, rq: Request, k: nat, i: nat)
    requires JobRun(cfg, r, rq) && k < i < |r.acts| && LostUpTo(r, k, i)
    ensures LostUpTo(r, k, i + 1)
  {
    JobInvariant(cfg, r, rq, i);
    if Doomed(r.ws[i]) {
      DoomedStep(cfg, r.ws[i], r.acts[i]);
    } else {
      LockedStep(cfg, r.ws[i], r.acts[i]);
    }
  }

  lemma FailureDoomsNext(cfg: Config, r: Run, rq: Request, k: nat)
    requires JobRun(cfg, r, rq) && rq.kind != CompareJob && 0 < k < |r.acts| && r.acts[k].SpiFail?
    ensures LostUpTo(r, k, k + 1)
  {
    JobInv(cfg, r, rq, k);
    var a := r.acts[k];
    TransferPendingRuns(cfg, r.ws[k], a.seq_);
    FailureDooms(cfg, r.ws[k], a.seq_, a.res, a.chance);
  }

  lemma TransferPendingRuns(cfg: Config, w: World, s: Sequence)
    requires DriverInv(cfg, w) && w.bus.results[s] == SeqPending
    requires w.task.Some? && w.task.value.kind != CompareJob
    ensures Running(w)
  {
    PendingMeansTransfer(cfg, w, s);
  }

  /** Once a sequence has failed in a read, write or erase job, the job waits for the call that
      locks the driver, or the driver is locked. */
  lemma {:induction false} FailedJobIsLost(cfg: Config, r: Run, rq: Request, k: nat, i: nat)
    requires JobRun(cfg, r, rq) && rq.kind != CompareJob && k < |r.acts| && r.acts[k].SpiFail? && k < i < |r.ws|
    ensures LostUpTo(r, k, i)
  {
    if i == k + 1 {
      FailureDoomsNext(cfg, r, rq, k);
    } else {
      FailedJobIsLost(cfg, r, rq, k, i - 1);
      LostNext(cfg, r, rq, k, i - 1);
    }
  }

  // ----- compare jobs -----

  /** Whether a compare job reads anything hangs on the sequence of the job before it: the
      first call fails at once exactly when that sequence has not ended well. Such a
      failure leaves the sequence as it was, so the next compare meets it again. */
  lemma StaleFailure(cfg: Config, w: World, rq: Request)
    requires DriverInv(cfg, w) && Accepts(cfg, w, rq) && ProperRequest(cfg, w, rq) && rq.kind == CompareJob
    ensures var w' := MainFunction(cfg, Call(cfg, w, rq));
            && (w'.result == ResultFailed <==> w.bus.results[w.job.seq_] != SeqOk)
            && (w'.result == ResultFailed ==> w'.status == Ready && w'.bus == w.bus && w'.job.seq_ == w.job.seq_)
  {
  }

  /** A call of MainFunction that sends the first chunk of a job or of a portion. */
  lemma SendsFirst(j: Job, b: Bus)
    requires BusOk(b) && NonePending(b) && b.op == Idle && Effective(j, b)
    requires j.state == JobMain && j.main != NoJob && 0 < j.left && j.addr + j.left <= DEVICE_SPACE
    ensures var o := Process(j, b);
            && o.rv == SeqPending && o.job.seq_ == CommandOf(j.main) && !o.job.initialOp && o.job.state == JobReadStatus
            && OnlyPending(o.bus, CommandOf(j.main)) && |o.bus.addr| == 3
            && (j.main in {ReadJob, CompareJob} ==>
                  o.bus.trace == Then(b.trace, Sent(SeqRead, j.addr, Min(j.left, j.chunk), false)))
            && o.bus.op == Idle && o.bus.flash == b.flash && o.bus.eraseSize == b.eraseSize
  {
    AdvanceArms(j.(initialOp := false), b);
  }

  /** Two calls and a failing read between them: the compare job fails, with one command on the bus. */
  lemma CompareReadFails(cfg: Config, w: World, cq: Request, c: Chance)
    requires AfterInit(cfg, w) && cq.kind == CompareJob && Accepts(cfg, w, cq) && ProperRequest(cfg, w, cq)
    ensures var w1 := MainFunction(cfg, Call(cfg, w, cq));
            && |w1.bus.addr| == 3 && BusOk(w1.bus)
            && var w2 := MainFunction(cfg, w1.(bus := Fail(w1.bus, SeqRead, SeqFailed, c)));
            && w2.status == Ready && w2.result == ResultFailed
            && BusOk(w2.bus) && NonePending(w2.bus) && w2.bus.op == Idle
            && var first := Min(Min(cq.length, CMP_BUFF_SIZE), ChunkOf(cfg, w.fast, cq));
               w2.bus.trace == Then(Then(PowerOn, Sent(SeqRead, cq.addr, first, false)), Failed(SeqRead))
  {
    AcceptedTask(cfg, w, cq);
    var w0 := Call(cfg, w, cq);
    SendsFirst(StartPortion(cfg, w0).readJob, w0.bus);
    var w1 := MainFunction(cfg, w0);
    var b := Fail(w1.bus, SeqRead, SeqFailed, c);
    assert b.results[w1.readJob.seq_] == SeqFailed && !Effective(w1.readJob, b);
  }

  /** A command is not always preceded by a status read that found the device ready: after
      a compare job whose read failed, the next read job sends its command at once. */
  lemma NoStatusReadAfterFailure(cfg: Config, w: World, cq: Request, rq: Request, c: Chance)
    requires AfterInit(cfg, w)
    requires cq.kind == CompareJob && Accepts(cfg, w, cq) && ProperRequest(cfg, w, cq)
    requires rq.kind == ReadJob && Accepts(cfg, w, rq) && ProperRequest(cfg, w, rq)
    ensures var w1 := MainFunction(cfg, Call(cfg, w, cq));
            && |w1.bus.addr| == 3 && BusOk(w1.bus)
            && var w2 := MainFunction(cfg, w1.(bus := Fail(w1.bus, SeqRead, SeqFailed, c)));
            && BusOk(w2.bus)
            && var es := Events(MainFunction(cfg, Call(cfg, w2, rq)).bus.trace);
            && |es| == 3 && IsCommand(es[0]) && es[1] == Failed(SeqRead) && IsCommand(es[2])
  {
    CompareReadFails(cfg, w, cq, c);
    AcceptedTask(cfg, w, rq);
    var w1 := MainFunction(cfg, Call(cfg, w, cq));
    var w2 := MainFunction(cfg, w1.(bus := Fail(w1.bus, SeqRead, SeqFailed, c)));
    var w3 := Call(cfg, w2, rq);
    SendsFirst(w3.job, w3.bus);
    ThreeEvents(MainFunction(cfg, w3).bus.trace);
  }

  lemma ThreeEvents(tr: Trace)
    requires tr.Then? && tr.past.Then? && tr.past.past.Then? && tr.past.past.past.PowerOn?
    ensures Events(tr) == [tr.past.past.last, tr.past.last, tr.last]
  {
    assert Events(tr.past.past) == [tr.past.past.last];
    assert Events(tr.past) == [tr.past.past.last, tr.past.last];
  }
}
