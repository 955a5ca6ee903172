/** Compare jobs over whole runs: what success means, and how long a difference holds the job up. */
module FlsCompare {
  import opened Memory
  import opened Sectors
  import opened SpiFlash
  import opened FlsSpec
  import opened FlsTransfer
  import opened FlsInvariant
  import opened FlsRuns

  // ----- success -----

  /** Some time in the job, up to state `i`, memory held `x` at `p`. */
  ghost predicate HeldThen(r: Run, i: nat, p: nat, x: Byte) {
    exists m :: 0 < m <= i && m < |r.ws| && p < |r.ws[m].bus.ram| && r.ws[m].bus.ram[p] == x
  }

  lemma HeldLater(r: Run, i: nat, j: nat, p: nat, x: Byte)
    requires HeldThen(r, i, p, x) && i <= j
    ensures HeldThen(r, j, p, x)
  {
    var m :| 0 < m <= i && m < |r.ws| && p < |r.ws[m].bus.ram| && r.ws[m].bus.ram[p] == x;
    assert 0 < m <= j;
  }

  lemma HeldNow(r: Run, i: nat, p: nat)
    requires 0 < i < |r.ws| && p < |r.ws[i].bus.ram|
    ensures HeldThen(r, i, p, r.ws[i].bus.ram[p])
  {
  }

  /** Each byte that counts as the caller's is one that really was in the buffer during the job. */
  lemma {:induction false} BufferByteHeld(cfg: Config, r: Run, rq: Request, i: nat, p: nat)
    requires JobRun(cfg, r, rq) && 0 < i < |r.ws| && p < |r.ws[1].bus.ram|
    ensures r.ws[i].task.Some? && p < |r.ws[i].task.value.ram0|
    ensures HeldThen(r, i, p, r.ws[i].task.value.ram0[p])
  {
    JobInv(cfg, r, rq, i);
    JobInv(cfg, r, rq, 1);
    if i == 1 {
      HeldNow(r, 1, p);
    } else {
      BufferByteHeld(cfg, r, rq, i - 1, p);
      JobInv(cfg, r, rq, i - 1);
      BufferByteStep(cfg, r.ws[i - 1], r.acts[i - 1], p);
      if r.ws[i].task.value.ram0[p] == r.ws[i - 1].task.value.ram0[p] {
        HeldLater(r, i - 1, i, p, r.ws[i].task.value.ram0[p]);
      } else {
        HeldNow(r, i, p);
      }
    }
  }

  lemma BufferByteStep(cfg: Config, w: World, a: Action, p: nat)
    requires DriverInv(cfg, w) && w.status == Busy && Enabled(cfg, w, a)
    requires w.task.Some? && p < |w.task.value.ram0|
    ensures var w' := Do(cfg, w, a);
            && w'.task.Some? && p < |w'.task.value.ram0|
            && (w'.task.value.ram0[p] == w.task.value.ram0[p]
                || (p < |w'.bus.ram| && w'.task.value.ram0[p] == w'.bus.ram[p]))
  {
    BusyKeepsTask(cfg, w, a);
    if a.UseMemory? {
      UseKeepsByte(w, a.ram, p);
    }
  }

  lemma UseKeepsByte(w: World, ram: seq<Byte>, p: nat)
    requires w.status == Busy && w.task.Some? && p < |w.task.value.ram0| == |ram|
    ensures var w' := Used(w, ram);
            && w'.task.Some? && p < |w'.task.value.ram0| && w'.bus.ram == ram
            && w'.task.value.ram0[p] in {w.task.value.ram0[p], ram[p]}
  {
  }

  lemma ComparedAll(cfg: Config, r: Run, rq: Request)
    requires JobRun(cfg, r, rq) && rq.kind == CompareJob && Last(r).result == ResultOk
    ensures Last(r).task.Some?
    ensures Equal(r.ws[0].bus.flash, rq.addr, Last(r).task.value.ram0, rq.ptr, rq.length)
  {
    JobInv(cfg, r, rq, |r.ws| - 1);
    assert Resting(Last(r));
  }

  /** A compare job reports success only if each byte of the flash range was, at some
      moment of the job, in its place in the caller's buffer. */
  lemma CompareOkMeansSeen(cfg: Config, r: Run, rq: Request, k: nat)
    requires JobRun(cfg, r, rq) && rq.kind == CompareJob && Last(r).result == ResultOk && k < rq.length
    ensures rq.addr + k < |r.ws[0].bus.flash|
    ensures HeldThen(r, |r.ws| - 1, rq.ptr + k, r.ws[0].bus.flash[rq.addr + k])
  {
    var m := |r.ws| - 1;
    ComparedAll(cfg, r, rq);
    JobInv(cfg, r, rq, m);
    JobInv(cfg, r, rq, 1);
    BufferByteHeld(cfg, r, rq, m, rq.ptr + k);
    assert r.ws[0].bus.flash[rq.addr + k] == r.ws[m].task.value.ram0[rq.ptr + ((rq.addr + k) - rq.addr)];
  }

  /** The application does not touch the buffer during the run. */
  ghost predicate BufferKept(r: Run, at: nat, n: nat)
    requires |r.ws| == |r.acts| + 1
  {
    forall i :: 0 <= i < |r.acts| && r.acts[i].UseMemory? ==> SameWithin(r.acts[i].ram, r.ws[i].bus.ram, at, n)
  }

  /** Neither does the driver. */
  lemma {:induction false} BufferStays(cfg: Config, r: Run, rq: Request, i: nat)
    requires JobRun(cfg, r, rq) && rq.kind == CompareJob && BufferKept(r, rq.ptr, rq.length) && 0 < i < |r.ws|
    ensures SameWithin(r.ws[i].bus.ram, r.ws[0].bus.ram, rq.ptr, rq.length)
  {
    if i == 1 {
      JobInv(cfg, r, rq, 1);
    } else {
      BufferStays(cfg, r, rq, i - 1);
      BufferStaysNext(cfg, r, rq, i - 1);
    }
  }

  lemma BufferStaysNext(cfg: Config, r: Run, rq: Request, i: nat)
    requires JobRun(cfg, r, rq) && rq.kind == CompareJob && BufferKept(r, rq.ptr, rq.length) && 0 < i < |r.acts|
    ensures SameWithin(r.ws[i + 1].bus.ram, r.ws[i].bus.ram, rq.ptr, rq.length)
  {
    JobInv(cfg, r, rq, i);
    BufferStaysStep(cfg, r.ws[i], r.acts[i]);
  }

  lemma BufferStaysStep(cfg: Config, w: World, a: Action)
    requires DriverInv(cfg, w) && w.status == Busy && w.task.Some? && w.task.value.kind == CompareJob && Enabled(cfg, w, a)
    requires a.UseMemory? ==> SameWithin(a.ram, w.bus.ram, w.task.value.ram, w.task.value.len)
    ensures SameWithin(Do(cfg, w, a).bus.ram, w.bus.ram, w.task.value.ram, w.task.value.len)
  {
    BusyCompares(cfg, w);
    CompareIsApart(cfg, w);
    if !a.UseMemory? {
      StepStores(cfg, w, a);
    }
  }

  lemma CompareIsApart(cfg: Config, w: World)
    requires Comparing(cfg, w)
    ensures w.task.Some? && ApartFromBuffer(cfg, w.task.value)
  {
  }

  /** If the caller leaves its buffer alone, success means that flash and buffer are equal. */
  lemma CompareOkMeansEqual(cfg: Config, r: Run, rq: Request)
    requires JobRun(cfg, r, rq) && rq.kind == CompareJob && Last(r).result == ResultOk
    requires BufferKept(r, rq.ptr, rq.length)
    ensures Equal(r.ws[0].bus.flash, rq.addr, r.ws[0].bus.ram, rq.ptr, rq.length)
  {
    ComparedAll(cfg, r, rq);
    JobInv(cfg, r, rq, 1);
    var flash, ram := r.ws[0].bus.flash, r.ws[0].bus.ram;
    forall k | rq.addr <= k < rq.addr + rq.length ensures flash[k] == ram[rq.ptr + (k - rq.addr)] {
      CompareOkMeansSeen(cfg, r, rq, k - rq.addr);
      HeldAllAlong(cfg, r, rq, k - rq.addr, flash[k]);
    }
  }

  /** A byte the buffer held at some time is there from the start if nobody touches the buffer. */
  lemma HeldAllAlong(cfg: Config, r: Run, rq: Request, k: nat, x: Byte)
    requires JobRun(cfg, r, rq) && rq.kind == CompareJob && BufferKept(r, rq.ptr, rq.length)
    requires k < rq.length && HeldThen(r, |r.ws| - 1, rq.ptr + k, x)
    ensures rq.ptr + k < |r.ws[0].bus.ram| && r.ws[0].bus.ram[rq.ptr + k] == x
  {
    var p := rq.ptr + k;
    var m :| 0 < m <= |r.ws| - 1 && m < |r.ws| && p < |r.ws[m].bus.ram| && r.ws[m].bus.ram[p] == x;
    BufferStays(cfg, r, rq, m);
  }

  // ----- a difference -----

  /** The portion read last was found different. */
  predicate Mismatched(w: World) {
    w.jobType == CompareJob && !w.firstTime && w.readJob.main == NoJob
  }

  /** The portion differs from the caller's buffer as it is now. */
  ghost predicate Differs(w: World) {
    !Equal(w.bus.flash, w.job.addr, w.bus.ram, w.job.target, w.readSize)
  }

  /** After a difference every call compares the portion with the buffer again. It changes
      nothing while they differ, and moves the job on, or ends it, as soon as they are equal. */
  lemma MismatchDecides(cfg: Config, w: World)
    requires DriverInv(cfg, w) && Comparing(cfg, w) && Mismatched(w)
    ensures var w' := MainFunction(cfg, w);
            if Differs(w) then w' == w.(calls := w.calls + 1, retries := w.retries + 1)
            else
              && 0 < w.readSize <= w.job.left && w'.job.left == w.job.left - w.readSize
              && (if w'.job.left == 0 then w'.status == Ready && w'.result == ResultOk
                  else w'.status == Busy && w'.result == ResultPending && !Mismatched(w'))
  {
    FinishedPortion(cfg, w);
    ReadAgain(cfg, w);
    PortionVerdict(cfg, w);
    ReadOutcome(cfg, w.(calls := w.calls + 1));
  }

  lemma ReadOutcome(cfg: Config, w: World)
    requires 0 < w.readSize <= w.job.left < U32_MOD && w.job.main == CompareJob
    requires w.status == Busy && w.result == ResultPending
    ensures var w' := PortionRead(cfg, w);
            if Bytes(w.bus.ram, cfg.compareBuffer, w.readSize) != Bytes(w.bus.ram, w.job.target, w.readSize)
            then w' == w.(retries := w.retries + 1)
            else
              && w'.job.left == w.job.left - w.readSize
              && (if w'.job.left == 0 then w'.status == Ready && w'.result == ResultOk
                  else w'.status == Busy && w'.result == ResultPending && !Mismatched(w'))
  {
  }

  /** What is known of a portion that was read. */
  lemma FinishedPortion(cfg: Config, w: World)
    requires DriverInv(cfg, w) && Comparing(cfg, w) && Mismatched(w)
    ensures w.jobType == CompareJob && w.result == ResultPending && w.status == Busy && !w.firstTime
    ensures ConfigOk(cfg, w.bus) && CompareCourse(cfg, w) && PortionSet(cfg, w.task.value, w)
    ensures w.readJob.state == JobMain && w.readJob.main == NoJob && 0 < w.readSize <= w.job.left < U32_MOD
    ensures w.job.main == CompareJob && w.bus.flash == w.task.value.flash0
  {
  }

  lemma ReadAgain(cfg: Config, w: World)
    requires |w.bus.addr| == 3 && TransferInv(w.part, w.readJob, w.bus) && w.readJob.main == NoJob
    requires w.jobType == CompareJob && w.result == ResultPending && !w.firstTime
    ensures MainFunction(cfg, w) == PortionRead(cfg, w.(calls := w.calls + 1))
  {
    FinishedReadJob(w.part, w.readJob, w.bus);
  }

  lemma FinishedReadJob(p: Task, j: Job, b: Bus)
    requires TransferInv(p, j, b) && j.main == NoJob
    ensures Process(j, b) == Outcome(j, b, SeqOk) && Effective(j, b) && NonePending(b)
  {
  }

  /** A compare job that has met a difference. */
  ghost predicate HeldUp(cfg: Config, w: World) {
    DriverInv(cfg, w) && Comparing(cfg, w) && Mismatched(w)
  }

  /** The compare job is held up at a portion that differs. */
  ghost predicate Stuck(cfg: Config, w: World) {
    HeldUp(cfg, w) && Differs(w)
  }

  /** `w'` is in the same job, and no further, than `w`. */
  predicate SamePlace(w: World, w': World) {
    && w'.status == w.status && w'.result == w.result
    && w'.job == w.job && w'.readSize == w.readSize
    && w'.bus.flash == w.bus.flash && w'.bus.trace == w.bus.trace
  }

  /** With nothing pending and the device idle, only MainFunction and the application change anything. */
  lemma OthersDoNothing(cfg: Config, w: World, a: Action)
    requires BusOk(w.bus) && ValidList(cfg.sectors) && Enabled(cfg, w, a) && a != DoMain && !a.UseMemory?
    requires w.status == Busy && NonePending(w.bus) && w.bus.op == Idle
    ensures Do(cfg, w, a) == w
  {
  }

  lemma HeldOthers(cfg: Config, w: World, a: Action)
    requires HeldUp(cfg, w) && Enabled(cfg, w, a) && a != DoMain
    ensures HeldUp(cfg, Do(cfg, w, a)) && SamePlace(w, Do(cfg, w, a))
  {
    if a.UseMemory? {
      HeldWhileUsed(cfg, w, a.ram);
    } else {
      FinishedPortion(cfg, w);
      FinishedReadJob(w.part, w.readJob, w.bus);
      OthersDoNothing(cfg, w, a);
    }
  }

  lemma HeldWhileUsed(cfg: Config, w: World, ram: seq<Byte>)
    requires HeldUp(cfg, w) && Enabled(cfg, w, UseMemory(ram))
    ensures HeldUp(cfg, Used(w, ram)) && SamePlace(w, Used(w, ram))
  {
    UseKeepsDriver(cfg, w, ram);
    UseInCompare(cfg, w, ram);
  }

  lemma HeldMain(cfg: Config, w: World)
    requires HeldUp(cfg, w)
    ensures var w' := MainFunction(cfg, w);
            HeldUp(cfg, w') && SamePlace(w, w') <==> Differs(w)
  {
    MismatchDecides(cfg, w);
    if Differs(w) {
      StepKeeps(cfg, w, DoMain);
      CountsOnly(cfg, w);
    }
  }

  lemma CountsOnly(cfg: Config, w: World)
    requires HeldUp(cfg, w)
    ensures Comparing(cfg, w.(calls := w.calls + 1, retries := w.retries + 1))
  {
  }

  lemma HeldStep(cfg: Config, w: World, a: Action)
    requires HeldUp(cfg, w) && Enabled(cfg, w, a)
    ensures var w' := Do(cfg, w, a);
            HeldUp(cfg, w') && SamePlace(w, w') <==> (a == DoMain ==> Differs(w))
  {
    if a == DoMain {
      HeldMain(cfg, w);
    } else {
      HeldOthers(cfg, w, a);
    }
  }

  /** State `i` of the run is held up where the run started. */
  ghost predicate HeldUpAt(cfg: Config, r: Run, i: nat)
    requires i < |r.ws|
  {
    HeldUp(cfg, r.ws[i]) && SamePlace(r.ws[0], r.ws[i])
  }

  lemma HeldNext(cfg: Config, r: Run, i: nat)
    requires ValidRun(cfg, r) && i < |r.acts| && HeldUpAt(cfg, r, i)
    ensures HeldUpAt(cfg, r, i + 1) <==> (r.acts[i] == DoMain ==> Differs(r.ws[i]))
  {
    HeldStep(cfg, r.ws[i], r.acts[i]);
  }

  /** If each `p` leads to the next one exactly when the `q` between them holds, all hold together. */
  lemma {:induction false} Chain(p: seq<bool>, q: seq<bool>, n: nat)
    requires |p| == |q| + 1 && p[0] && n <= |q|
    requires forall i :: 0 <= i < |q| && p[i] ==> p[i + 1] == q[i]
    ensures (forall i :: 0 <= i <= n ==> p[i]) <==> (forall i :: 0 <= i < n ==> q[i])
  {
    if 0 < n {
      Chain(p, q, n - 1);
      if forall i :: 0 <= i <= n - 1 ==> p[i] {
        assert p[n - 1] && p[(n - 1) + 1] == q[n - 1];
      }
    }
  }

  /** The portion differs at every call of MainFunction among the first `n` actions. */
  ghost predicate DiffersUpTo(r: Run, n: nat)
    requires n <= |r.acts| && |r.ws| == |r.acts| + 1
  {
    forall i :: 0 <= i < n && r.acts[i] == DoMain ==> Differs(r.ws[i])
  }

  /** Up to state `n` the job is held up in one place. */
  ghost predicate HeldUpTo(cfg: Config, r: Run, n: nat)
    requires n < |r.ws|
  {
    forall i :: 0 <= i <= n ==> HeldUpAt(cfg, r, i)
  }

  /** A compare job that met a difference is held up there, whatever the callers and the
      environment do, exactly as long as the caller's buffer differs from the portion at
      each call of MainFunction. */
  lemma HeldUpExactlyWhileDifferent(cfg: Config, r: Run, n: nat)
    requires ValidRun(cfg, r) && n < |r.ws| && HeldUp(cfg, r.ws[0])
    ensures HeldUpTo(cfg, r, n) <==> DiffersUpTo(r, n)
  {
    var p := seq(n + 1, i requires 0 <= i <= n => HeldUpAt(cfg, r, i));
    var q := seq(n, i requires 0 <= i < n => r.acts[i] == DoMain ==> Differs(r.ws[i]));
    forall i | 0 <= i < |q| && p[i] ensures p[i + 1] == q[i] {
      HeldNext(cfg, r, i);
    }
    Chain(p, q, n);
    assert forall i :: 0 <= i <= n ==> p[i] == HeldUpAt(cfg, r, i);
    assert forall i :: 0 <= i < n ==> q[i] == (r.acts[i] == DoMain ==> Differs(r.ws[i]));
  }

  lemma StaysDifferent(cfg: Config, w: World, a: Action)
    requires BusOk(w.bus) && ValidList(cfg.sectors) && Enabled(cfg, w, a) && Differs(w)
    requires a.UseMemory? ==> SameWithin(a.ram, w.bus.ram, w.job.target, w.readSize)
    requires !a.UseMemory? ==> Do(cfg, w, a).bus.ram == w.bus.ram
    requires SamePlace(w, Do(cfg, w, a))
    ensures Differs(Do(cfg, w, a))
  {
    EqualSame(w.bus.flash, w.job.addr, w.bus.ram, Do(cfg, w, a).bus.ram, w.job.target, w.readSize);
  }

  lemma EqualSame(flash: seq<Byte>, at: nat, ram: seq<Byte>, ram': seq<Byte>, ptr: nat, n: nat)
    requires SameWithin(ram', ram, ptr, n)
    ensures Equal(flash, at, ram', ptr, n) <==> Equal(flash, at, ram, ptr, n)
  {
  }

  /** Nothing is stored while the job is held up. */
  lemma HeldStoresNothing(cfg: Config, w: World, a: Action)
    requires HeldUp(cfg, w) && Enabled(cfg, w, a) && !a.UseMemory?
    ensures Do(cfg, w, a).bus.ram == w.bus.ram
  {
    FinishedPortion(cfg, w);
    FinishedReadJob(w.part, w.readJob, w.bus);
    if a == DoMain {
      ReadAgain(cfg, w);
    } else {
      OthersDoNothing(cfg, w, a);
    }
  }

  ghost predicate DifferentUpTo(r: Run, n: nat)
    requires n < |r.ws|
  {
    forall i :: 0 <= i <= n ==> Differs(r.ws[i])
  }

  /** So it never ends if the caller leaves the differing buffer alone. */
  lemma {:induction false} MismatchIsForever(cfg: Config, r: Run, n: nat)
    requires ValidRun(cfg, r) && n < |r.ws| && HeldUp(cfg, r.ws[0]) && Differs(r.ws[0])
    requires BufferKept(r, r.ws[0].job.target, r.ws[0].readSize)
    ensures HeldUpTo(cfg, r, n) && DifferentUpTo(r, n)
  {
    if 0 < n {
      MismatchIsForever(cfg, r, n - 1);
      MismatchNext(cfg, r, n - 1);
    }
  }

  lemma MismatchNext(cfg: Config, r: Run, n: nat)
    requires ValidRun(cfg, r) && n < |r.acts| && HeldUpTo(cfg, r, n) && DifferentUpTo(r, n)
    requires BufferKept(r, r.ws[0].job.target, r.ws[0].readSize)
    ensures HeldUpTo(cfg, r, n + 1) && DifferentUpTo(r, n + 1)
  {
    assert HeldUpAt(cfg, r, n);
    HeldNext(cfg, r, n);
    StuckStep(cfg, r.ws[n], r.acts[n]);
  }

  /** A difference stays if the application leaves the buffer alone. */
  lemma StuckStep(cfg: Config, w: World, a: Action)
    requires Stuck(cfg, w) && Enabled(cfg, w, a)
    requires a.UseMemory? ==> SameWithin(a.ram, w.bus.ram, w.job.target, w.readSize)
    ensures Stuck(cfg, Do(cfg, w, a))
  {
    HeldStep(cfg, w, a);
    if !a.UseMemory? {
      HeldStoresNothing(cfg, w, a);
    }
    StaysDifferent(cfg, w, a);
  }
}
