/** Runs that show how the driver gets into the states its departures start from, and that an
    ordinary job succeeds on the shipped configuration. */
module FlsWitness {
  import opened Memory
  import opened Sectors
  import opened SpiFlash
  import opened FlsSpec
  import opened FlsTransfer
  import opened FlsHistory
  import opened FlsInvariant
  import opened FlsAccept
  import opened FlsRuns
  import opened FlsCompare
  import opened FlsFailures
  import opened FlsProgress

  // ----- the locked driver -----

  /** The state right after a read, write or erase was accepted. */
  ghost predicate JustAccepted(cfg: Config, w: World) {
    && DriverInv(cfg, w) && Running(w) && NonePending(w.bus)
    && w.job.initialOp && w.job.state == JobMain && 0 < w.job.left
  }

  lemma AcceptedRuns(cfg: Config, w: World, rq: Request)
    requires DriverInv(cfg, w) && Accepts(cfg, w, rq) && ProperRequest(cfg, w, rq) && rq.kind != CompareJob
    ensures JustAccepted(cfg, Recorded(cfg, w, rq)) && Recorded(cfg, w, rq).job.main == rq.kind
  {
    CallKeepsDriver(cfg, w, rq);
    RequestInside(cfg, w, rq);
    ReadyIsAtRest(cfg, w);
  }

  lemma FirstCallSends(cfg: Config, w: World)
    requires JustAccepted(cfg, w)
    ensures var w' := Do(cfg, w, DoMain);
            DriverInv(cfg, w') && Running(w') && w'.bus.results[CommandOf(w.job.main)] == SeqPending
  {
    SendsFirst(w.job, w.bus);
    StepKeeps(cfg, w, DoMain);
    SentRuns(cfg, w);
  }

  lemma SentRuns(cfg: Config, w: World)
    requires Running(w) && w.task.Some?
    requires Process(w.job, w.bus).rv == SeqPending && DriverInv(cfg, TransferMain(w))
    ensures Running(TransferMain(w)) && TransferMain(w).bus == Process(w.job, w.bus).bus
  {
  }

  /** Failing the first sequence, then calling again, locks the driver. */
  lemma FailureThenCall(cfg: Config, w: World, s: Sequence, c: Chance)
    requires DriverInv(cfg, w) && Running(w) && w.bus.results[s] == SeqPending
    ensures var w1 := Do(cfg, w, SpiFail(s, SeqFailed, c));
            && DriverInv(cfg, w1) && w1.status == Busy && Begun(w1)
            && Locked(Do(cfg, w1, DoMain))
  {
    StepKeeps(cfg, w, SpiFail(s, SeqFailed, c));
    FailureDooms(cfg, w, s, SeqFailed, c);
    DoomedStep(cfg, Do(cfg, w, SpiFail(s, SeqFailed, c)), DoMain);
  }

  /** Every accepted read, write or erase job can lock the driver: MainFunction is called, the
      first sequence fails, and MainFunction is called again. */
  lemma FailureLocks(cfg: Config, w: World, rq: Request, c: Chance)
    requires DriverInv(cfg, w) && Accepts(cfg, w, rq) && ProperRequest(cfg, w, rq)
    requires rq.kind in {ReadJob, WriteJob, EraseJob}
    ensures var w1 := Call(cfg, w, rq);
            && BusOk(w1.bus) && Enabled(cfg, w1, DoMain)
            && var w2 := Do(cfg, w1, DoMain);
               var a := SpiFail(CommandOf(rq.kind), SeqFailed, c);
            && BusOk(w2.bus) && Enabled(cfg, w2, a)
            && var w3 := Do(cfg, w2, a);
            && BusOk(w3.bus) && Enabled(cfg, w3, DoMain)
            && Locked(Do(cfg, w3, DoMain))
  {
    AcceptedRuns(cfg, w, rq);
    var w1 := Call(cfg, w, rq);
    FirstCallSends(cfg, w1);
    FailureThenCall(cfg, Do(cfg, w1, DoMain), CommandOf(rq.kind), c);
  }

  // ----- the failed sequence that compares meet -----

  /** The first call of a compare job sends a read. */
  lemma CompareSends(cfg: Config, w: World)
    requires DriverInv(cfg, w) && Comparing(cfg, w) && w.firstTime && w.bus.results[w.job.seq_] == SeqOk
    ensures var w' := MainFunction(cfg, w);
            && w'.status == Busy && w'.result == ResultPending && w'.job == w.job
            && ReadAwaits(w', SeqRead, JobReadStatus) && OnlyPending(w'.bus, SeqRead)
  {
    SendsFirst(StartPortion(cfg, w).readJob, w.bus);
  }

  /** The read job of a compare waits for this sequence. */
  predicate ReadAwaits(w: World, s: Sequence, state: JobState) {
    && w.jobType == CompareJob && !w.firstTime && |w.bus.addr| == 3
    && !w.readJob.initialOp && w.readJob.seq_ == s && w.readJob.state == state
  }

  /** When the read has completed, the next call asks for the status. */
  lemma ComparePolls(cfg: Config, w: World)
    requires w.result == ResultPending && ReadAwaits(w, SeqRead, JobReadStatus)
    requires w.bus.results[SeqRead] == SeqOk && NonePending(w.bus)
    ensures var w' := MainFunction(cfg, w);
            && w'.status == w.status && w'.result == ResultPending && w'.job == w.job
            && ReadAwaits(w', SeqCmd2, JobReadStatusResult) && OnlyPending(w'.bus, SeqCmd2)
  {
    PollSends(w.readJob.(initialOp := false), w.bus);
  }

  /** When the status read has failed, the next call ends the job. */
  lemma CompareFails(cfg: Config, w: World)
    requires w.result == ResultPending && ReadAwaits(w, SeqCmd2, JobReadStatusResult)
    requires w.bus.results[SeqCmd2] == SeqFailed
    ensures var w' := MainFunction(cfg, w);
            w'.status == Ready && w'.result == ResultFailed && w'.job == w.job && w'.bus == w.bus
  {
  }

  lemma ReadCompletesAlone(b: Bus, c: Chance)
    requires BusOk(b) && OnlyPending(b, SeqRead)
    ensures var b' := Complete(b, SeqRead, c);
            b'.results == b.results[SeqRead := SeqOk] && NonePending(b') && b'.addr == b.addr
  {
    assert Complete(b, SeqRead, c).results == b.results[SeqRead := SeqOk];
  }

  lemma StatusReadFailing(b: Bus, c: Chance)
    requires BusOk(b)
    ensures var b' := Fail(b, SeqCmd2, SeqFailed, c);
            b'.results == b.results[SeqCmd2 := SeqFailed] && b'.addr == b.addr
  {
  }

  /** From a state in which a compare can start: its read completes, its status read fails. */
  lemma StatusReadFails(cfg: Config, r: Run, cq: Request) returns (r': Run)
    requires ValidRun(cfg, r) && DriverInv(cfg, Last(r)) && SeqReady(Last(r), cq) && cq.kind == CompareJob
    requires Accepts(cfg, Last(r), cq) && ProperRequest(cfg, Last(r), cq)
    ensures ValidRun(cfg, r') && r'.ws[0] == r.ws[0]
    ensures Last(r').status == Ready && Last(r').job.seq_ == Last(r).job.seq_
    ensures Last(r').bus.results[SeqCmd2] == SeqFailed
  {
    r' := StatusAsked(cfg, r, cq);
    StatusReadFailing(Last(r').bus, Chance(0, []));
    r' := Appended(cfg, r', SpiFail(SeqCmd2, SeqFailed, Chance(0, [])));
    CompareFails(cfg, Last(r'));
    r' := Appended(cfg, r', DoMain);
  }

  lemma StatusAsked(cfg: Config, r: Run, cq: Request) returns (r': Run)
    requires ValidRun(cfg, r) && DriverInv(cfg, Last(r)) && SeqReady(Last(r), cq) && cq.kind == CompareJob
    requires Accepts(cfg, Last(r), cq) && ProperRequest(cfg, Last(r), cq)
    ensures ValidRun(cfg, r') && r'.ws[0] == r.ws[0] && DriverInv(cfg, Last(r'))
    ensures Last(r').result == ResultPending && Last(r').job.seq_ == Last(r).job.seq_
    ensures ReadAwaits(Last(r'), SeqCmd2, JobReadStatusResult) && Last(r').bus.results[SeqCmd2] == SeqPending
  {
    var c := Chance(0, []);
    r' := ReadSent(cfg, r, cq);
    ReadCompletesAlone(Last(r').bus, c);
    assert !LowBit(0);
    IdleInCompare(cfg, Last(r'));
    r' := Appended(cfg, r', SpiComplete(SeqRead, c));
    ComparePolls(cfg, Last(r'));
    r' := Appended(cfg, r', DoMain);
  }

  lemma ReadSent(cfg: Config, r: Run, cq: Request) returns (r': Run)
    requires ValidRun(cfg, r) && DriverInv(cfg, Last(r)) && SeqReady(Last(r), cq) && cq.kind == CompareJob
    requires Accepts(cfg, Last(r), cq) && ProperRequest(cfg, Last(r), cq)
    ensures ValidRun(cfg, r') && r'.ws[0] == r.ws[0] && DriverInv(cfg, Last(r'))
    ensures Last(r').result == ResultPending && Last(r').job.seq_ == Last(r).job.seq_
    ensures ReadAwaits(Last(r'), SeqRead, JobReadStatus) && OnlyPending(Last(r').bus, SeqRead)
  {
    CallKeepsDriver(cfg, Last(r), cq);
    r' := Appended(cfg, r, DoCall(cq));
    CompareSends(cfg, Last(r'));
    r' := Appended(cfg, r', DoMain);
  }

  lemma IdleInCompare(cfg: Config, w: World)
    requires DriverInv(cfg, w) && w.jobType == CompareJob
    ensures w.bus.op == Idle
  {
  }

  lemma Appended(cfg: Config, r: Run, a: Action) returns (r': Run)
    requires ValidRun(cfg, r) && DriverInv(cfg, Last(r)) && Enabled(cfg, Last(r), a)
    ensures ValidRun(cfg, r') && r'.ws[0] == r.ws[0] && Last(r') == Do(cfg, Last(r), a) && DriverInv(cfg, Last(r'))
    ensures r'.acts == r.acts + [a]
  {
    StepKeeps(cfg, Last(r), a);
    ExtendValid(cfg, r, a);
    r' := Extended(cfg, r, a);
  }

  /** A read that succeeds and a compare whose status read fails leave a failed sequence behind;
      from then on every compare fails at its first call, as StaleFailure says. */
  lemma StaleSequenceReached(cfg: Config, w: World, rq: Request, cq: Request) returns (r: Run)
    requires AfterInit(cfg, w) && DriverInv(cfg, w)
    requires rq.kind == ReadJob && Accepts(cfg, w, rq) && ProperRequest(cfg, w, rq)
    requires cq.kind == CompareJob && Accepts(cfg, w, cq) && ProperRequest(cfg, w, cq)
    ensures ValidRun(cfg, r) && r.ws[0] == w
    ensures Last(r).status == Ready && Last(r).bus.results[Last(r).job.seq_] == SeqFailed
  {
    var r1 := EveryJobCanFinish(cfg, w, rq);
    JobInvariant(cfg, r1, rq, |r1.ws| - 1);
    TransferAchieved(cfg, r1, rq);
    AcceptsAgain(cfg, w, Last(r1), cq);
    r := StatusReadFails(cfg, r1, cq);
  }

  lemma AcceptsAgain(cfg: Config, w: World, w': World, cq: Request)
    requires ValidList(cfg.sectors) && Accepts(cfg, w, cq) && ProperRequest(cfg, w, cq) && cq.kind == CompareJob
    requires w'.status == Ready && |w'.bus.ram| == |w.bus.ram|
    ensures Accepts(cfg, w', cq) && ProperRequest(cfg, w', cq)
  {
  }

  // ----- a driver on the shipped configuration -----

  const SHIPPED_CONFIG: Config := Config(SHIPPED, 64, 1, 1, 1, 0)

  /** The state after Init and a call of SetMode, on a device of 2 MiB and some memory. */
  ghost function Fresh(flash: seq<Byte>, ram: seq<Byte>, fast: bool): World
    requires |flash| == 0x20_0000
  {
    var j := Job(0, 0, 0, JobMain, NoJob, SeqWrsr, 0, false);
    var results := map[SeqCmd2 := SeqOk, SeqRead := SeqOk, SeqWrite := SeqOk, SeqErase := SeqOk, SeqWrsr := SeqOk];
    assert forall s: Sequence :: s in results by {
      forall s: Sequence ensures s in results {
        assert s.SeqCmd2? || s.SeqRead? || s.SeqWrite? || s.SeqErase? || s.SeqWrsr?;
      }
    }
    var bus := Bus(0, [0, 0, 0], 0, 0, Nowhere, 0, results, 4096, flash, Idle, ram, PowerOn);
    World(Ready, ResultPending, NoJob, fast, j, j, true, 0, bus, None, Task(NoJob, 0, 0, 0, 0, [], [], PowerOn, 0, 0), 0, 0)
  }

  lemma FreshIsAfterInit(flash: seq<Byte>, ram: seq<Byte>, fast: bool)
    requires |flash| == 0x20_0000 && 64 <= |ram|
    ensures AfterInit(SHIPPED_CONFIG, Fresh(flash, ram, fast)) && DriverInv(SHIPPED_CONFIG, Fresh(flash, ram, fast))
  {
    assert SHIPPED[0].End() == 0x20_0000;
    assert Resting(Fresh(flash, ram, fast));
  }

  /** The range lies in the device, and the buffer in memory behind the driver's own. */
  predicate ShippedRange(flash: seq<Byte>, ram: seq<Byte>, addr: nat, ptr: nat, length: nat) {
    && |flash| == 0x20_0000 && 0 < length && addr + length <= 0x20_0000
    && 64 <= ptr && ptr + length <= |ram|
  }

  /** Such a read or write is accepted at any address, a compare at any but 0. */
  lemma ShippedAccepts(flash: seq<Byte>, ram: seq<Byte>, fast: bool, kind: JobType, addr: nat, ptr: nat, length: nat)
    requires ShippedRange(flash, ram, addr, ptr, length) && kind in {ReadJob, WriteJob, CompareJob}
    ensures var w, rq := Fresh(flash, ram, fast), Request(kind, addr, ptr, length);
            && DriverInv(SHIPPED_CONFIG, w) && ProperRequest(SHIPPED_CONFIG, w, rq)
            && (Accepts(SHIPPED_CONFIG, w, rq) <==> kind != CompareJob || addr != 0)
  {
    FreshIsAfterInit(flash, ram, fast);
    ShippedChecks(addr, length, Page);
  }

  /** So is an erase of whole sectors in the device. */
  lemma ShippedEraseAccepts(flash: seq<Byte>, ram: seq<Byte>, fast: bool, addr: nat, length: nat)
    requires |flash| == 0x20_0000 && 64 <= |ram| && 0 < length && addr + length <= 0x20_0000
    requires addr % 4096 == 0 && length % 4096 == 0
    ensures var w, rq := Fresh(flash, ram, fast), Request(EraseJob, addr, 0, length);
            && DriverInv(SHIPPED_CONFIG, w) && ProperRequest(SHIPPED_CONFIG, w, rq) && Accepts(SHIPPED_CONFIG, w, rq)
  {
    FreshIsAfterInit(flash, ram, fast);
    ShippedChecks(addr, length, Whole);
  }

  /** What a job of this run puts on the bus when it succeeds. */
  lemma ShippedCommands(flash: seq<Byte>, ram: seq<Byte>, fast: bool, r: Run, rq: Request)
    requires |flash| == 0x20_0000
    requires JobRun(SHIPPED_CONFIG, r, rq) && r.ws[0] == Fresh(flash, ram, fast) && Last(r).result == ResultOk
    requires rq.kind in {ReadJob, WriteJob, EraseJob}
    ensures var n := if rq.kind == EraseJob then 4096 else if rq.kind == ReadJob && fast then 64 else 1;
            Commands(Last(r).bus.trace) == TilesFrom(rq.addr, rq.length, n)
  {
    TransferIsAtomic(SHIPPED_CONFIG, r, rq);
    assert Commands(PowerOn) + TilesFrom(rq.addr, rq.length, ChunkOf(SHIPPED_CONFIG, fast, rq))
           == TilesFrom(rq.addr, rq.length, ChunkOf(SHIPPED_CONFIG, fast, rq));
  }

  /** On the shipped configuration every read of a range of the device into a buffer behind
      the driver's own is accepted, and can bring the flash content: in fast mode with commands
      of 64 bytes and a rest, in normal mode byte by byte. */
  lemma ShippedRead(flash: seq<Byte>, ram: seq<Byte>, fast: bool, addr: nat, ptr: nat, length: nat) returns (r: Run)
    requires ShippedRange(flash, ram, addr, ptr, length)
    ensures AfterInit(SHIPPED_CONFIG, Fresh(flash, ram, fast))
    ensures JobRun(SHIPPED_CONFIG, r, Request(ReadJob, addr, ptr, length)) && r.ws[0] == Fresh(flash, ram, fast)
    ensures Last(r).result == ResultOk
    ensures ptr + length <= |Last(r).bus.ram| && Last(r).bus.ram[ptr..ptr + length] == flash[addr..addr + length]
    ensures Commands(Last(r).bus.trace) == TilesFrom(addr, length, if fast then 64 else 1)
  {
    var w, rq := Fresh(flash, ram, fast), Request(ReadJob, addr, ptr, length);
    FreshIsAfterInit(flash, ram, fast);
    ShippedAccepts(flash, ram, fast, ReadJob, addr, ptr, length);
    r := EveryJobCanFinish(SHIPPED_CONFIG, w, rq);
    ReadReturns(SHIPPED_CONFIG, r, rq, flash, addr);
    ShippedCommands(flash, ram, fast, r, rq);
  }

  /** Every write is accepted, at address 0 too, and can clear the bits the buffer has clear. */
  lemma ShippedWrite(flash: seq<Byte>, ram: seq<Byte>, fast: bool, addr: nat, ptr: nat, length: nat) returns (r: Run)
    requires ShippedRange(flash, ram, addr, ptr, length)
    ensures JobRun(SHIPPED_CONFIG, r, Request(WriteJob, addr, ptr, length)) && r.ws[0] == Fresh(flash, ram, fast)
    ensures Last(r).result == ResultOk && |Last(r).bus.flash| == |flash|
    ensures forall i :: 0 <= i < |flash| ==>
              Last(r).bus.flash[i] == if addr <= i < addr + length then flash[i] & ram[ptr + (i - addr)] else flash[i]
    ensures Commands(Last(r).bus.trace) == TilesFrom(addr, length, 1)
  {
    var w, rq := Fresh(flash, ram, fast), Request(WriteJob, addr, ptr, length);
    ShippedAccepts(flash, ram, fast, WriteJob, addr, ptr, length);
    r := EveryJobCanFinish(SHIPPED_CONFIG, w, rq);
    AtomicOf(SHIPPED_CONFIG, r, rq);
    ShippedCommands(flash, ram, fast, r, rq);
  }

  /** Every erase of whole sectors is accepted, and can set their bytes to 0xFF, one command a sector. */
  lemma ShippedErase(flash: seq<Byte>, ram: seq<Byte>, fast: bool, addr: nat, length: nat) returns (r: Run)
    requires |flash| == 0x20_0000 && 64 <= |ram| && 0 < length && addr + length <= 0x20_0000
    requires addr % 4096 == 0 && length % 4096 == 0
    ensures JobRun(SHIPPED_CONFIG, r, Request(EraseJob, addr, 0, length)) && r.ws[0] == Fresh(flash, ram, fast)
    ensures Last(r).result == ResultOk && |Last(r).bus.flash| == |flash|
    ensures forall i :: 0 <= i < |flash| ==>
              Last(r).bus.flash[i] == if addr <= i < addr + length then 0xFF else flash[i]
    ensures Commands(Last(r).bus.trace) == TilesFrom(addr, length, 4096)
  {
    var w, rq := Fresh(flash, ram, fast), Request(EraseJob, addr, 0, length);
    ShippedEraseAccepts(flash, ram, fast, addr, length);
    r := EveryJobCanFinish(SHIPPED_CONFIG, w, rq);
    AtomicOf(SHIPPED_CONFIG, r, rq);
    ShippedCommands(flash, ram, fast, r, rq);
  }

  /** Every compare of equal bytes but at address 0 is accepted and can succeed; at address 0 it is
      refused without any effect. */
  lemma ShippedCompare(flash: seq<Byte>, ram: seq<Byte>, fast: bool, addr: nat, ptr: nat, length: nat)
    requires ShippedRange(flash, ram, addr, ptr, length)
    ensures var w, rq := Fresh(flash, ram, fast), Request(CompareJob, addr, ptr, length);
            && (addr == 0 ==> Call(SHIPPED_CONFIG, w, rq) == w)
            && (addr != 0 ==>
                 ((exists r: Run :: JobRun(SHIPPED_CONFIG, r, rq) && r.ws[0] == w
                                    && BufferKept(r, ptr, length) && Last(r).result == ResultOk)
                  <==> flash[addr..addr + length] == ram[ptr..ptr + length]))
  {
    ShippedAccepts(flash, ram, fast, CompareJob, addr, ptr, length);
    if addr != 0 {
      CompareSucceedsIff(SHIPPED_CONFIG, Fresh(flash, ram, fast), Request(CompareJob, addr, ptr, length));
      EqualSlices(flash, addr, ram, ptr, length);
    }
  }

  lemma EqualSlices(flash: seq<Byte>, at: nat, ram: seq<Byte>, ptr: nat, n: nat)
    requires at + n <= |flash| && ptr + n <= |ram|
    ensures Equal(flash, at, ram, ptr, n) <==> flash[at..at + n] == ram[ptr..ptr + n]
  {
    var a, b := flash[at..at + n], ram[ptr..ptr + n];
    if a == b {
      forall k | at <= k < at + n ensures flash[k] == ram[ptr + (k - at)] {
        assert a[k - at] == b[k - at];
      }
    }
    if Equal(flash, at, ram, ptr, n) {
      forall i | 0 <= i < n ensures a[i] == b[i] {
        assert flash[at + i] == ram[ptr + (at + i - at)];
      }
    }
  }
}
