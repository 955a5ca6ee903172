/** The flash driver as it runs: global variables and job records updated in place.
    Every operation is proved against its function in FlsSpec. */
module FlsDriver {
  import opened Memory
  import opened Sectors
  import opened SpiFlash
  import opened FlsSpec
  import opened FlsTransfer
  import opened FlsInvariant
  import opened FlsAccept
  import FlsRuns

  /** A job record, updated through a pointer. */
  class JobInfo {
    var target: nat
    var addr: nat
    var left: nat
    var state: JobState
    var main: JobType
    var seq_: Sequence
    var chunk: nat
    var initialOp: bool

    function View(): Job
      reads this
    {
      Job(target, addr, left, state, main, seq_, chunk, initialOp)
    }

    constructor ()
      ensures View() == Job(0, 0, 0, JobMain, NoJob, SeqWrsr, 0, false)
    {
      target, addr, left, chunk := 0, 0, 0, 0;
      state, main, seq_, initialOp := JobMain, NoJob, SeqWrsr, false;
    }

    /** What all service functions set. */
    method Set(kind: JobType, addr: nat, target: nat, length: nat, chunk: nat)
      modifies this
      ensures View() == old(View()).(chunk := chunk, addr := addr, target := target, left := length,
                                     state := JobMain, main := kind)
    {
      this.chunk, this.addr, this.target, left := chunk, addr, target, length;
      state, main := JobMain, kind;
    }

    /** The chunk has been sent. */
    method MoveOn()
      requires chunk <= left
      modifies this
      ensures View() == old(View()).(addr := U32(old(addr + chunk)), target := old(target + chunk),
                                     left := old(left - chunk), state := JobReadStatus)
    {
      addr := U32(addr + chunk);
      target := target + chunk;
      left := left - chunk;
      state := JobReadStatus;
    }

    method CopyFrom(other: JobInfo)
      modifies this
      ensures View() == old(other.View())
    {
      target, addr, left, state := other.target, other.addr, other.left, other.state;
      main, seq_, chunk, initialOp := other.main, other.seq_, other.chunk, other.initialOp;
    }
  }

  class Driver {
    const cfg: Config
    var status: Status
    var result: JobResult
    var jobType: JobType
    var fast: bool
    const job: JobInfo
    // static variables of MainFunction
    const readJob: JobInfo
    var firstTime: bool
    var readSize: nat
    // external buffers, SPI, device and memory
    var bus: Bus
    // history, for specification
    ghost var task: Option<Task>
    ghost var part: Task
    ghost var calls: nat
    ghost var retries: nat

    ghost function State(): World
      reads this, job, readJob
    {
      World(status, result, jobType, fast, job.View(), readJob.View(), firstTime, readSize, bus, task, part, calls, retries)
    }

    ghost predicate Valid()
      reads this, job, readJob
    {
      job != readJob && DriverInv(cfg, State())
    }

    /** The state after Init, on a device and memory that are at rest. */
    constructor (cfg: Config, bus: Bus)
      requires ConfigOk(cfg, bus) && NonePending(bus) && bus.results[SeqWrsr] == SeqOk
      requires bus.op == Idle && bus.trace == PowerOn
      ensures Valid() && this.cfg == cfg && this.bus == bus && fresh(job) && fresh(readJob)
      ensures FlsRuns.AfterInit(cfg, State()) && !fast
    {
      this.cfg, this.bus := cfg, bus;
      status, result, jobType, fast := Ready, ResultPending, NoJob, false;
      firstTime, readSize := true, 0;
      task, calls, retries := None, 0, 0;
      part := Task(NoJob, 0, 0, 0, 0, [], [], PowerOn, 0, 0);
      job := new JobInfo();
      readJob := new JobInfo();
    }

    method SetMode(fast: bool)
      requires Valid()
      modifies this`fast
      ensures Valid() && State() == Do(cfg, old(State()), DoSetMode(fast))
      ensures this.fast == if old(status) == Ready then fast else old(this.fast)
    {
      if status != Ready {
        return;
      }
      this.fast := fast;
    }

    /** The checks that read, write and compare share. */
    method ValidatePages(addr: nat, length: nat) returns (ok: bool)
      requires ValidList(cfg.sectors)
      ensures ok <==> status == Ready && AddressOk(cfg.sectors, addr, Page) && LengthOk(cfg.sectors, addr, length, Page)
    {
      if status == Uninit || status == Busy {
        return false;
      }
      ok := ValidateAddress(cfg.sectors, addr, Page);
      if ok {
        ok := ValidateLength(cfg.sectors, addr, length, Page);
      }
    }

    /** Any service call, under the driver invariant. */
    method Serve(rq: Request) returns (ok: bool)
      requires Valid() && ProperRequest(cfg, State(), rq) && (rq.kind == EraseJob ==> rq.ptr == 0)
      modifies this, job
      ensures Valid() && State() == Call(cfg, old(State()), rq)
      ensures ok <==> Acceptable(cfg.sectors, old(status), rq)
      ensures ok ==> StepSize(cfg, old(fast), rq, job.chunk)
    {
      CallKeepsDriver(cfg, State(), rq);
      AcceptsExactly(cfg, State(), rq);
      ghost var w := State();
      match rq.kind {
        case ReadJob => ok := Read(rq.addr, rq.ptr, rq.length);
        case WriteJob => ok := Write(rq.addr, rq.ptr, rq.length);
        case CompareJob => ok := Compare(rq.addr, rq.ptr, rq.length);
        case EraseJob =>
          if AddressOk(cfg.sectors, rq.addr, Whole) {
            AcceptedAddress(cfg.sectors, rq.addr, Whole);
          }
          ok := Erase(rq.addr, rq.length);
        case NoJob => assert false;
      }
      if ok {
        ChunkIsStepSize(cfg, w, rq, job.chunk);
      }
    }

    /** What the service functions record of an accepted job. */
    method Record(kind: JobType, addr: nat, target: nat, length: nat, chunk: nat)
      requires job != readJob
      modifies this, job
      ensures State() == old(State()).(status := Busy, result := ResultPending, jobType := kind,
                job := old(job.View()).(chunk := chunk, addr := addr, target := target, left := length,
                                        state := JobMain, main := kind),
                task := Some(Task(kind, addr, target, length, chunk, bus.flash, bus.ram, bus.trace, calls, retries)))
    {
      status := Busy;
      result := ResultPending;
      jobType := kind;
      job.Set(kind, addr, target, length, chunk);
      task := Some(Task(kind, addr, target, length, chunk, bus.flash, bus.ram, bus.trace, calls, retries));
    }

    method Read(addr: nat, ptr: nat, length: nat) returns (ok: bool)
      requires ValidList(cfg.sectors) && job != readJob
      modifies this, job
      ensures State() == Call(cfg, old(State()), Request(ReadJob, addr, ptr, length))
      ensures ok <==> old(status) == Ready && ptr != 0
                      && AddressOk(cfg.sectors, addr, Page) && LengthOk(cfg.sectors, addr, length, Page)
      ensures if ok then status == Busy && result == ResultPending && jobType == ReadJob && fast == old(fast)
              else State() == old(State())
      ensures ok ==> job.View() == Job(ptr, addr, length, JobMain, ReadJob, SeqRead,
                                       if fast then cfg.readFast else cfg.readNormal, true)
    {
      ok := ValidatePages(addr, length);
      if !ok || ptr == 0 {
        return false;
      }
      Record(ReadJob, addr, ptr, length, if fast then cfg.readFast else cfg.readNormal);
      job.initialOp := true;
      job.seq_ := SeqRead;
    }

    method Write(addr: nat, ptr: nat, length: nat) returns (ok: bool)
      requires ValidList(cfg.sectors) && job != readJob
      modifies this, job
      ensures State() == Call(cfg, old(State()), Request(WriteJob, addr, ptr, length))
      ensures ok <==> old(status) == Ready && ptr != 0
                      && AddressOk(cfg.sectors, addr, Page) && LengthOk(cfg.sectors, addr, length, Page)
      ensures if ok then status == Busy && result == ResultPending && jobType == WriteJob && fast == old(fast)
              else State() == old(State())
      ensures ok ==> job.View() == Job(ptr, addr, length, JobMain, WriteJob, SeqWrite,
                                       if fast then cfg.writeFast else cfg.writeNormal, true)
    {
      ok := ValidatePages(addr, length);
      if !ok || ptr == 0 {
        return false;
      }
      Record(WriteJob, addr, ptr, length, if fast then cfg.writeFast else cfg.writeNormal);
      job.initialOp := true;
      job.seq_ := SeqWrite;
    }

    /** Checks the flash address, not the buffer, against NULL; leaves `initialOp` and `seq_` alone. */
    method Compare(addr: nat, ptr: nat, length: nat) returns (ok: bool)
      requires ValidList(cfg.sectors) && job != readJob
      modifies this, job
      ensures State() == Call(cfg, old(State()), Request(CompareJob, addr, ptr, length))
      ensures ok <==> old(status) == Ready && addr != 0
                      && AddressOk(cfg.sectors, addr, Page) && LengthOk(cfg.sectors, addr, length, Page)
      ensures if ok then status == Busy && result == ResultPending && jobType == CompareJob && fast == old(fast)
              else State() == old(State())
      ensures ok ==> job.View() == old(job.View()).(target := ptr, addr := addr, left := length, state := JobMain, main := CompareJob,
                                                    chunk := if fast then cfg.readFast else cfg.readNormal)
    {
      ok := ValidatePages(addr, length);
      if !ok || addr == 0 {
        return false;
      }
      Record(CompareJob, addr, ptr, length, if fast then cfg.readFast else cfg.readNormal);
    }

    method Erase(addr: nat, length: nat) returns (ok: bool)
      requires ValidList(cfg.sectors) && job != readJob
      requires AddressOk(cfg.sectors, addr, Whole) ==> exists i :: 0 <= i < |cfg.sectors| && InSector(cfg.sectors[i], addr)
      modifies this, job
      ensures State() == Call(cfg, old(State()), Request(EraseJob, addr, 0, length))
      ensures ok <==> old(status) == Ready
                      && AddressOk(cfg.sectors, addr, Whole) && LengthOk(cfg.sectors, addr, length, Whole)
      ensures if ok then status == Busy && result == ResultPending && jobType == EraseJob && fast == old(fast)
              else State() == old(State())
      ensures ok ==> job.View() == Job(0, addr, length, JobMain, EraseJob, SeqWrite, job.chunk, true)
      ensures ok ==> exists k :: 0 <= k < |cfg.sectors| && InSector(cfg.sectors[k], addr) && job.chunk == cfg.sectors[k].size
                                && forall i :: 0 <= i < k ==> !InSector(cfg.sectors[i], addr)
    {
      if status == Uninit || status == Busy {
        return false;
      }
      ok := ValidateAddress(cfg.sectors, addr, Whole);
      if !ok {
        return;
      }
      ok := ValidateLength(cfg.sectors, addr, length, Whole);
      if !ok {
        return;
      }
      var k := GetSector(cfg.sectors, addr);
      FirstSectorIs(cfg.sectors, addr, k);
      Record(EraseJob, addr, 0, length, cfg.sectors[k].size);
      job.initialOp := true;
      job.seq_ := SeqWrite;
    }

    // ----- SPI -----

    method SetupEB(src: nat, dst: Destination, len: nat)
      modifies this`bus
      ensures bus == old(bus).(src := src, dst := dst, len := len)
    {
      bus := bus.(src := src, dst := dst, len := len);
    }

    method ConvertToSpiAddr(addr: nat)
      modifies this`bus
      ensures bus == old(bus).(addr := SpiAddress(addr))
    {
      bus := bus.(addr := [addr / 0x1_0000 % 256, addr / 0x100 % 256, addr % 256]);
    }

    method AsyncTransmit(s: Sequence, j: JobInfo) returns (ok: bool)
      requires |bus.addr| == 3
      modifies this`bus, j`seq_
      ensures j.seq_ == s && bus == Transmit(old(bus), s) && ok == NonePending(old(bus))
    {
      j.seq_ := s;
      ok := NonePending(bus);
      bus := Transmit(bus, s);
    }

    /** Send a status read; the assert on its acceptance holds. */
    method AskStatus(j: JobInfo)
      requires |bus.addr| == 3 && NonePending(bus)
      modifies this`bus, j`seq_, j`state
      ensures var o := Poll(old(j.View()), old(bus)); j.View() == o.job && bus == o.bus
    {
      SetupEB(0, ToStatus, 1);
      bus := bus.(cmd := FLASH_RDSR);
      var ok := AsyncTransmit(SeqCmd2, j);
      assert ok;
      j.state := JobReadStatusResult;
    }

    /** One call of ProcessJob. Its asserts hold, and its loop runs at most twice. */
    method ProcessJob(j: JobInfo) returns (rv: SeqResult)
      requires AssertsHold(j.View(), bus)
      modifies this`bus, j
      ensures var o := Process(old(j.View()), old(bus));
              j.View() == o.job && bus == o.bus && rv == o.rv
    {
      ghost var o := Process(j.View(), bus);
      ghost var b0 := bus;
      rv := bus.results[j.seq_];
      if j.initialOp {
        assert rv != SeqPending;
        assert j.state == JobMain;
        j.initialOp := false;
      } else if rv != SeqOk {
        return;
      }
      rv := SeqPending;

      ghost var j0 := j.View();
      ghost var turns := 0;
      var done := false;
      while !done
        invariant !done ==>
          && bus == b0 && rv == SeqPending
          && j.View() == j0.(state := j.state)
          && (j.state == JobReadStatusResult ==> j0.state == JobReadStatusResult)
          && o == if j.state == JobReadStatus || (j.state == JobReadStatusResult && LowBit(b0.status))
                  then Poll(j.View(), b0) else Advance(j.View(), b0)
        invariant done ==> j.View() == o.job && bus == o.bus && rv == o.rv
        invariant turns + (if done then 0 else if j.state == JobReadStatusResult then 2 else 1) <= 2
        decreases !done, if j.state == JobReadStatusResult then 1 else 0
      {
        turns := turns + 1;
        match j.state
        case JobReadStatus =>
          AskStatus(j);
          done := true;
        case JobReadStatusResult =>
          if LowBit(bus.status) {
            j.state := JobReadStatus;
          } else {
            j.state := JobMain;
          }
        case JobMain =>
          if j.left != 0 {
            SendChunk(j);
            done := true;
          } else {
            done := true;
            j.state := JobMain;
            j.main := NoJob;
            rv := SeqOk;
          }
      }
      assert turns <= 2;
    }

    /** Set up the buffers for the chunk of a job and start the sequence. */
    method ArmAndSend(j: JobInfo)
      requires |bus.addr| == 3 && j.main != NoJob
      modifies this`bus, j`seq_
      ensures bus == Transmit(Armed(old(j.View()), old(bus), j.chunk), CommandOf(j.main))
      ensures j.seq_ == CommandOf(j.main)
    {
      ghost var armed := Armed(j.View(), bus, j.chunk);
      ConvertToSpiAddr(j.addr);
      var ok;
      if j.main == EraseJob {
        bus := bus.(cmd := FLASH_ERASE_4K);
        assert bus == armed;
        ok := AsyncTransmit(SeqErase, j);
      } else if j.main == ReadJob || j.main == CompareJob {
        bus := bus.(cmd := FLASH_READ_25);
        SetupEB(0, ToRam(j.target), j.chunk);
        assert bus == armed;
        ok := AsyncTransmit(SeqRead, j);
      } else {
        bus := bus.(cmd := FLASH_BYTE_WRITE);
        ConvertToSpiAddr(j.addr);
        SetupEB(j.target, Nowhere, j.chunk);
        assert bus == armed;
        ok := AsyncTransmit(SeqWrite, j);
      }
    }

    /** The main state of ProcessJob with bytes left: send one chunk. */
    method SendChunk(j: JobInfo)
      requires |bus.addr| == 3 && j.left != 0 && j.main != NoJob
      modifies this`bus, j
      ensures var o := Advance(old(j.View()), old(bus));
              j.View() == o.job && bus == o.bus
    {
      if j.left <= j.chunk {
        j.chunk := j.left;
      }
      ArmAndSend(j);
      j.MoveOn();
    }

    /** Copy the compare job and cut off its next portion. */
    method NextPortion()
      requires job != readJob
      modifies this`readSize, this`part, this`firstTime, readJob
      ensures State() == StartPortion(cfg, old(State()))
    {
      readJob.CopyFrom(job);
      if job.left <= CMP_BUFF_SIZE {
        readSize := job.left;
      } else {
        readSize := CMP_BUFF_SIZE;
      }
      readJob.left := readSize;
      readJob.target := cfg.compareBuffer;
      firstTime := false;
      part := PortionTask(cfg, job.View(), bus, calls, retries);
    }

    method ProcessPortion() returns (rv: SeqResult)
      requires job != readJob && AssertsHold(readJob.View(), bus)
      modifies this, readJob
      ensures var o := old(Process(readJob.View(), bus));
              State() == Processed(old(State()), o) && rv == o.rv
    {
      ghost var more := if Effective(readJob.View(), bus) then 1 else 0;
      rv := ProcessJob(readJob);
      calls := calls + more;
    }

    method PortionStep()
      requires job != readJob && AssertsHold(readJob.View(), bus)
      modifies this, job, readJob
      ensures State() == PortionMain(cfg, old(State()))
    {
      var jobResult := ProcessPortion();
      if jobResult == SeqPending {
        // nothing to do
      } else if jobResult == SeqOk {
        CompareBytes();
      } else {
        firstTime := true;
        result := ResultFailed;
        jobType := NoJob;
        status := Ready;
      }
    }

    method CompareStep()
      requires job != readJob && result == ResultPending && jobType == CompareJob
      requires AssertsHold(FlsRuns.JobInHand(cfg, State()), bus)
      modifies this, job, readJob
      ensures State() == CompareMain(cfg, old(State()))
    {
      if firstTime {
        NextPortion();
      }
      PortionStep();
    }

    /** The end of a portion: compare it with the caller's buffer. */
    method CompareBytes()
      requires job != readJob
      modifies this, job, readJob
      ensures State() == PortionRead(cfg, old(State()))
    {
      if Bytes(bus.ram, cfg.compareBuffer, readSize) != Bytes(bus.ram, job.target, readSize) {
        retries := retries + 1;
        return;
      }
      job.target := job.target + readSize;
      job.addr := U32(job.addr + readSize);
      job.left := U32(job.left - readSize);
      if job.left == 0 {
        result := ResultOk;
        jobType := NoJob;
        status := Ready;
        firstTime := true;
        return;
      }
      NextPortion();
    }

    method ProcessOwnJob() returns (rv: SeqResult)
      requires job != readJob && AssertsHold(job.View(), bus)
      modifies this, job
      ensures var o := old(Process(job.View(), bus));
              State() == JobProcessed(old(State()), o) && rv == o.rv
    {
      ghost var more := if Effective(job.View(), bus) then 1 else 0;
      rv := ProcessJob(job);
      calls := calls + more;
    }

    method TransferStep()
      requires job != readJob && AssertsHold(job.View(), bus)
      modifies this, job
      ensures State() == TransferMain(old(State()))
    {
      var jobResult := ProcessOwnJob();
      if jobResult == SeqOk {
        result := ResultOk;
        jobType := NoJob;
        status := Ready;
      } else if jobResult == SeqPending {
        // busy
      } else {
        result := ResultFailed;
      }
    }

    /** The precondition is what the driver's own asserts demand. */
    method MainFunction()
      requires job != readJob
      requires FlsRuns.MainAsserts(cfg, State())
      requires |bus.addr| == 3
      modifies this, job, readJob
      ensures State() == FlsSpec.MainFunction(cfg, old(State()))
    {
      if result == ResultPending {
        if jobType == CompareJob {
          CompareStep();
        } else {
          TransferStep();
        }
      }
    }

    /** MainFunction under the driver invariant, from the first accepted job on. */
    method Cycle()
      requires Valid() && (result == ResultPending ==> jobType != NoJob)
      modifies this, job, readJob
      ensures Valid() && State() == Do(cfg, old(State()), DoMain)
    {
      StepKeeps(cfg, State(), DoMain);
      if result == ResultPending {
        FlsRuns.AssertsInHand(cfg, State());
      }
      MainFunction();
    }
  }
}
