/** What runs put on the bus, told by the configuration and by literal values: the commands of a
    compare, the mode they depend on, and the bytes set up while a sequence is under way. */
module FlsCommands {
  import opened Memory
  import opened Sectors
  import opened SpiFlash
  import opened FlsSpec
  import opened FlsTransfer
  import opened FlsHistory
  import opened FlsInvariant
  import opened FlsAccept
  import opened FlsRuns

  // ----- the mode -----

  /** The mode that SetMode last stored before state `i`: calls while the driver is busy store nothing. */
  ghost function ModeAt(r: Run, i: nat): bool
    requires |r.ws| == |r.acts| + 1 && i < |r.ws|
  {
    if i == 0 then r.ws[0].fast
    else if r.acts[i - 1].DoSetMode? && r.ws[i - 1].status == Ready then r.acts[i - 1].fast
    else ModeAt(r, i - 1)
  }

  lemma PortionKeepsMode(cfg: Config, w: World)
    requires |w.bus.addr| == 3
    ensures PortionMain(cfg, w).fast == w.fast
  {
    assert PortionRead(cfg, Processed(w, Process(w.readJob, w.bus))).fast == w.fast;
  }

  lemma OthersKeepMode(cfg: Config, w: World, a: Action)
    requires BusOk(w.bus) && ValidList(cfg.sectors) && !a.DoSetMode?
    ensures Do(cfg, w, a).fast == w.fast
  {
    PortionKeepsMode(cfg, w);
    PortionKeepsMode(cfg, StartPortion(cfg, w));
  }

  /** The mode in which a job is accepted is the one last stored by SetMode. */
  lemma {:induction false} ModeIsLastStored(cfg: Config, r: Run, i: nat)
    requires ValidRun(cfg, r) && i < |r.ws|
    ensures r.ws[i].fast == ModeAt(r, i)
  {
    if 0 < i {
      ModeIsLastStored(cfg, r, i - 1);
      if !r.acts[i - 1].DoSetMode? {
        OthersKeepMode(cfg, r.ws[i - 1], r.acts[i - 1]);
      }
    }
  }

  // ----- the commands of a compare -----

  /** The tiles of the portions a compare reads: portions of 64 bytes and a rest, each in tiles of
      its own. */
  function CompareTiles(at: nat, left: nat, chunk: nat): seq<(nat, nat)>
    decreases left
  {
    if left == 0 then []
    else
      var n := if left <= 64 then left else 64;
      TilesFrom(at, n, chunk) + CompareTiles(at + n, left - n, chunk)
  }

  /** The commands before a trace and the tiles of what is left are the tiles of the whole task. */
  ghost predicate TilesLeft(t: Task, j: Job, tr: Trace) {
    Commands(tr) + CompareTiles(j.addr, j.left, t.chunk) == Commands(t.trace0) + CompareTiles(t.at, t.len, t.chunk)
  }

  /** Between portions the commands sent, or during one those sent before it, leave the tiles of
      the rest; at the end they are all. */
  ghost predicate TilesInv(w: World) {
    w.task.Some? &&
    var t := w.task.value;
    if w.status == Busy then TilesLeft(t, w.job, if w.firstTime then w.bus.trace else w.part.trace0)
    else w.result == ResultOk ==> Commands(w.bus.trace) == Commands(t.trace0) + CompareTiles(t.at, t.len, t.chunk)
  }

  /** The tiles of a portion, of `n` bytes, come off the front. */
  lemma TilesSplit(past: seq<(nat, nat)>, at: nat, left: nat, n: nat, chunk: nat)
    requires 0 < left && n == if left <= 64 then left else 64
    ensures past + CompareTiles(at, left, chunk) == past + TilesFrom(at, n, chunk) + CompareTiles(at + n, left - n, chunk)
  {
  }

  lemma PortionTiles(cfg: Config, w: World)
    requires PortionDone(cfg, w) && TilesInv(w)
    ensures w.readSize <= w.job.left && TilesLeft(w.task.value, Moved(w.job, w.readSize), w.bus.trace)
  {
    PortionCommands(cfg, w);
    MovedIs(cfg, w, w.readSize);
    TilesSplit(Commands(w.part.trace0), w.job.addr, w.job.left, w.readSize, w.task.value.chunk);
  }

  /** The commands of a portion that has been read. */
  lemma PortionCommands(cfg: Config, w: World)
    requires PortionDone(cfg, w)
    ensures w.readSize == (if w.job.left <= 64 then w.job.left else 64)
    ensures Commands(w.bus.trace) == Commands(w.part.trace0) + TilesFrom(w.job.addr, w.readSize, w.task.value.chunk)
  {
    var p := w.part;
    assert w.readJob.left == 0;
    assert TilesFrom(w.readJob.addr, 0, p.chunk) == [];
    assert Commands(w.bus.trace) + [] == Commands(w.bus.trace);
  }

  lemma PortionReadTiles(cfg: Config, w: World)
    requires PortionDone(cfg, w) && TilesInv(w)
    ensures TilesInv(PortionRead(cfg, w))
  {
    PortionTiles(cfg, w);
    VerdictTiles(cfg, w);
  }

  lemma VerdictTiles(cfg: Config, w: World)
    requires w.status == Busy && !w.firstTime && TilesInv(w)
    requires TilesLeft(w.task.value, Moved(w.job, w.readSize), w.bus.trace)
    ensures TilesInv(PortionRead(cfg, w))
  {
    var j, tr := Moved(w.job, w.readSize), w.bus.trace;
    if j.left == 0 {
      assert Commands(tr) + CompareTiles(j.addr, j.left, w.task.value.chunk) == Commands(tr);
    }
  }

  lemma MovedIs(cfg: Config, w: World, n: nat)
    requires ConfigOk(cfg, w.bus) && CompareCourse(cfg, w) && n <= w.job.left
    ensures Moved(w.job, n).addr == w.job.addr + n && Moved(w.job, n).left == w.job.left - n
  {
  }

  lemma PortionMainTiles(cfg: Config, w: World)
    requires DriverInv(cfg, w) && Comparing(cfg, w) && !w.firstTime && TilesInv(w)
    ensures TilesInv(PortionMain(cfg, w))
  {
    PortionProcessed(cfg, w);
    var o := Process(w.readJob, w.bus);
    var w' := Processed(w, o);
    if o.rv == SeqOk {
      PortionReadTiles(cfg, w');
    }
  }

  lemma MainTiles(cfg: Config, w: World)
    requires DriverInv(cfg, w) && Comparing(cfg, w) && TilesInv(w)
    ensures TilesInv(MainFunction(cfg, w))
  {
    if w.firstTime {
      PortionStarts(cfg, w);
      PortionMainTiles(cfg, StartPortion(cfg, w));
    } else {
      PortionMainTiles(cfg, w);
    }
  }

  lemma StepTiles(cfg: Config, w: World, a: Action)
    requires DriverInv(cfg, w) && Comparing(cfg, w) && Enabled(cfg, w, a) && TilesInv(w)
    ensures TilesInv(Do(cfg, w, a))
  {
    if a.DoMain? {
      MainTiles(cfg, w);
    }
  }

  lemma {:induction false} TilesAt(cfg: Config, r: Run, rq: Request, i: nat)
    requires JobRun(cfg, r, rq) && rq.kind == CompareJob && 0 < i < |r.ws|
    ensures TilesInv(r.ws[i])
  {
    if i == 1 {
      JobInv(cfg, r, rq, 1);
    } else {
      JobInv(cfg, r, rq, i - 1);
      TilesAt(cfg, r, rq, i - 1);
      BusyCompares(cfg, r.ws[i - 1]);
      StepTiles(cfg, r.ws[i - 1], r.acts[i - 1]);
    }
  }

  /** The commands a compare has sent when it succeeds: for each portion of 64 bytes, and for the
      rest, reads of the size configured for the mode. */
  lemma CompareCommands(cfg: Config, r: Run, rq: Request)
    requires JobRun(cfg, r, rq) && rq.kind == CompareJob && Last(r).result == ResultOk
    ensures var chunk := if r.ws[0].fast then cfg.readFast else cfg.readNormal;
            Commands(Last(r).bus.trace) == Commands(r.ws[0].bus.trace) + CompareTiles(rq.addr, rq.length, chunk)
  {
    var m := |r.ws| - 1;
    TilesAt(cfg, r, rq, m);
    JobInv(cfg, r, rq, m);
    assert Resting(Last(r));
  }

  // ----- the bytes on the bus -----

  /** What is set up while a sequence is pending, whenever it may be read: the opcode in literal
      form, the destination of the data, and one byte for the status. */
  ghost predicate SetUp(b: Bus, s: Sequence) {
    match s
    case SeqCmd2 => b.cmd == 0x05 && b.dst == ToStatus && b.len == 1
    case SeqRead => b.cmd == 0x03 && b.dst.ToRam?
    case SeqWrite => b.cmd == 0x02
    case SeqErase => b.cmd == 0xd8
    case SeqWrsr => true
  }

  lemma PendingSetUp(t: Task, j: Job, b: Bus, s: Sequence)
    requires TransferInv(t, j, b) && b.results[s] == SeqPending
    ensures SetUp(b, s)
  {
    if s != SeqCmd2 {
      PendingCommand(t, j, b, s);
    }
  }

  /** In every run, while a sequence is pending its opcode and the data channel are set up for it. */
  lemma PendingIsSetUp(cfg: Config, r: Run, i: nat, s: Sequence)
    requires ValidRun(cfg, r) && AfterInit(cfg, r.ws[0]) && i < |r.ws| && r.ws[i].bus.results[s] == SeqPending
    ensures SetUp(r.ws[i].bus, s)
  {
    var w := r.ws[i];
    InvAt(cfg, r, i);
    PendingMeansTransfer(cfg, w, s);
    if Running(w) {
      PendingSetUp(w.task.value, w.job, w.bus, s);
    } else {
      PendingSetUp(w.part, w.readJob, w.bus, s);
    }
  }
}
