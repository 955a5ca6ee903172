/** What a transfer leaves on the bus, and how many calls it takes. */
module FlsHistory {
  import opened Memory
  import opened SpiFlash
  import opened FlsSpec
  import opened FlsTransfer

  /** The chunks that cover `left` bytes from `at` on. */
  function TilesFrom(at: nat, left: nat, chunk: nat): seq<(nat, nat)>
    decreases left
  {
    if left == 0 || chunk == 0 then []
    else
      var n := Min(left, chunk);
      [(at, n)] + TilesFrom(at + n, left - n, chunk)
  }

  /** The number of chunks that cover `left` bytes. */
  function Chunks(left: nat, chunk: nat): nat {
    if left == 0 || chunk == 0 then 0 else 1 + Chunks(left - Min(left, chunk), chunk)
  }

  /** Tiles are consecutive, of full size except possibly the last, and reach exactly to the end. */
  lemma {:induction false} TilesCover(at: nat, left: nat, chunk: nat)
    requires 0 < chunk
    ensures var ts := TilesFrom(at, left, chunk);
            && |ts| == Chunks(left, chunk)
            && (forall i :: 0 <= i < |ts| ==> 0 < ts[i].1 <= chunk)
            && (forall i :: 0 <= i < |ts| - 1 ==> ts[i].1 == chunk)
            && (0 < left ==> 0 < |ts| && ts[0].0 == at && ts[|ts| - 1].0 + ts[|ts| - 1].1 == at + left)
            && (forall i, k :: 0 <= i && k == i + 1 && k < |ts| ==> ts[k].0 == ts[i].0 + ts[i].1)
    decreases left
  {
    if 0 < left {
      var n := Min(left, chunk);
      var ts, rest := TilesFrom(at, left, chunk), TilesFrom(at + n, left - n, chunk);
      TilesCover(at + n, left - n, chunk);
      assert ts == [(at, n)] + rest;
      assert forall i :: 0 < i < |ts| ==> ts[i] == rest[i - 1];
    }
  }

  /** The number of chunks is the quotient rounded up. */
  lemma {:induction false} ChunksIsCeiling(left: nat, chunk: nat)
    requires 0 < chunk
    ensures Chunks(left, chunk) == (left + chunk - 1) / chunk
  {
    if left == 0 {
      DivModUnique(chunk - 1, chunk, 0, chunk - 1);
    } else if left <= chunk {
      assert Chunks(left - Min(left, chunk), chunk) == 0;
      assert left + chunk - 1 == 1 * chunk + (left - 1);
      DivModUnique(left + chunk - 1, chunk, 1, left - 1);
    } else {
      ChunksIsCeiling(left - chunk, chunk);
      var q, r := (left - 1) / chunk, (left - 1) % chunk;
      assert left - 1 == q * chunk + r;
      assert left + chunk - 1 == (q + 1) * chunk + r;
      DivModUnique(left + chunk - 1, chunk, q + 1, r);
    }
  }

  /** The commands sent so far and those still to come are the tiles of the task. */
  ghost predicate TraceInv(t: Task, j: Job, b: Bus) {
    && Disciplined(b.trace)
    && Commands(b.trace) + TilesFrom(j.addr, j.left, t.chunk) == Commands(t.trace0) + TilesFrom(t.at, t.len, t.chunk)
  }

  /** How many effective calls are still due if every status read finds the device ready. */
  function Due(t: Task, j: Job): nat {
    match j.state
    case JobMain => if j.main == NoJob then 0 else 2 * Chunks(j.left, t.chunk) + 1
    case JobReadStatus => 2 * Chunks(j.left, t.chunk) + 2
    case JobReadStatusResult => 2 * Chunks(j.left, t.chunk) + 1
  }

  /** A status read has found the device busy, and the driver has not seen it yet. */
  function Unseen(j: Job, b: Bus): nat {
    if j.state == JobReadStatusResult && b.results[SeqCmd2] == SeqOk && LowBit(b.status) then 1 else 0
  }

  /** Effective calls made and calls due balance: each chunk costs two calls, the end
      one, and each status read that finds the device busy one more. */
  ghost predicate Account(t: Task, j: Job, b: Bus, calls: int) {
    calls + Due(t, j) + Unseen(j, b) + BusyPolls(t.trace0)
    == t.calls0 + 2 * Chunks(t.len, t.chunk) + 1 + BusyPolls(b.trace)
  }

  ghost predicate HistoryInv(t: Task, j: Job, b: Bus, calls: int) {
    TraceInv(t, j, b) && Account(t, j, b, calls)
  }

  lemma StartHistory(t: Task, j: Job, b: Bus, calls: int)
    requires TransferInv(t, j, b) && j.state == JobMain && j.main != NoJob
    requires b.trace == t.trace0 && calls == t.calls0 && Disciplined(b.trace)
    ensures HistoryInv(t, j, b, calls)
  {
  }

  lemma CompletionHistory(t: Task, j: Job, b: Bus, calls: int, s: Sequence, c: Chance)
    requires TransferInv(t, j, b) && HistoryInv(t, j, b, calls) && b.results[s] == SeqPending
    requires s == SeqCmd2 ==> LowBit(c.status) == (b.op != Idle)
    ensures HistoryInv(t, j, Complete(b, s, c), calls)
  {
  }

  lemma FailureHistory(t: Task, j: Job, b: Bus, calls: int, s: Sequence, res: SeqResult, c: Chance)
    requires TransferInv(t, j, b) && HistoryInv(t, j, b, calls) && b.results[s] == SeqPending
    requires res in {SeqFailed, SeqCancelled}
    ensures HistoryInv(t, j, Fail(b, s, res, c), calls)
  {
  }

  lemma SettleHistory(t: Task, j: Job, b: Bus, calls: int)
    requires TransferInv(t, j, b) && HistoryInv(t, j, b, calls)
    ensures HistoryInv(t, j, Settle(b), calls)
  {
  }

  /** Sending the next tile keeps both balances. */
  lemma NextTile(t: Task, j: Job, b: Bus, calls: int, j': Job, b': Bus, s: Sequence)
    requires HistoryInv(t, j, b, calls) && Quiet(b.trace) && 0 < j.left && 0 < t.chunk
    requires j.state != JobReadStatus && Unseen(j, b) == 0 && (j.state == JobMain ==> j.main != NoJob)
    requires j'.state == JobReadStatus && j'.left == j.left - Min(j.left, t.chunk) && j'.addr == j.addr + Min(j.left, t.chunk)
    requires s in {SeqRead, SeqWrite, SeqErase}
    requires b'.trace == Then(b.trace, Sent(s, j.addr, Min(j.left, t.chunk), false))
    ensures HistoryInv(t, j', b', calls + 1)
  {
    var n := Min(j.left, t.chunk);
    var past, rest := Commands(b.trace), TilesFrom(j.addr + n, j.left - n, t.chunk);
    assert past + ([(j.addr, n)] + rest) == past + [(j.addr, n)] + rest;
  }

  lemma AdvanceHistory(t: Task, j: Job, b: Bus, calls: int)
    requires TransferInv(t, j, b) && HistoryInv(t, j, b, calls)
    requires MayAdvance(t, j, b) && 0 < j.left && Unseen(j, b) == 0 && j.state != JobReadStatus
    ensures var o := Advance(j.(initialOp := false), b);
            HistoryInv(t, o.job, o.bus, calls + 1)
  {
    var o := Advance(j.(initialOp := false), b);
    AdvanceArms(j.(initialOp := false), b);
    NextChunkOnGrid(t, j);
    NextTile(t, j, b, calls, o.job, o.bus, CommandOf(j.main));
  }

  /** An effective call of ProcessJob is one more call in the account. */
  lemma ProcessHistory(t: Task, j: Job, b: Bus, calls: int)
    requires TransferInv(t, j, b) && HistoryInv(t, j, b, calls) && j.main != NoJob
    ensures var o := Process(j, b);
            HistoryInv(t, o.job, o.bus, calls + if Effective(j, b) then 1 else 0)
  {
    if Effective(j, b) && 0 < j.left && !(j.state == JobReadStatus || (j.state == JobReadStatusResult && LowBit(b.status))) {
      AdvanceHistory(t, j, b, calls);
    }
  }
}
