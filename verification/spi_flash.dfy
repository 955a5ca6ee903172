/** The environment of the flash driver: the SPI sequences, the external buffers
    they transfer, the flash device behind them, and the caller's memory. */
module SpiFlash {
  import opened Memory
  import opened Sectors

  datatype Sequence = SeqCmd2 | SeqRead | SeqWrite | SeqErase | SeqWrsr

  datatype SeqResult = SeqOk | SeqPending | SeqFailed | SeqCancelled

  type Results = m: map<Sequence, SeqResult> | forall s: Sequence :: s in m
    witness map s: Sequence | true :: SeqOk

  /** Where the data channel stores what it receives. */
  datatype Destination = Nowhere | ToRam(at: nat) | ToStatus

  /** What the device is doing: nothing, or storing `data` (write in progress). */
  datatype Operation = Idle | Storing(at: nat, data: seq<Byte>)

  /** What happens on the bus: a sequence is started for `size` bytes at a device
      address (with the device busy or not), a status read returns the busy bit, or a sequence fails. */
  datatype Event = Sent(seq_: Sequence, at: nat, size: nat, busy: bool) | Polled(busy: bool) | Failed(seq_: Sequence)

  datatype Trace = PowerOn | Then(past: Trace, last: Event)

  const FLASH_READ_25: nat := 0x03
  const FLASH_RDSR: nat := 0x05
  const FLASH_BYTE_WRITE: nat := 0x02
  const FLASH_ERASE_4K: nat := 0xd8

  /** The device decodes three address bytes. */
  const DEVICE_SPACE: nat := 0x100_0000

  datatype Bus = Bus(
    cmd: nat, addr: seq<nat>, status: Byte,   // buffers of the command, address and status channels
    src: nat, dst: Destination, len: nat,     // set-up of the data channel
    results: Results,
    eraseSize: nat, flash: seq<Byte>, op: Operation,
    ram: seq<Byte>,
    trace: Trace)

  ghost predicate BusOk(b: Bus) {
    && |b.addr| == 3
    && 0 < b.eraseSize
    && |b.flash| <= DEVICE_SPACE
    && (b.op.Storing? ==> b.op.at + |b.op.data| <= |b.flash|)
  }

  predicate NonePending(b: Bus) {
    forall s: Sequence :: b.results[s] != SeqPending
  }

  ghost predicate OnlyPending(b: Bus, seq_: Sequence) {
    forall s: Sequence :: b.results[s] == SeqPending <==> s == seq_
  }

  ghost predicate AtMostOnePending(b: Bus) {
    forall s: Sequence, t: Sequence :: b.results[s] == SeqPending && b.results[t] == SeqPending ==> s == t
  }

  /** The number of bytes a sequence moves; the erase command carries no length. */
  function SizeOf(b: Bus, s: Sequence): nat {
    if s == SeqErase then b.eraseSize else b.len
  }

  /** Start a sequence. It is refused while another one is pending. */
  function Transmit(b: Bus, s: Sequence): Bus
    requires |b.addr| == 3
  {
    if NonePending(b)
    then b.(results := b.results[s := SeqPending],
            trace := Then(b.trace, Sent(s, DeviceAddress(b.addr), SizeOf(b, s), b.op != Idle)))
    else b
  }

  /** The memory with arbitrary bytes in the place a read stores to, or as it was. */
  function Filled(b: Bus, junk: seq<Byte>): seq<Byte> {
    if b.dst.ToRam? && b.dst.at + b.len <= |b.ram| && |junk| == b.len then Splice(b.ram, b.dst.at, junk) else b.ram
  }

  /** The memory after a read sequence; a busy device returns nothing defined. */
  function ReadBack(b: Bus, junk: seq<Byte>): seq<Byte>
    requires |b.addr| == 3
  {
    var at := DeviceAddress(b.addr);
    if b.dst.ToRam? && b.dst.at + b.len <= |b.ram| && b.cmd == FLASH_READ_25 && b.op == Idle && at + b.len <= |b.flash|
    then Splice(b.ram, b.dst.at, b.flash[at..at + b.len])
    else Filled(b, junk)
  }

  /** What a write sequence makes the device store; a busy device ignores it. */
  function StoredByWrite(b: Bus): Operation
    requires |b.addr| == 3
  {
    var at := DeviceAddress(b.addr);
    if b.op == Idle && b.cmd == FLASH_BYTE_WRITE && at + b.len <= |b.flash| && b.src + b.len <= |b.ram|
    then Storing(at, Programmed(b.flash[at..at + b.len], b.ram[b.src..b.src + b.len]))
    else b.op
  }

  /** What an erase sequence makes the device store in the block that holds the address. */
  function StoredByErase(b: Bus): Operation
    requires |b.addr| == 3 && 0 < b.eraseSize
  {
    var at := DeviceAddress(b.addr);
    var block := at - at % b.eraseSize;
    if b.op == Idle && b.cmd == FLASH_ERASE_4K && block + b.eraseSize <= |b.flash|
    then Storing(block, Erased(b.eraseSize))
    else b.op
  }

  /** A failed write or erase may leave arbitrary bytes where it was to store something. */
  function Spoiled(old_: Operation, op: Operation, junk: seq<Byte>): Operation {
    if old_ == Idle && op.Storing? && |junk| == |op.data| then Storing(op.at, junk) else old_
  }

  /** Choices of the environment when a sequence ends: the other status bits, and
      arbitrary bytes where the device or a failed transfer defines none. */
  datatype Chance = Chance(status: Byte, junk: seq<Byte>)

  function LowBit(x: Byte): bool {
    x & 1 == 1
  }

  /** A pending sequence ends successfully; its buffers are read at this moment. */
  function Complete(b: Bus, s: Sequence, c: Chance): Bus
    requires |b.addr| == 3 && 0 < b.eraseSize
  {
    var done := b.(results := b.results[s := SeqOk]);
    match s
    case SeqCmd2 =>
      if b.cmd == FLASH_RDSR && b.dst == ToStatus
      then done.(status := c.status, trace := Then(b.trace, Polled(b.op != Idle)))
      else done
    case SeqRead => done.(ram := ReadBack(b, c.junk))
    case SeqWrite => done.(op := StoredByWrite(b))
    case SeqErase => done.(op := StoredByErase(b))
    case SeqWrsr => done
  }

  /** A pending sequence fails. What it was to store is then arbitrary, or unchanged. */
  function Fail(b: Bus, s: Sequence, res: SeqResult, c: Chance): Bus
    requires |b.addr| == 3 && 0 < b.eraseSize
  {
    var done := b.(results := b.results[s := res], trace := Then(b.trace, Failed(s)));
    match s
    case SeqCmd2 =>
      if b.dst == ToStatus then done.(status := c.status) else done
    case SeqRead => done.(ram := Filled(b, c.junk))
    case SeqWrite => done.(op := Spoiled(b.op, StoredByWrite(b), c.junk))
    case SeqErase => done.(op := Spoiled(b.op, StoredByErase(b), c.junk))
    case SeqWrsr => done
  }

  /** The flash content once the device has finished its work. */
  function Settled(b: Bus): seq<Byte>
    requires b.op.Storing? ==> b.op.at + |b.op.data| <= |b.flash|
  {
    if b.op.Storing? then Splice(b.flash, b.op.at, b.op.data) else b.flash
  }

  /** The device finishes; its busy bit clears. */
  function Settle(b: Bus): Bus
    requires b.op.Storing? ==> b.op.at + |b.op.data| <= |b.flash|
  {
    b.(flash := Settled(b), op := Idle)
  }

  // ----- what the bus trace says -----

  predicate IsCommand(e: Event) {
    e.Sent? && e.seq_ in {SeqRead, SeqWrite, SeqErase}
  }

  /** A status read that found the device ready, or a failed sequence. */
  predicate Closes(e: Event) {
    e == Polled(false) || e.Failed?
  }

  /** No read, write or erase command since the last status read that found the device ready or the last failure. */
  predicate Quiet(tr: Trace) {
    match tr
    case PowerOn => true
    case Then(past, e) => Closes(e) || (!IsCommand(e) && Quiet(past))
  }

  /** The last thing on the bus was a status read that found the device ready. */
  predicate JustReady(tr: Trace) {
    tr.Then? && tr.last == Polled(false)
  }

  /** Every read, write or erase command was sent in a quiet moment and to an idle device,
      and in a quiet moment nothing else happens on the bus. */
  predicate Disciplined(tr: Trace) {
    match tr
    case PowerOn => true
    case Then(past, e) => Disciplined(past) && (IsCommand(e) <==> Quiet(past)) && (IsCommand(e) ==> !e.busy)
  }

  /** The trace as a list of events, oldest first. */
  function Events(tr: Trace): seq<Event> {
    match tr
    case PowerOn => []
    case Then(past, e) => Events(past) + [e]
  }

  /** Event `i` is a command, and no command follows before event `j`. */
  ghost predicate LastCommand(es: seq<Event>, i: nat, j: nat) {
    i < j <= |es| && IsCommand(es[i]) && forall k :: i < k < j ==> !IsCommand(es[k])
  }

  /** After its last command a disciplined trace is closed by its very last event, or not at all. */
  lemma {:induction false} ClosedByLast(tr: Trace, i: nat)
    requires Disciplined(tr) && LastCommand(Events(tr), i, |Events(tr)|)
    ensures Quiet(tr) ==> i < |Events(tr)| - 1 && Closes(Events(tr)[|Events(tr)| - 1])
    ensures forall k :: i < k < |Events(tr)| - 1 ==> !Closes(Events(tr)[k])
    ensures !Quiet(tr) && i < |Events(tr)| - 1 ==> !Closes(Events(tr)[|Events(tr)| - 1])
  {
    var es := Events(tr);
    var past := Events(tr.past);
    assert es == past + [tr.last];
    if i < |past| {
      assert past[i] == es[i];
      assert forall k :: i < k < |past| ==> past[k] == es[k];
      ClosedByLast(tr.past, i);
      assert !IsCommand(es[|past|]) && !Quiet(tr.past);
      forall k | i < k < |past| ensures !Closes(es[k]) {
        assert es[k] == past[k];
      }
    }
  }

  /** Between a command and the next one exactly one event closes: the one right before. */
  lemma {:induction false} OneClosingEvent(tr: Trace, i: nat, j: nat)
    requires Disciplined(tr) && j < |Events(tr)|
    requires LastCommand(Events(tr), i, j) && IsCommand(Events(tr)[j])
    ensures i < j - 1 && Closes(Events(tr)[j - 1])
    ensures forall k :: i < k < j - 1 ==> !Closes(Events(tr)[k])
  {
    var es := Events(tr);
    var past := Events(tr.past);
    assert es == past + [tr.last];
    assert past[i] == es[i];
    assert forall k :: i < k < |past| ==> past[k] == es[k];
    if j < |past| {
      OneClosingEvent(tr.past, i, j);
    } else {
      ClosedByLast(tr.past, i);
    }
  }

  /** Between a command and the next one a status read finds the device ready exactly
      when no sequence fails in between. */
  lemma ReadyUnlessFailed(tr: Trace, i: nat, j: nat)
    requires Disciplined(tr) && j < |Events(tr)|
    requires LastCommand(Events(tr), i, j) && IsCommand(Events(tr)[j])
    ensures (exists k :: i < k < j && Events(tr)[k] == Polled(false))
            <==> !(exists k :: i < k < j && Events(tr)[k].Failed?)
  {
    OneClosingEvent(tr, i, j);
    var es := Events(tr);
    assert Closes(es[j - 1]);
    assert forall k :: i < k < j && Closes(es[k]) ==> k == j - 1;
  }

  lemma {:induction false} CommandsFindIdle(tr: Trace, i: nat)
    requires Disciplined(tr) && i < |Events(tr)| && IsCommand(Events(tr)[i])
    ensures !Events(tr)[i].busy
  {
    if i < |Events(tr.past)| {
      CommandsFindIdle(tr.past, i);
    }
  }

  /** The commands of a trace as (address, size) pairs. */
  function Commands(tr: Trace): (r: seq<(nat, nat)>) {
    match tr
    case PowerOn => []
    case Then(past, e) => if IsCommand(e) then Commands(past) + [(e.at, e.size)] else Commands(past)
  }

  /** How many status reads found the device busy. */
  function BusyPolls(tr: Trace): nat {
    match tr
    case PowerOn => 0
    case Then(past, e) => BusyPolls(past) + if e == Polled(true) then 1 else 0
  }
}
