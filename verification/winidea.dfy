/** The transmit ring shared with the debugger: the program writes bytes and its pointer,
    the debugger reads bytes and moves the other pointer, one memory access at a time. */
module WinIdea {

  type Octet = x: int | 0 <= x < 0x100 witness 0

  const TWBUFF_SIZE: nat := 0x100
  const TPTR: nat := 0x100
  const CPTR: nat := 0x101

  type Ring = g: seq<Octet> | |g| == TWBUFF_SIZE + 2 witness seq(258, _ => 0)

  function Inc(n: int): Octet {
    (n + 1) % TWBUFF_SIZE
  }

  predicate Full(g: Ring) {
    g[TPTR] == (g[CPTR] - 1) % TWBUFF_SIZE
  }

  function Count(g: Ring): nat {
    (g[TPTR] - g[CPTR]) % TWBUFF_SIZE
  }

  /** Where the `i`-th byte after the read pointer is. */
  function Index(g: Ring, i: nat): Octet {
    (g[CPTR] + i) % TWBUFF_SIZE
  }

  /** The bytes the debugger has still to read. */
  function Unread(g: Ring): seq<Octet> {
    seq(Count(g), i requires 0 <= i => g[Index(g, i)])
  }

  /** A store at the write pointer touches no unread byte, full or not. */
  lemma StoreKeepsUnread(g: Ring, x: Octet)
    ensures Unread(g[g[TPTR] := x]) == Unread(g)
  {
    assert forall i: nat :: i < Count(g) ==> Index(g, i) != g[TPTR];
  }

  /** The moved pointer makes the stored byte the newest unread one, if the ring was not full. */
  lemma PublishAppends(g: Ring)
    requires !Full(g)
    ensures Unread(g[TPTR := Inc(g[TPTR])]) == Unread(g) + [g[g[TPTR]]]
  {
    var g' := g[TPTR := Inc(g[TPTR])];
    assert Count(g') == Count(g) + 1;
    assert Index(g, Count(g)) == g[TPTR];
  }

  /** In a full ring it would make every unread byte disappear. */
  lemma PublishWhenFull(g: Ring)
    requires Full(g)
    ensures |Unread(g)| == 255 && Unread(g[TPTR := Inc(g[TPTR])]) == []
  {
  }

  lemma ReadTakesOldest(g: Ring)
    requires g[CPTR] != g[TPTR]
    ensures Unread(g) == [g[g[CPTR]]] + Unread(g[CPTR := Inc(g[CPTR])])
    ensures !Full(g[CPTR := Inc(g[CPTR])])
  {
    var g' := g[CPTR := Inc(g[CPTR])];
    assert Count(g) == Count(g') + 1;
    assert forall i: nat :: Index(g', i) == Index(g, i + 1);
  }

  // ----- the program and the debugger, step by step -----

  /** Where the program is in a write: at the loop test, in the busy wait, about to store
      the byte, or about to move the pointer from `len`. */
  datatype Place =
    | Outside
    | Test(buf: seq<Octet>, cnt: Octet)
    | Wait(buf: seq<Octet>, cnt: Octet)
    | Store(buf: seq<Octet>, cnt: Octet)
    | Publish(buf: seq<Octet>, cnt: Octet, len: Octet)

  /** `given` are the bytes handed to all writes so far, `read` those the debugger has read. */
  datatype State = State(g: Ring, at: Place, given: seq<Octet>, read: seq<Octet>)

  datatype Step = Call(buf: seq<Octet>, connected: bool) | Program | Debugger

  predicate Enabled(s: State, a: Step) {
    match a
    case Call(_, _) => s.at == Outside
    case Program => s.at != Outside
    case Debugger => s.g[CPTR] != s.g[TPTR]
  }

  /** The byte counter of a write is an unsigned char. */
  function ProgramStep(s: State): State {
    match s.at
    case Outside => s
    case Test(buf, cnt) => s.(at := if cnt < |buf| then Wait(buf, cnt) else Outside)
    case Wait(buf, cnt) => if Full(s.g) then s else s.(at := Store(buf, cnt))
    case Store(buf, cnt) =>
      var len := s.g[TPTR];
      if cnt < |buf| then s.(g := s.g[len := buf[cnt]], at := Publish(buf, cnt, len)) else s
    case Publish(buf, cnt, len) => s.(g := s.g[TPTR := Inc(len)], at := Test(buf, Inc(cnt)))
  }

  function Do(s: State, a: Step): State {
    match a
    case Call(buf, connected) => if connected then s.(at := Test(buf, 0), given := s.given + buf) else s
    case Program => ProgramStep(s)
    case Debugger => s.(g := s.g[CPTR := Inc(s.g[CPTR])], read := s.read + [s.g[s.g[CPTR]]])
  }

  /** The bytes of the current write not yet visible to the debugger. */
  function Pending(at: Place): seq<Octet> {
    if at == Outside || |at.buf| < at.cnt then [] else at.buf[at.cnt..]
  }

  /** What is known of the program's place: past the busy wait the ring is not full. */
  predicate PlaceOk(s: State) {
    match s.at
    case Outside => true
    case Test(buf, cnt) => cnt <= |buf| < 0x100
    case Wait(buf, cnt) => cnt < |buf| < 0x100
    case Store(buf, cnt) => cnt < |buf| < 0x100 && !Full(s.g)
    case Publish(buf, cnt, len) => cnt < |buf| < 0x100 && !Full(s.g) && len == s.g[TPTR] && s.g[len] == buf[cnt]
  }

  /** Every byte handed to a write has been read, is unread, or is still to come, in this order. */
  predicate Inv(s: State) {
    PlaceOk(s) && s.read + Unread(s.g) + Pending(s.at) == s.given
  }

  /** Moving the first of the bytes to come behind the bytes that are there. */
  lemma MovesOver<T>(a: seq<T>, b: seq<T>, c: seq<T>, n: nat)
    requires n < |c|
    ensures a + b + c[n..] == a + (b + [c[n]]) + c[n + 1..]
  {
  }

  lemma StoreKeeps(s: State)
    requires Inv(s) && s.at.Store?
    ensures Inv(ProgramStep(s))
  {
    StoreKeepsUnread(s.g, s.at.buf[s.at.cnt]);
  }

  lemma PublishKeeps(s: State)
    requires Inv(s) && s.at.Publish?
    ensures Inv(ProgramStep(s))
  {
    PublishAppends(s.g);
    MovesOver(s.read, Unread(s.g), s.at.buf, s.at.cnt);
    assert Inc(s.at.cnt) == s.at.cnt + 1;
  }

  lemma ProgramKeeps(s: State)
    requires Inv(s) && s.at != Outside
    ensures Inv(ProgramStep(s))
  {
    match s.at
    case Test(_, _) =>
    case Wait(_, _) =>
    case Store(_, _) => StoreKeeps(s);
    case Publish(_, _, _) => PublishKeeps(s);
  }

  lemma DebuggerKeeps(s: State)
    requires Inv(s) && Enabled(s, Debugger)
    ensures Inv(Do(s, Debugger))
  {
    var s' := Do(s, Debugger);
    var x := s.g[s.g[CPTR]];
    ReadTakesOldest(s.g);
    assert s.read + ([x] + Unread(s'.g)) + Pending(s.at) == (s.read + [x]) + Unread(s'.g) + Pending(s.at);
  }

  lemma StepKeeps(s: State, a: Step)
    requires Inv(s) && Enabled(s, a) && (a.Call? && a.connected ==> |a.buf| < 0x100)
    ensures Inv(Do(s, a))
  {
    match a
    case Call(buf, connected) =>
      assert s.read + Unread(s.g) + [] + buf == s.read + Unread(s.g) + buf;
    case Program => ProgramKeeps(s);
    case Debugger => DebuggerKeeps(s);
  }

  // ----- runs -----

  datatype Run = Run(ss: seq<State>, acts: seq<Step>)

  predicate ValidRun(r: Run) {
    && |r.ss| == |r.acts| + 1
    && forall i :: 0 <= i < |r.acts| ==> Enabled(r.ss[i], r.acts[i]) && r.ss[i + 1] == Do(r.ss[i], r.acts[i])
  }

  predicate ShortBuffers(r: Run) {
    forall i :: 0 <= i < |r.acts| ==> r.acts[i].Call? && r.acts[i].connected ==> |r.acts[i].buf| < 0x100
  }

  predicate Initial(s: State) {
    s.g[TPTR] == s.g[CPTR] && s.at == Outside && s.given == [] && s.read == []
  }

  lemma {:induction false} InvAt(r: Run, i: nat)
    requires ValidRun(r) && ShortBuffers(r) && Initial(r.ss[0]) && i < |r.ss|
    ensures Inv(r.ss[i])
  {
    if 0 < i {
      InvAt(r, i - 1);
      StepKeeps(r.ss[i - 1], r.acts[i - 1]);
    }
  }

  /** However the program and the debugger interleave, the debugger reads the bytes of all
      writes in order: a prefix of them at any moment, and with the at most 255 unread
      ones all of them when no write is under way. */
  lemma DeliveredInOrder(r: Run, i: nat)
    requires ValidRun(r) && ShortBuffers(r) && Initial(r.ss[0]) && i < |r.ss|
    ensures r.ss[i].read <= r.ss[i].given && |Unread(r.ss[i].g)| <= 255
    ensures r.ss[i].at == Outside ==> r.ss[i].read + Unread(r.ss[i].g) == r.ss[i].given
  {
    InvAt(r, i);
    var s := r.ss[i];
    assert s.given == s.read + (Unread(s.g) + Pending(s.at));
  }

  /** A write of 256 bytes or more never returns: the counter cannot reach the length. */
  lemma {:induction false} LongWriteNeverReturns(r: Run, buf: seq<Octet>, i: nat)
    requires ValidRun(r) && 0 < i < |r.ss| && r.acts[0] == Call(buf, true) && 0x100 <= |buf|
    ensures r.ss[i].at != Outside && r.ss[i].at.buf == buf
  {
    if i == 1 {
      assert r.ss[1] == Do(r.ss[0], r.acts[0]);
    } else {
      LongWriteNeverReturns(r, buf, i - 1);
      assert r.ss[i] == Do(r.ss[i - 1], r.acts[i - 1]);
    }
  }

  // ----- the program -----

  class Terminal {
    const g: array<Octet>
    var conn: bool
    ghost var given: seq<Octet>
    ghost var read: seq<Octet>

    ghost predicate Ok()
      reads this
    {
      g.Length == TWBUFF_SIZE + 2
    }

    ghost function View(at: Place): State
      requires Ok()
      reads this, g
    {
      State(g[..], at, given, read)
    }

    predicate IsFull()
      requires Ok()
      reads this, g
    {
      g[TPTR] == (g[CPTR] - 1) % TWBUFF_SIZE
    }

    constructor ()
      ensures Ok() && Initial(View(Outside)) && fresh(g)
    {
      g := new Octet[TWBUFF_SIZE + 2](_ => 0);
      conn := false;
      given, read := [], [];
    }

    /** The debugger reads one byte, if there is one. */
    method ReadOne(ghost at: Place)
      requires Ok() && Inv(View(at))
      modifies this`read, g
      ensures Inv(View(at))
      ensures View(at) == if old(g[CPTR] != g[TPTR]) then Do(old(View(at)), Debugger) else old(View(at))
    {
      if g[CPTR] != g[TPTR] {
        DebuggerKeeps(View(at));
        read := read + [g[g[CPTR]]];
        g[CPTR] := Inc(g[CPTR]);
      }
    }

    /** The debugger reads any number of bytes while the program is at `at`. */
    method Interfere(ghost at: Place)
      requires Ok() && Inv(View(at))
      modifies this`read, g
      ensures Inv(View(at)) && old(read) <= read
    {
      var times: nat :| true;
      for i := 0 to times
        invariant Inv(View(at)) && old(read) <= read
      {
        ReadOne(at);
      }
    }

    /** Waits until the ring is not full. The debugger is taken to read at least one byte
        in each turn of the wait. */
    method AwaitRoom(ghost buf: seq<Octet>, ghost cnt: Octet)
      requires Ok() && Inv(View(Wait(buf, cnt)))
      modifies this`read, g
      ensures Inv(View(Store(buf, cnt))) && old(read) <= read
    {
      Interfere(Wait(buf, cnt));
      while IsFull()
        invariant Inv(View(Wait(buf, cnt))) && old(read) <= read
        decreases IsFull()
      {
        ReadTakesOldest(g[..]);
        ReadOne(Wait(buf, cnt));
      }
      ProgramKeeps(View(Wait(buf, cnt)));
    }

    /** Stores the byte at the write pointer, then moves the pointer. */
    method PutByte(buffer: seq<Octet>, cnt: Octet)
      requires Ok() && Inv(View(Store(buffer, cnt)))
      modifies this`read, g
      ensures Inv(View(Test(buffer, Inc(cnt)))) && old(read) <= read
    {
      var len := g[TPTR];
      ProgramKeeps(View(Store(buffer, cnt)));
      g[len] := buffer[cnt];
      Interfere(Publish(buffer, cnt, len));
      ProgramKeeps(View(Publish(buffer, cnt, len)));
      len := Inc(len);
      g[TPTR] := len;
      Interfere(Test(buffer, Inc(cnt)));
    }

    /** One turn of the write loop. */
    method WriteByte(buffer: seq<Octet>, cnt: Octet)
      requires Ok() && Inv(View(Test(buffer, cnt))) && cnt < |buffer|
      modifies this`read, g
      ensures Inv(View(Test(buffer, Inc(cnt)))) && old(read) <= read
    {
      ProgramKeeps(View(Test(buffer, cnt)));
      AwaitRoom(buffer, cnt);
      PutByte(buffer, cnt);
    }

    /** A write of at most 255 bytes; longer ones never return. */
    method Write(buffer: seq<Octet>) returns (count: nat)
      requires Ok() && Inv(View(Outside)) && |buffer| < 0x100
      modifies this`given, this`read, g
      ensures count == |buffer| && Inv(View(Outside)) && old(read) <= read
      ensures given == if conn then old(given) + buffer else old(given)
    {
      if conn {
        StepKeeps(View(Outside), Call(buffer, true));
        given := given + buffer;
        var cnt: Octet := 0;
        while cnt < |buffer|
          invariant Inv(View(Test(buffer, cnt))) && old(read) <= read && given == old(given) + buffer
        {
          WriteByte(buffer, cnt);
          cnt := Inc(cnt);
        }
        ProgramKeeps(View(Test(buffer, cnt)));
      }
      count := |buffer|;
    }
  }
}
