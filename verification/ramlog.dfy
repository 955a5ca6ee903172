/** The log in memory: characters overwrite the oldest ones. */
module Ramlog {
  import opened CString

  datatype Log = Log(mem: seq<char>, curr: nat)

  predicate Valid(l: Log) {
    l.curr < |l.mem|
  }

  function Put(l: Log, c: char): (r: Log)
    requires Valid(l)
    ensures Valid(r) && |r.mem| == |l.mem|
  {
    Log(l.mem[l.curr := c], if l.curr + 1 >= |l.mem| then 0 else l.curr + 1)
  }

  function PutAll(l: Log, text: seq<char>): (r: Log)
    requires Valid(l)
    ensures Valid(r) && |r.mem| == |l.mem|
    decreases |text|
  {
    if text == [] then l else Put(PutAll(l, text[..|text| - 1]), text[|text| - 1])
  }

  /** The memory from the oldest character to the newest. */
  function Window(l: Log): (r: seq<char>)
    requires Valid(l)
    ensures |r| == |l.mem|
  {
    l.mem[l.curr..] + l.mem[..l.curr]
  }

  lemma PutShifts(l: Log, c: char)
    requires Valid(l)
    ensures Window(Put(l, c)) == Window(l)[1..] + [c]
  {
    var r := Put(l, c);
    forall i | 0 <= i < |l.mem| ensures Window(r)[i] == (Window(l)[1..] + [c])[i] {
    }
  }

  lemma DropShifts(a: seq<char>, t: seq<char>)
    requires 0 < |t| && 0 < |a|
    ensures ((a + t[..|t| - 1])[|t| - 1..])[1..] + [t[|t| - 1]] == (a + t)[|t|..]
  {
    assert a + t == a + t[..|t| - 1] + [t[|t| - 1]];
  }

  /** Logging text shifts it into the memory at the end, and the oldest characters out. */
  lemma {:induction false} TextShiftsIn(l: Log, text: seq<char>)
    requires Valid(l)
    ensures Window(PutAll(l, text)) == (Window(l) + text)[|text|..]
    decreases |text|
  {
    if text != [] {
      TextShiftsIn(l, text[..|text| - 1]);
      PutShifts(PutAll(l, text[..|text| - 1]), text[|text| - 1]);
      DropShifts(Window(l), text);
    }
  }

  lemma {:induction false} FirstRound(l: Log, text: seq<char>)
    requires Valid(l) && l.curr + |text| < |l.mem|
    ensures PutAll(l, text).curr == l.curr + |text|
    decreases |text|
  {
    if text != [] {
      FirstRound(l, text[..|text| - 1]);
    }
  }

  /** The memory from its window and the position. */
  lemma MemoryFromWindow(l: Log)
    requires Valid(l)
    ensures l.mem == Window(l)[|l.mem| - l.curr..] + Window(l)[..|l.mem| - l.curr]
  {
    assert Window(l)[|l.mem| - l.curr..] == l.mem[..l.curr];
    assert Window(l)[..|l.mem| - l.curr] == l.mem[l.curr..];
  }

  lemma ShortDrop(mem: seq<char>, text: seq<char>)
    requires |text| <= |mem|
    ensures (mem + text)[|text|..] == mem[|text|..] + text
  {
  }

  lemma LongDrop(mem: seq<char>, text: seq<char>)
    requires |mem| <= |text|
    ensures (mem + text)[|text|..] == text[|text| - |mem|..]
  {
  }

  lemma SplitParts(a: seq<char>, b: seq<char>)
    ensures (a + b)[|a|..] == b && (a + b)[..|a|] == a
  {
  }

  /** After Init the memory holds everything logged, before the old content, and from the
      first wrap on exactly the last characters logged, as many as fit. */
  lemma HoldsLast(mem: seq<char>, text: seq<char>)
    requires 0 < |mem|
    ensures var l := PutAll(Log(mem, 0), text);
            if |text| < |mem| then l.curr == |text| && l.mem == text + mem[|text|..]
            else Window(l) == text[|text| - |mem|..]
  {
    var start := Log(mem, 0);
    var l := PutAll(start, text);
    TextShiftsIn(start, text);
    assert Window(start) == mem;
    if |text| < |mem| {
      FirstRound(start, text);
      ShortDrop(mem, text);
      MemoryFromWindow(l);
      SplitParts(mem[|text|..], text);
    } else {
      LongDrop(mem, text);
    }
  }

  class RamLog {
    const ramlog: array<char>
    var curr: nat
    ghost const initial: seq<char>
    ghost var logged: seq<char>

    ghost function View(): Log
      reads this, ramlog
    {
      Log(ramlog[..], curr)
    }

    /** The memory is what logging everything so far makes of its content at the start. */
    ghost predicate Valid()
      reads this, ramlog
    {
      0 < |initial| && View() == PutAll(Log(initial, 0), logged)
    }

    /** The log in a memory that keeps its content over a reset. */
    constructor (memory: array<char>)
      requires 0 < memory.Length
      ensures Valid() && ramlog == memory && initial == memory[..] && logged == []
    {
      ramlog, curr := memory, 0;
      initial, logged := memory[..], [];
    }

    /** The log holds the last characters logged, as many as fit. */
    lemma Holds()
      requires Valid()
      ensures if |logged| < ramlog.Length then ramlog[..curr] == logged
              else ramlog[curr..] + ramlog[..curr] == logged[|logged| - ramlog.Length..]
    {
      HoldsLast(initial, logged);
      assert Window(View()) == ramlog[curr..] + ramlog[..curr];
    }

    method PutChar(c: char)
      requires Valid()
      modifies this, ramlog
      ensures Valid() && logged == old(logged) + [c]
      ensures View() == Put(old(View()), c)
    {
      assert (logged + [c])[..|logged|] == logged;
      ramlog[curr] := c;
      curr := curr + 1;
      if curr >= ramlog.Length {
        curr := 0;
      }
      logged := logged + [c];
    }

    method FPuts(str: seq<char>)
      requires Valid() && Terminated(str, 0)
      modifies this, ramlog
      ensures Valid() && logged == old(logged) + StringAt(str, 0)
    {
      var i := 0;
      while str[i] != NUL
        invariant Valid() && i <= StringEnd(str, 0) == StringEnd(str, i) && logged == old(logged) + str[..i]
        decreases |str| - i
      {
        PutChar(str[i]);
        i := i + 1;
      }
    }

    method Puts(str: seq<char>)
      requires Valid() && Terminated(str, 0)
      modifies this, ramlog
      ensures Valid() && logged == old(logged) + StringAt(str, 0) + ['\n']
    {
      FPuts(str);
      PutChar('\n');
    }

    /** Unlike FPuts it does not stop at a terminator. */
    method Write(data: seq<char>, nbytes: nat) returns (count: nat)
      requires Valid() && nbytes <= |data|
      modifies this, ramlog
      ensures Valid() && logged == old(logged) + data[..nbytes] && count == nbytes
    {
      for i := 0 to nbytes
        invariant Valid() && logged == old(logged) + data[..i]
      {
        PutChar(data[i]);
      }
      count := nbytes;
    }
  }
}
