/** The circular buffer: elements of a fixed size in a byte array, with two moving pointers
    and a count, refines a bounded queue of byte strings. */
module CirqBuffer {
  import opened Memory

  /** The `k`-th element slot of the memory. */
  function Slot(s: seq<Byte>, size: nat, k: nat): seq<Byte> {
    if k * size + size <= |s| then s[k * size..k * size + size] else []
  }

  /** The slot `i` places after slot `first` of `max`, for `i` up to `max`. */
  function SlotAfter(first: nat, i: nat, max: nat): nat {
    if first + i < max then first + i else first + i - max
  }

  /** The `n` elements from slot `first` on. */
  function Elements(s: seq<Byte>, size: nat, max: nat, first: nat, n: nat): seq<seq<Byte>>
    requires n <= max
  {
    seq(n, i requires 0 <= i < n => Slot(s, size, SlotAfter(first, i, max)))
  }

  // ----- slots in memory -----

  lemma SlotsApart(size: nat, k: nat, h: nat)
    requires k < h
    ensures k * size + size <= h * size
  {
    assert h * size == (k + 1) * size + (h - (k + 1)) * size;
  }

  lemma SlotWritten(s: seq<Byte>, max: nat, h: nat, data: seq<Byte>)
    requires |s| == max * |data| && h < max
    ensures h * |data| + |data| <= |s|
    ensures Slot(Splice(s, h * |data|, data), |data|, h) == data
  {
    SlotsApart(|data|, h, max);
  }

  lemma SlotKept(s: seq<Byte>, max: nat, h: nat, data: seq<Byte>, k: nat)
    requires |s| == max * |data| && h < max && k < max && k != h
    requires h * |data| + |data| <= |s|
    ensures Slot(Splice(s, h * |data|, data), |data|, k) == Slot(s, |data|, k)
  {
    SlotsApart(|data|, k, max);
    if k < h {
      SlotsApart(|data|, k, h);
    } else {
      SlotsApart(|data|, h, k);
    }
    var a, b := Slot(Splice(s, h * |data|, data), |data|, k), Slot(s, |data|, k);
    assert |a| == |b| && forall i :: 0 <= i < |a| ==> a[i] == b[i];
  }

  lemma SlotsKept(s: seq<Byte>, max: nat, h: nat, data: seq<Byte>)
    requires |s| == max * |data| && h < max
    ensures h * |data| + |data| <= |s|
    ensures forall k: nat :: k < max && k != h ==> Slot(Splice(s, h * |data|, data), |data|, k) == Slot(s, |data|, k)
  {
    SlotsApart(|data|, h, max);
    forall k: nat | k < max && k != h ensures Slot(Splice(s, h * |data|, data), |data|, k) == Slot(s, |data|, k) {
      SlotKept(s, max, h, data, k);
    }
  }

  /** Writing the slot behind the elements leaves the elements alone. */
  lemma FillKeeps(s: seq<Byte>, max: nat, first: nat, n: nat, data: seq<Byte>)
    requires |s| == max * |data| && first < max && n < max
    ensures var h := SlotAfter(first, n, max);
            && h * |data| + |data| <= |s|
            && Elements(Splice(s, h * |data|, data), |data|, max, first, n) == Elements(s, |data|, max, first, n)
            && Slot(Splice(s, h * |data|, data), |data|, h) == data
  {
    var h := SlotAfter(first, n, max);
    SlotWritten(s, max, h, data);
    forall i | 0 <= i < n
      ensures Slot(Splice(s, h * |data|, data), |data|, SlotAfter(first, i, max)) == Slot(s, |data|, SlotAfter(first, i, max))
    {
      SlotKept(s, max, h, data, SlotAfter(first, i, max));
    }
  }

  /** One more element is the old ones and the slot behind them. */
  lemma OneMore(s: seq<Byte>, size: nat, max: nat, first: nat, n: nat)
    requires n < max
    ensures Elements(s, size, max, first, n + 1) == Elements(s, size, max, first, n) + [Slot(s, size, SlotAfter(first, n, max))]
  {
  }

  /** The elements are the first slot and the elements from the next slot on. */
  lemma OneLess(s: seq<Byte>, size: nat, max: nat, first: nat, n: nat)
    requires 0 < n <= max && first < max
    ensures Elements(s, size, max, first, n) ==
            [Slot(s, size, first)] + Elements(s, size, max, SlotAfter(first, 1, max), n - 1)
  {
  }

  lemma SlotsAdd(first: nat, i: nat, max: nat)
    requires first < max && i < max
    ensures SlotAfter(SlotAfter(first, 1, max), i, max) == SlotAfter(first, i + 1, max)
  {
  }

  lemma PlacesDiffer(size: nat, k: nat, h: nat)
    requires 0 < size && k != h
    ensures k * size != h * size
  {
    if k < h {
      SlotsApart(size, k, h);
    } else {
      SlotsApart(size, h, k);
    }
  }

  /** Where `n` slots are in use, `m` further pushes leave the slot right before the first one
      alone exactly if they do not fill the buffer. */
  lemma PushesSpare(first: nat, n: nat, m: nat, max: nat)
    requires first < max && n + m <= max && 0 < m
    ensures (forall x :: n <= x < n + m ==> SlotAfter(first, x, max) != SlotAfter(first, max - 1, max)) <==> n + m < max
  {
    if n + m == max {
      assert n <= max - 1 < n + m;
    }
  }

  /** Moving a pointer by one element, back to the start at the end of the buffer, moves it by one slot. */
  lemma PointerMoves(size: nat, max: nat, first: nat, i: nat)
    requires first < max && i < max
    ensures var at := SlotAfter(first, i, max) * size;
            (if at + size == max * size then 0 else at + size) == SlotAfter(first, i + 1, max) * size
    ensures SlotAfter(first, i, max) * size + size <= max * size
  {
    var k := SlotAfter(first, i, max);
    SlotsApart(size, k, max);
    assert k * size + size == (k + 1) * size;
    if k + 1 < max {
      SlotsApart(size, k + 1, max);
    }
  }

  class CirqBuffer {
    const buf: array<Byte>
    const bufEnd: nat
    const maxCnt: nat
    const dataSize: nat
    var head: nat      // offsets into the buffer
    var tail: nat
    var currCnt: nat
    ghost var first: nat             // the slot of the oldest element
    ghost var locked: bool           // the producer holds the slot behind the elements
    ghost var pushed: seq<seq<Byte>> // all elements that ever entered, and all that left
    ghost var popped: seq<seq<Byte>>

    ghost predicate Valid()
      reads this, buf
    {
      && bufEnd == buf.Length == maxCnt * dataSize
      && (first < maxCnt || first == maxCnt == 0)
      && Used() <= maxCnt
      && tail == first * dataSize
      && head == SlotAfter(first, Used(), maxCnt) * dataSize
      && pushed == popped + Queue()
    }

    /** Slots in use, the reserved one included. */
    ghost function Used(): nat
      reads this
    {
      currCnt + if locked then 1 else 0
    }

    ghost function Queue(): seq<seq<Byte>>
      reads this, buf
    {
      if currCnt <= maxCnt then Elements(buf[..], dataSize, maxCnt, first, currCnt) else []
    }

    /** The slot the producer holds. */
    ghost function Reserved(): nat
      reads this
    {
      SlotAfter(first, currCnt, maxCnt)
    }

    constructor (buffer: array<Byte>, maxCnt: nat, dataSize: nat)
      requires buffer.Length == maxCnt * dataSize
      ensures Valid() && buf == buffer && this.maxCnt == maxCnt && this.dataSize == dataSize
      ensures Queue() == [] && !locked && pushed == popped == []
    {
      buf := buffer;
      this.maxCnt := maxCnt;
      this.dataSize := dataSize;
      bufEnd := dataSize * maxCnt;
      head, tail, currCnt := 0, 0, 0;
      first, locked, pushed, popped := 0, false, [], [];
    }

    predicate Empty()
      requires Valid()
      reads this, buf
      ensures Empty() <==> Queue() == []
    {
      currCnt == 0
    }

    /** Every slot but `h` is as in the memory `was`. */
    ghost predicate OthersKept(was: seq<Byte>, h: nat)
      reads this, buf
    {
      forall k: nat :: k < maxCnt && k != h ==> Slot(buf[..], dataSize, k) == Slot(was, dataSize, k)
    }

    /** Copies a byte string into the buffer. */
    method CopyIn(at: nat, data: seq<Byte>)
      requires at + |data| <= buf.Length
      modifies buf
      ensures buf[..] == Splice(old(buf[..]), at, data)
    {
      for i := 0 to |data|
        invariant forall k :: 0 <= k < buf.Length ==> buf[k] == if at <= k < at + i then data[k - at] else old(buf[..])[k]
      {
        buf[at + i] := data[i];
      }
    }

    /** Returns 1 and changes nothing exactly if the queue is full. */
    method Push(data: seq<Byte>) returns (rv: nat)
      requires Valid() && !locked && |data| == dataSize
      modifies this, buf
      ensures Valid() && !locked
      ensures rv == if |old(Queue())| == maxCnt then 1 else 0
      ensures Queue() == if rv == 0 then old(Queue()) + [data] else old(Queue())
      ensures pushed == (if rv == 0 then old(pushed) + [data] else old(pushed)) && popped == old(popped)
      ensures first == old(first) && Used() == old(Used()) + if rv == 0 then 1 else 0
      ensures OthersKept(old(buf[..]), old(Reserved()))
    {
      if currCnt == maxCnt {
        return 1;
      }
      ghost var was := buf[..];
      SlotsKept(was, maxCnt, Reserved(), data);
      FillKeeps(was, maxCnt, first, currCnt, data);
      PointerMoves(dataSize, maxCnt, first, currCnt);
      CopyIn(head, data);
      OneMore(buf[..], dataSize, maxCnt, first, currCnt);
      head := head + dataSize;
      if head == bufEnd {
        head := 0;
      }
      currCnt := currCnt + 1;
      pushed := pushed + [data];
      return 0;
    }

    /** Moves the tail over the oldest element. */
    method DropOldest()
      requires Valid() && 0 < currCnt
      modifies this
      ensures Valid() && locked == old(locked) && currCnt == old(currCnt) - 1
      ensures old(Queue()) == [Slot(buf[..], dataSize, old(first))] + Queue()
      ensures Reserved() == old(Reserved())
      ensures locked && 0 < dataSize ==> old(tail) != Reserved() * dataSize
      ensures old(tail) == SlotAfter(first, maxCnt - 1, maxCnt) * dataSize
      ensures pushed == old(pushed) && popped == old(popped) + [old(Queue())[0]]
    {
      if locked && 0 < dataSize {
        PlacesDiffer(dataSize, first, Reserved());
      }
      OneLess(buf[..], dataSize, maxCnt, first, currCnt);
      PointerMoves(dataSize, maxCnt, first, 0);
      SlotsAdd(first, Used() - 1, maxCnt);
      SlotsAdd(first, currCnt - 1, maxCnt);
      ghost var oldest := Slot(buf[..], dataSize, first);
      ghost var rest := Elements(buf[..], dataSize, maxCnt, SlotAfter(first, 1, maxCnt), currCnt - 1);
      assert popped + ([oldest] + rest) == (popped + [oldest]) + rest;
      popped := popped + [oldest];
      tail := tail + dataSize;
      if tail == bufEnd {
        tail := 0;
      }
      first := SlotAfter(first, 1, maxCnt);
      currCnt := currCnt - 1;
      assert Queue() == rest;
    }

    /** Returns 1 and changes nothing exactly if the queue is empty. A slot held by the producer is
        never returned. */
    method Pop() returns (rv: nat, data: seq<Byte>)
      requires Valid()
      modifies this
      ensures Valid() && locked == old(locked) && Reserved() == old(Reserved())
      ensures rv == if old(Queue()) == [] then 1 else 0
      ensures if rv == 0 then old(Queue()) == [data] + Queue() else Queue() == old(Queue())
      ensures pushed == old(pushed) && popped == if rv == 0 then old(popped) + [data] else old(popped)
      ensures rv == 0 ==> old(tail) + dataSize <= buf.Length && data == buf[old(tail)..old(tail) + dataSize]
      ensures rv == 0 && locked && 0 < dataSize ==> old(tail) != Reserved() * dataSize
    {
      if currCnt == 0 {
        return 1, [];
      }
      PointerMoves(dataSize, maxCnt, first, 0);
      data := buf[tail..tail + dataSize];
      DropOldest();
      return 0, data;
    }

    /** Returns the place of the slot behind the elements, and nothing exactly if the queue is full. */
    method PushLock() returns (place: Option<nat>)
      requires Valid() && !locked
      modifies this
      ensures Valid() && Queue() == old(Queue()) && pushed == old(pushed) && popped == old(popped)
      ensures place == if |Queue()| == maxCnt then None else Some(Reserved() * dataSize)
      ensures locked == place.Some?
    {
      if currCnt == maxCnt {
        return None;
      }
      PointerMoves(dataSize, maxCnt, first, currCnt);
      place := Some(head);
      head := head + dataSize;
      if head == bufEnd {
        head := 0;
      }
      locked := true;
    }

    /** The producer writes its element through the place it got; the queue does not see it yet. */
    method Fill(place: nat, data: seq<Byte>)
      requires Valid() && locked && place == Reserved() * dataSize && |data| == dataSize
      modifies buf
      ensures Valid() && Queue() == old(Queue()) && Slot(buf[..], dataSize, Reserved()) == data
      ensures OthersKept(old(buf[..]), Reserved())
    {
      SlotsKept(buf[..], maxCnt, Reserved(), data);
      FillKeeps(buf[..], maxCnt, first, currCnt, data);
      CopyIn(place, data);
    }

    method PushRelease()
      requires Valid() && locked
      modifies this
      ensures Valid() && !locked
      ensures Queue() == old(Queue()) + [Slot(buf[..], dataSize, old(Reserved()))]
      ensures pushed == old(pushed) + [Slot(buf[..], dataSize, old(Reserved()))] && popped == old(popped)
    {
      OneMore(buf[..], dataSize, maxCnt, first, currCnt);
      pushed := pushed + [Slot(buf[..], dataSize, Reserved())];
      currCnt := currCnt + 1;
      locked := false;
    }

    /** Returns the place of the oldest element, and nothing exactly if the queue is empty. The
        element has then left the queue already; its place is the slot right before the first
        one, which the next pushes reach last. */
    method PopLock() returns (place: Option<nat>)
      requires Valid()
      modifies this
      ensures Valid() && locked == old(locked) && Reserved() == old(Reserved())
      ensures place.None? <==> old(Queue()) == []
      ensures place.None? ==> Queue() == old(Queue()) && popped == old(popped)
      ensures place.Some? ==>
        && place.value + dataSize <= buf.Length
        && old(Queue()) == [buf[place.value..place.value + dataSize]] + Queue()
        && popped == old(popped) + [buf[place.value..place.value + dataSize]]
        && place.value == SlotAfter(first, maxCnt - 1, maxCnt) * dataSize
        && (locked && 0 < dataSize ==> place.value != Reserved() * dataSize)
      ensures pushed == old(pushed)
    {
      if currCnt == 0 {
        return None;
      }
      PointerMoves(dataSize, maxCnt, first, 0);
      place := Some(tail);
      DropOldest();
    }
  }
}
