/** Task sleep: a 32-bit tick counter and one timeout per task, scanned at every tick. */
module Sleep {
  import opened Memory

  datatype Entry = Entry(timeout: nat, active: bool, mask: nat)

  /** An event set for a task, with the number of ticks since the start (for specification). */
  datatype Event = Event(task: nat, mask: nat, at: nat)

  /** `next` is the entry the scan looks at next; past the last one the sleep task waits for
      its alarm. `total` counts ticks without wrapping around, and `log` the events set. */
  datatype State = State(ticks: nat, list: seq<Entry>, next: nat, total: nat, log: seq<Event>)

  ghost predicate Valid(s: State) {
    && s.ticks < U32_MOD && s.next <= |s.list|
    && forall i :: 0 <= i < |s.list| ==> s.list[i].timeout < U32_MOD
  }

  datatype Action = CallSleep(nofTicks: nat, task: nat, mask: nat) | Tick | Scan

  ghost predicate Enabled(s: State, a: Action) {
    match a
    case CallSleep(n, _, _) => n < U32_MOD
    case Tick => s.next == |s.list|
    case Scan => s.next < |s.list|
  }

  /** A sleep of no ticks is one of one tick. */
  function Delay(nofTicks: nat): nat {
    if nofTicks == 0 then 1 else nofTicks
  }

  function Do(s: State, a: Action): State
    requires a == Scan ==> s.next < |s.list|
  {
    match a
    case CallSleep(n, task, mask) =>
      if task < |s.list| then s.(list := s.list[task := Entry(U32(s.ticks + Delay(n)), true, mask)]) else s
    case Tick => s.(ticks := U32(s.ticks + 1), next := 0, total := s.total + 1)
    case Scan =>
      var e := s.list[s.next];
      if e.active && e.timeout == s.ticks
      then s.(list := s.list[s.next := e.(active := false)], next := s.next + 1,
              log := s.log + [Event(s.next, e.mask, s.total)])
      else s.(next := s.next + 1)
  }

  // ----- runs -----

  datatype Run = Run(ss: seq<State>, acts: seq<Action>)

  ghost predicate ValidRun(r: Run) {
    && |r.ss| == |r.acts| + 1 && Valid(r.ss[0])
    && forall i :: 0 <= i < |r.acts| ==> Enabled(r.ss[i], r.acts[i]) && r.ss[i + 1] == Do(r.ss[i], r.acts[i])
  }

  /** The events of one task. */
  function EventsOf(log: seq<Event>, task: nat): seq<Event> {
    if log == [] then []
    else
      var e := log[|log| - 1];
      EventsOf(log[..|log| - 1], task) + if e.task == task then [e] else []
  }

  lemma EventsOfAppend(log: seq<Event>, e: Event, task: nat)
    ensures EventsOf(log + [e], task) == EventsOf(log, task) + if e.task == task then [e] else []
  {
    assert (log + [e])[..|log|] == log;
  }

  /** The run starts with a sleep of `task`, and the task is not armed again. */
  ghost predicate SleepRun(r: Run, n: nat, task: nat, mask: nat) {
    && ValidRun(r) && 0 < |r.acts|
    && r.acts[0] == CallSleep(n, task, mask) && task < |r.ss[0].list|
    && forall i :: 0 < i < |r.acts| ==> !(r.acts[i].CallSleep? && r.acts[i].task == task)
  }

  /** The scan of the tick the task sleeps for has passed the task's entry. */
  predicate Fired(s: State, task: nat, due: nat) {
    due < s.total || (s.total == due && task < s.next)
  }

  /** From the sleep on: the entry waits for its tick, or the one event has been set. */
  ghost predicate Waiting(s0: State, s: State, n: nat, task: nat, mask: nat) {
    var due := s0.total + Delay(n);
    && Valid(s) && |s.list| == |s0.list| && task < |s.list| && s0.total <= s.total
    && s.ticks == U32(s0.ticks + (s.total - s0.total))
    && EventsOf(s.log, task) == EventsOf(s0.log, task) + (if Fired(s, task, due) then [Event(task, mask, due)] else [])
    && (if Fired(s, task, due) then !s.list[task].active
        else s.list[task] == Entry(U32(s0.ticks + Delay(n)), true, mask))
  }

  /** Within one turn of the counter the timeout meets the counter only at the right tick. */
  lemma TimeoutMeets(start: nat, passed: nat, delay: nat)
    requires start < U32_MOD && passed <= delay < U32_MOD
    ensures U32(start + passed) == U32(start + delay) <==> passed == delay
  {
  }

  lemma CounterAdvances(start: nat, passed: nat)
    ensures U32(U32(start + passed) + 1) == U32(start + (passed + 1))
  {
  }

  /** The scan looks at the entry of another task. */
  lemma ScanOther(s0: State, s: State, n: nat, task: nat, mask: nat)
    requires Waiting(s0, s, n, task, mask) && s.next < |s.list| && s.next != task
    ensures Waiting(s0, Do(s, Scan), n, task, mask)
  {
    EventsOfAppend(s.log, Event(s.next, s.list[s.next].mask, s.total), task);
    assert Fired(Do(s, Scan), task, s0.total + Delay(n)) == Fired(s, task, s0.total + Delay(n));
  }

  /** The scan looks at the task's own entry: it sets the event exactly at the tick that is due. */
  lemma ScanOwn(s0: State, s: State, n: nat, task: nat, mask: nat)
    requires Valid(s0) && n < U32_MOD && Waiting(s0, s, n, task, mask) && s.next == task
    ensures Waiting(s0, Do(s, Scan), n, task, mask)
  {
    var due := s0.total + Delay(n);
    if Fired(s, task, due) {
      assert Do(s, Scan) == s.(next := s.next + 1);
    } else {
      TimeoutMeets(s0.ticks, s.total - s0.total, Delay(n));
      if s.total == due {
        EventsOfAppend(s.log, Event(task, mask, due), task);
      } else {
        assert Do(s, Scan) == s.(next := s.next + 1);
      }
    }
  }

  lemma ScanKeepsWaiting(s0: State, s: State, n: nat, task: nat, mask: nat)
    requires Valid(s0) && n < U32_MOD && Waiting(s0, s, n, task, mask) && s.next < |s.list|
    ensures Waiting(s0, Do(s, Scan), n, task, mask)
  {
    if s.next == task {
      ScanOwn(s0, s, n, task, mask);
    } else {
      ScanOther(s0, s, n, task, mask);
    }
  }

  lemma TickKeepsWaiting(s0: State, s: State, n: nat, task: nat, mask: nat)
    requires Valid(s0) && n < U32_MOD && Waiting(s0, s, n, task, mask) && s.next == |s.list|
    ensures Waiting(s0, Do(s, Tick), n, task, mask)
  {
    CounterAdvances(s0.ticks, s.total - s0.total);
  }

  lemma StepKeepsWaiting(s0: State, s: State, a: Action, n: nat, task: nat, mask: nat)
    requires Valid(s0) && n < U32_MOD && Waiting(s0, s, n, task, mask)
    requires Enabled(s, a) && !(a.CallSleep? && a.task == task)
    ensures Waiting(s0, Do(s, a), n, task, mask)
  {
    match a
    case CallSleep(_, _, _) =>
    case Tick => TickKeepsWaiting(s0, s, n, task, mask);
    case Scan => ScanKeepsWaiting(s0, s, n, task, mask);
  }

  lemma {:induction false} WaitingAt(r: Run, n: nat, task: nat, mask: nat, i: nat)
    requires SleepRun(r, n, task, mask) && 0 < i < |r.ss|
    ensures Waiting(r.ss[0], r.ss[i], n, task, mask)
  {
    if i == 1 {
      var s := r.ss[1];
      assert s == Do(r.ss[0], r.acts[0]);
      assert s.ticks == U32(s.ticks + 0);
    } else {
      WaitingAt(r, n, task, mask, i - 1);
      StepKeepsWaiting(r.ss[0], r.ss[i - 1], r.acts[i - 1], n, task, mask);
    }
  }

  /** A task that sleeps `n` ticks and is not armed again gets exactly one event, in the scan
      of the max(n, 1)-th tick after the call: none before, none after, whatever other
      tasks do and wherever the counter wraps around. */
  lemma WakesExactlyOnTime(r: Run, n: nat, task: nat, mask: nat, i: nat)
    requires SleepRun(r, n, task, mask) && 0 < i < |r.ss|
    ensures var due := r.ss[0].total + (if n == 0 then 1 else n);
            EventsOf(r.ss[i].log, task) ==
              EventsOf(r.ss[0].log, task) +
              (if due < r.ss[i].total || (r.ss[i].total == due && task < r.ss[i].next)
               then [Event(task, mask, due)] else [])
  {
    WaitingAt(r, n, task, mask, i);
  }

  // ----- the sleep module -----

  /** The rest of a scan. */
  function ScanRest(s: State): State
    requires s.next <= |s.list|
    decreases |s.list| - s.next
  {
    if s.next == |s.list| then s else ScanRest(Do(s, Scan))
  }

  class SleepModule {
    var ticks: nat
    const timeoutlist: array<Entry>
    ghost var next: nat
    ghost var total: nat
    ghost var log: seq<Event>

    ghost function View(): State
      reads this, timeoutlist
    {
      State(ticks, timeoutlist[..], next, total, log)
    }

    /** The number of tasks is fixed; no entry is active at the start. */
    constructor (taskCount: nat)
      ensures Valid(View()) && |View().list| == taskCount && fresh(timeoutlist)
      ensures View().next == taskCount && log == [] && forall i :: 0 <= i < taskCount ==> !timeoutlist[i].active
    {
      ticks, next, total, log := 0, taskCount, 0, [];
      timeoutlist := new Entry[taskCount](_ => Entry(0, false, 0));
    }

    /** Returns false where the source reports a limit error. */
    method CallSleep(nofTicks: nat, task: nat, mask: nat) returns (ok: bool)
      requires nofTicks < U32_MOD
      modifies timeoutlist
      ensures View() == Do(old(View()), Action.CallSleep(nofTicks, task, mask))
      ensures ok == (task < timeoutlist.Length)
    {
      var n := nofTicks;
      if n == 0 {
        n := 1;
      }
      if task < timeoutlist.Length {
        timeoutlist[task] := Entry(U32(ticks + n), true, mask);
        return true;
      }
      return false;
    }

    /** The alarm: the counter goes on, and a scan begins. */
    method CountTick()
      requires next == timeoutlist.Length
      modifies this
      ensures View() == Do(old(View()), Tick)
    {
      ticks := U32(ticks + 1);
      next := 0;
      total := total + 1;
    }

    /** One entry of the scan, without interruption. */
    method ScanEntry(i: nat)
      requires i == next < timeoutlist.Length
      modifies this, timeoutlist
      ensures View() == Do(old(View()), Scan)
    {
      if timeoutlist[i].active && timeoutlist[i].timeout == ticks {
        timeoutlist[i] := timeoutlist[i].(active := false);
        log := log + [Event(i, timeoutlist[i].mask, total)];
      }
      next := next + 1;
    }

    /** One turn of the sleep task's loop, when nothing comes in between. */
    method Turn()
      requires next == timeoutlist.Length
      modifies this, timeoutlist
      ensures View() == ScanRest(Do(old(View()), Tick)) && next == timeoutlist.Length
    {
      CountTick();
      var i := 0;
      while i < timeoutlist.Length
        invariant i == next <= timeoutlist.Length
        invariant ScanRest(View()) == ScanRest(Do(old(View()), Tick))
      {
        ScanEntry(i);
        i := i + 1;
      }
    }
  }
}
