/** The dispatcher: scheduler.c and the semaphores of wait.c, with a context switch as a change of the current thread. */
module Dispatcher {
  import opened DispatcherSpec

  class Kernel {
    const prio: seq<nat>
    const slice: seq<int>
    var state: seq<ThreadState>
    var quantum: seq<int>
    var waitsOn: seq<nat>        // the object in the thread's wait block
    var ready: seq<seq<nat>>     // Scheduler_list
    var current: nat
    var due: bool                // the scheduler DPC is queued
    var exited: seq<nat>         // ExitThreadList
    var sems: seq<Semaphore>     // signal, limit and waiters are the program's, the other fields record history

    function W(): World
      reads this
    {
      World(prio, slice, state, quantum, waitsOn, ready, current, due, exited, sems)
    }

    /** After boot: thread 1 runs, and the idle thread was made ready before it got its priority; the others are new. */
    constructor (priorities: seq<nat>, slices: seq<int>)
      requires 1 < |priorities| == |slices| && priorities[0] == IDLE && priorities[1] == NORMAL
      requires forall t :: 0 <= t < |priorities| ==> IDLE <= priorities[t] <= MAX
      ensures Safe(W()) && Boot(W(), 1) && prio == priorities
    {
      prio, slice := priorities, slices;
      state := seq(|priorities|, t => if t == 0 then Ready else if t == 1 then Running else Initialized);
      quantum, waitsOn := slices, seq(|priorities|, t => 0);
      ready := seq(MAX + 1, p => if p == NORMAL then [0] else []);
      current, due, exited, sems := 1, false, [], [];
      new;
      hide Safe, Early, Inv;
      BootIsEarly(W(), 1);
    }

    /** KiSelectNextThread: takes the head of the highest ready queue not below `floor`. */
    method SelectNextThread(floor: nat) returns (found: bool, t: nat)
      requires Sized(W()) && HeadsOk(W()) && IDLE <= floor <= MAX
      modifies this`ready
      ensures
        var p := Top(old(ready), MAX, floor);
        && found == (p >= 0)
        && (found ==> t == old(ready)[p][0] && ready == old(ready)[p := old(ready)[p][1..]])
        && (found ==> W() == TakeHead(old(W()), p))
        && (!found ==> ready == old(ready))
    {
      var p := MAX;
      var list := p;
      t := 0;
      while true
        invariant 0 <= p <= MAX && p + 1 >= floor && Top(ready, MAX, floor) == Top(ready, p, floor)
        decreases p
      {
        if p < floor {
          return false, 0;
        }
        list := p;
        p := p - 1;
        if ready[list] != [] {
          break;
        }
      }
      t := ready[list][0];
      ready := ready[list := ready[list][1..]];
      found := true;
    }

    /** KiSwapThread. */
    method SwapThread(t: nat)
      requires Sized(W()) && t < |prio| && state[t] == Ready
      modifies this`state, this`current
      ensures W() == SwapTo(old(W()), t) && state == old(state)[t := Running] && current == t
    {
      state := state[t := Running];
      current := t;
    }

    /** KiReadyThread. */
    method ReadyThread(t: nat)
      requires Sized(W()) && t < |prio| && state[t] in {Initialized, Waiting, Running}
      modifies this`state, this`quantum, this`ready
      ensures W() == MakeReady(old(W()), t)
      ensures BecameReady(old(W()), W(), t)
    {
      state := state[t := Ready];
      quantum := quantum[t := slice[t]];
      ready := ready[prio[t] := ready[prio[t]] + [t]];
    }

    /** KiBlockThread. There is always a thread to run. */
    method BlockThread()
      requires Sized(W()) && HeadsOk(W()) && QueuedAreReady() && state[current] == Running
      requires Top(ready, MAX, IDLE) >= IDLE
      modifies this`state, this`ready, this`current
      ensures W() == Leave(old(W()), Waiting) && GaveUp(old(W()), W(), Waiting)
    {
      TopIsHighest(W(), IDLE);
      state := state[current := Waiting];
      var found, next := SelectNextThread(IDLE);
      SwapThread(next);
    }

    ghost predicate QueuedAreReady()
      reads this
      requires Sized(W()) && HeadsOk(W())
    {
      forall p :: 0 <= p <= MAX && ready[p] != [] ==> state[ready[p][0]] == Ready
    }

    lemma ReadyHeads()
      requires Safe(W())
      ensures Heads(W()) && QueuedAreReady() && state[current] == Running
      ensures current != 0 ==> Top(ready, MAX, IDLE) >= IDLE
    {
      var w := if Inv(W()) then W() else Raised(W());
      if current != 0 {
        SomebodyRuns(w);
      }
      forall p | 0 <= p <= MAX && ready[p] != [] ensures state[ready[p][0]] == Ready {
        assert QueueOk(w, p);
        assert w.ready[p][0] in w.ready[p];
      }
    }

    /** Schedule: gives the processor to the first thread of the highest ready queue, unless the running thread
        outranks it. A thread that terminated does not come back. */
    method Schedule()
      requires Sized(W()) && HeadsOk(W()) && QueuedAreReady()
      requires state[current] == Running || (state[current] == Terminated && Top(ready, MAX, IDLE) >= IDLE)
      modifies this`state, this`ready, this`quantum, this`current, this`exited
      ensures W() == if old(state[current]) == Terminated
                     then Leave(old(W()), Terminated).(exited := old(exited) + [old(current)])
                     else DispatcherSpec.Schedule(old(W()))
    {
      var found, next;
      var c := current;
      if state[c] == Terminated {
        found, next := SelectNextThread(IDLE);
        exited := exited + [c];
        SwapThread(next);
        assert old(state) == old(state)[c := Terminated];
      } else {
        found, next := SelectNextThread(prio[c]);
        if found {
          ReadyThread(c);
          SwapThread(next);
        }
      }
    }

    /** The thread ends. */
    method ExitThread()
      requires Safe(W()) && current != 0
      modifies this`state, this`ready, this`quantum, this`current, this`exited
      ensures Safe(W()) && W() == Step(old(W()), DoTerminate) && Happened(old(W()), W(), DoTerminate)
      ensures Supreme(W()) <==> old(Inv(W()) || !PicksIdle(W(), IDLE) || AllIdle(W()))
    {
      hide Inv, Early, Supreme, PicksIdle, AllIdle, Safe, Top, Happened;
      SafeStep(W(), DoTerminate);
      SafeHeads(W());
      StepDoes(W(), DoTerminate);
      BlockingHere(0);
      ReadyHeads();
      state := state[current := Terminated];
      Schedule();
      assert W() == Step(old(W()), DoTerminate);
    }

    lemma BlockingHere(s: nat)
      requires Safe(W()) && current != 0
      ensures HeadsOk(W()) && (Supreme(Terminate(W())) <==> Inv(W()) || !PicksIdle(W(), IDLE) || AllIdle(W()))
      ensures s < |sems| && sems[s].signal == 0 ==>
        (Supreme(Acquire(W(), s)) <==> Inv(W()) || !PicksIdle(W(), IDLE) || AllIdle(W()))
    {
      LeaveRunsHighest(W(), Terminated);
      if s < |sems| {
        BlockingRunsHighest(W(), s);
      }
      hide Inv, Early, PicksIdle, AllIdle;
    }

    /** The scheduler DPC. */
    method ScheduleDpc()
      requires Safe(W())
      modifies this`state, this`ready, this`quantum, this`current, this`exited, this`due
      ensures Safe(W()) && W() == Step(old(W()), DoSchedule) && TookTurns(old(W()), W())
      ensures Supreme(W()) <==>
        old(Inv(W()) || !PicksIdle(W(), prio[current]) || (AllIdle(W()) && prio[current] == IDLE))
    {
      hide Inv, Early, Supreme, PicksIdle, AllIdle, TookTurns, DispatcherSpec.Schedule;
      DueIsNoMatter(W());
      SafeStep(W(), DoSchedule);
      ScheduleDoes(W());
      ScheduleRunsHighest(W());
      ReadyHeads();
      due := false;
      Schedule();
    }

    /** KiThreadTimerISR: queues the scheduler DPC when the time slice is used up. */
    method TimerISR()
      requires Safe(W())
      modifies this`quantum, this`due
      ensures Safe(W()) && W() == Step(old(W()), TimerTick)
      ensures quantum[current] == old(quantum[current]) - 1 && (due <==> old(due) || quantum[current] <= 0)
    {
      hide Inv, Early;
      SafeStep(W(), TimerTick);
      ReadyHeads();
      quantum := quantum[current := quantum[current] - 1];
      if quantum[current] <= 0 {
        due := true;
      }
    }

    /** What waiting comes to. */
    lemma AskingDoes(s: nat)
      requires Safe(W()) && s < |sems| && current != 0
      ensures Heads(W()) && AskedFor(W(), Step(W(), WaitFor(s)), s) && Step(W(), WaitFor(s)).slice == slice
      ensures
        var r := Step(W(), WaitFor(s));
        if sems[s].signal != 0 then
          && sems[s].signal > 0 && r.current == current && r.state == state && r.ready == ready
          && r.sems[s].signal == sems[s].signal - 1 && r.sems[s].arrived == sems[s].arrived + [current]
          && r.sems[s].granted == sems[s].granted + [current]
        else
          && r.sems[s].waiters == sems[s].waiters + [current]
          && |r.state| > current && r.state[current] == Waiting && |r.waitsOn| > current && r.waitsOn[current] == s
    {
      hide Inv, Early, Step;
      SafeHeads(W());
      SafeSignals(W(), s);
      SafeStep(W(), WaitFor(s));
      StepDoes(W(), WaitFor(s));
      var r := Step(W(), WaitFor(s));
      SafeHeads(r);
      SafeSignals(r, s);
      if sems[s].signal == 0 {
        assert current in r.sems[s].waiters;
        assert WaitsFor(r, current, s);
      }
    }

    /** KiDHeaderAcquire, as KeWaitForSingleObject calls it: takes the semaphore, or waits in line for it. */
    method WaitForSingleObject(s: nat)
      requires Safe(W()) && s < |sems| && current != 0
      modifies this
      ensures Safe(W()) && W() == Step(old(W()), WaitFor(s)) && AskedFor(old(W()), W(), s)
      ensures old(sems[s].signal) > 0 ==>
        && sems[s].signal == old(sems[s].signal) - 1
        && sems[s].arrived == old(sems[s].arrived) + [old(current)]
        && sems[s].granted == old(sems[s].granted) + [old(current)]
        && current == old(current) && state == old(state) && ready == old(ready)
      ensures old(sems[s].signal) == 0 ==>
        && sems[s].waiters == old(sems[s].waiters) + [old(current)]
        && state[old(current)] == Waiting && waitsOn[old(current)] == s
      ensures old(sems[s].signal) == 0 ==>
        (Supreme(W()) <==> old(Inv(W()) || !PicksIdle(W(), IDLE) || AllIdle(W())))
    {
      hide Inv, Early, Supreme, PicksIdle, AllIdle, AskedFor;
      AskingDoes(s);
      SafeStep(W(), WaitFor(s));
      BlockingHere(s);
      ReadyHeads();
      var m := sems[s].(arrived := sems[s].arrived + [current]);
      if m.signal == 0 {
        waitsOn := waitsOn[current := s];
        sems := sems[s := m.(waiters := m.waiters + [current])];
        BlockThread();
      } else {
        sems := sems[s := m.(signal := m.signal - 1, granted := m.granted + [current])];
      }
    }

    /** KiDHeaderRelease: hands the semaphore to the first that waits, or signals it. */
    method DHeaderRelease(s: nat)
      requires Safe(W()) && s < |sems| && sems[s].signal < sems[s].limit && sems[s].signal < MAX_SIGNAL
      modifies this`sems, this`state, this`quantum, this`ready
      ensures Safe(W()) && W() == Step(old(W()), ReleaseOf(s)) && HandedOn(old(W()), W(), s)
    {
      hide Inv, Early, Step, MakeReady, Kernel.QueuedAreReady, HandedOn;
      StepDoes(W(), ReleaseOf(s));
      ReleaseIs(W(), s);
      SafeStep(W(), ReleaseOf(s));
      FirstWaits(W(), s);
      ReadyHeads();
      var m := sems[s].(released := sems[s].released + 1);
      if m.waiters != [] {
        var t := m.waiters[0];
        sems := sems[s := m.(waiters := m.waiters[1..], granted := m.granted + [t])];
        ReadyThread(t);
      } else {
        sems := sems[s := m.(signal := m.signal + 1)];
      }
    }

    /** KeReleaseSemaphore: one release; returns the state before. */
    method ReleaseSemaphore(s: nat) returns (oldState: int)
      requires Safe(W()) && s < |sems| && sems[s].signal < sems[s].limit && sems[s].signal < MAX_SIGNAL
      modifies this`sems, this`state, this`quantum, this`ready
      ensures Safe(W()) && W() == Step(old(W()), ReleaseOf(s)) && oldState == old(sems[s].signal)
      ensures HandedOn(old(W()), W(), s) && (oldState > 0 ==> old(sems[s].waiters) == [])
    {
      SignalsOk(W(), s);
      oldState := sems[s].signal;
      DHeaderRelease(s);
    }

    /** KeInitializeSemaphore. */
    method InitializeSemaphore(count: int, limit: int) returns (s: nat)
      requires Safe(W()) && 0 <= count <= limit
      modifies this`sems
      ensures Safe(W()) && s == old(|sems|) && sems == old(sems) + [NewWith(count, limit)]
      ensures sems[s].signal == sems[s].initial == count && sems[s].limit == limit
      ensures sems[s].waiters == sems[s].arrived == sems[s].granted == [] && sems[s].released == 0
    {
      SafeStep(W(), NewSemaphore(count, limit));
      s := |sems|;
      sems := sems + [NewWith(count, limit)];
    }

    /** Any sequence of events the kernel allows: the machine does what the specification says, and is safe throughout. */
    method Run(es: seq<Event>)
      requires Safe(W()) && Legal(W(), es)
      modifies this
      ensures Safe(W()) && W() == RunAll(old(W()), es) && (Inv(W()) <==> old(Inv(W())) || Runs(old(W()), es, 0))
    {
      InOrderOnceIdleRan(W(), es);
      var i := 0;
      while i < |es|
        invariant i <= |es| && Safe(W()) && Legal(W(), es[i..]) && RunAll(W(), es[i..]) == RunAll(old(W()), es)
      {
        ghost var rest := es[i..];
        assert rest[0] == es[i] && rest[1..] == es[i + 1..];
        Do(es[i]);
        i := i + 1;
      }
    }

    method Do(e: Event)
      requires Safe(W()) && Enabled(W(), e)
      modifies this
      ensures Safe(W()) && W() == Step(old(W()), e)
    {
      match e
      case TimerTick => TimerISR();
      case DoSchedule => ScheduleDpc();
      case DoTerminate => ExitThread();
      case Reap =>
        SafeStep(W(), e);
        exited := [];
      case Start(t) =>
        SafeStep(W(), e);
        ReadyThread(t);
      case NewSemaphore(count, limit) => var s := InitializeSemaphore(count, limit);
      case WaitFor(s) => WaitForSingleObject(s);
      case ReleaseOf(s) => var was := ReleaseSemaphore(s);
    }
  }

  lemma DueIsNoMatter(w: World)
    requires Safe(w)
    ensures Heads(w) && DispatcherSpec.Schedule(w.(due := false)) == DispatcherSpec.Schedule(w).(due := false)
  {
    hide Inv, Early;
  }

  lemma FirstWaits(w: World, s: nat)
    requires Safe(w) && s < |w.sems|
    ensures w.sems[s].waiters != [] ==> WaitsFor(w, w.sems[s].waiters[0], s)
  {
    var r := if Inv(w) then w else Raised(w);
    assert WaitOk(r, s);
    assert w.sems[s].waiters != [] ==> r.sems[s].waiters[0] in r.sems[s].waiters;
  }

  lemma ReleaseIs(w: World, s: nat)
    requires Safe(w) && Enabled(w, ReleaseOf(s))
    ensures
      var m, r := w.sems[s].(released := w.sems[s].released + 1), Step(w, ReleaseOf(s));
      if m.waiters == [] then r == w.(sems := w.sems[s := m.(signal := m.signal + 1)])
      else
        m.waiters[0] < |w.prio| && r == MakeReady(
          w.(sems := w.sems[s := m.(waiters := m.waiters[1..], granted := m.granted + [m.waiters[0]])]), m.waiters[0])
  {
    hide Inv, Early, MakeReady;
  }

  lemma SignalsOk(w: World, s: nat)
    requires Safe(w) && s < |w.sems|
    ensures SignalOk(w.sems[s])
  {
    var r := if Inv(w) then w else Raised(w);
    assert SignalOk(r.sems[s]);
  }
}
