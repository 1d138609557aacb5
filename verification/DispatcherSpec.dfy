/** The dispatcher as a step machine: ready queues by priority, the running thread, and semaphores. */
module DispatcherSpec {
  import opened Common

  const IDLE := 1
  const NORMAL := 3
  const MAX := 6
  const MAX_SIGNAL := 100

  datatype ThreadState = Initialized | Ready | Running | Waiting | Terminated

  /** A counting semaphore, and what happened to it: the threads that asked for it, those that got it, each in order,
      and the number of releases. */
  datatype Semaphore = Semaphore(signal: int, limit: int, waiters: seq<nat>,
                                 initial: int, released: nat, arrived: seq<nat>, granted: seq<nat>)

  /** Threads are numbered; thread 0 is the idle thread. */
  datatype World = World(
    prio: seq<nat>,          // priority of each thread
    slice: seq<int>,         // time slice of its process
    state: seq<ThreadState>,
    quantum: seq<int>,       // ticks left
    waitsOn: seq<nat>,        // the semaphore in its wait block
    ready: seq<seq<nat>>,    // ready queue of each priority
    current: nat,
    due: bool,               // a scheduler DPC is queued
    exited: seq<nat>,
    sems: seq<Semaphore>)

  predicate Sized(w: World) {
    && |w.slice| == |w.prio| && |w.state| == |w.prio|
    && |w.quantum| == |w.prio| && |w.waitsOn| == |w.prio|
    && w.current < |w.prio|
    && |w.ready| == MAX + 1
    && (forall t :: 0 <= t < |w.prio| ==> IDLE <= w.prio[t] <= MAX)
  }

  /** A queue holds, once each, exactly the ready threads of its priority. */
  ghost predicate QueueOk(w: World, p: nat)
    requires Sized(w) && p <= MAX
  {
    NoDup(w.ready[p]) && forall t: nat :: t in w.ready[p] <==> Queued(w, t, p)
  }

  predicate Queued(w: World, t: nat, p: nat)
    requires Sized(w)
  {
    t < |w.prio| && w.state[t] == Ready && w.prio[t] == p
  }

  /** A wait list holds, once each, exactly the threads that wait for the semaphore. */
  ghost predicate WaitOk(w: World, s: nat)
    requires Sized(w) && s < |w.sems|
  {
    NoDup(w.sems[s].waiters) && forall t: nat :: t in w.sems[s].waiters <==> WaitsFor(w, t, s)
  }

  predicate WaitsFor(w: World, t: nat, s: nat)
    requires Sized(w)
  {
    t < |w.prio| && w.state[t] == Waiting && w.waitsOn[t] == s
  }

  /** Signalled only when nobody waits; every grant is paid for; grants go in the order of arrival. */
  predicate SignalOk(m: Semaphore) {
    && 0 <= m.signal <= m.limit
    && (m.signal > 0 ==> m.waiters == [])
    && m.signal == m.initial + m.released - |m.granted|
    && m.arrived == m.granted + m.waiters
  }

  ghost predicate Inv(w: World) {
    && Sized(w)
    && (forall p: nat :: p <= MAX ==> QueueOk(w, p))
    && (forall s: nat :: s < |w.sems| ==> WaitOk(w, s) && SignalOk(w.sems[s]))
    && (forall t: nat :: t < |w.prio| && w.state[t] == Waiting ==> w.waitsOn[t] < |w.sems|)
    && (forall t: nat :: t < |w.prio| ==> (w.state[t] == Running <==> t == w.current))
    && w.state[0] in {Running, Ready}
    && NoDup(w.exited) && (forall t: nat :: t in w.exited ==> t < |w.prio| && w.state[t] == Terminated)
  }

  // Where a thread is.

  datatype Place = Current | InQueue(p: nat) | OnSemaphore(s: nat)

  predicate IsAt(w: World, t: nat, x: Place)
    requires Sized(w) && t < |w.prio|
  {
    match x
    case Current => t == w.current
    case InQueue(p) => p <= MAX && t in w.ready[p]
    case OnSemaphore(s) => s < |w.sems| && t in w.sems[s].waiters
  }

  /** Every live thread is in exactly one place: it runs, or it is in the ready queue of its priority, or in the wait list
      of one semaphore; and threads that are not live are nowhere. */
  lemma OnePlace(w: World, t: nat)
    requires Inv(w) && t < |w.prio|
    ensures w.state[t] in {Ready, Running, Waiting} ==>
      exists x :: IsAt(w, t, x) && (forall y :: IsAt(w, t, y) ==> y == x) && (x.InQueue? ==> x.p == w.prio[t])
    ensures w.state[t] in {Initialized, Terminated} ==> forall x :: !IsAt(w, t, x)
  {
    forall p: nat | p <= MAX ensures t in w.ready[p] <==> Queued(w, t, p) {
      assert QueueOk(w, p);
    }
    forall s: nat | s < |w.sems| ensures t in w.sems[s].waiters <==> WaitsFor(w, t, s) {
      assert WaitOk(w, s);
    }
    var x := if w.state[t] == Waiting then OnSemaphore(w.waitsOn[t])
             else if w.state[t] == Ready then InQueue(w.prio[t]) else Current;
    if w.state[t] in {Ready, Running, Waiting} {
      assert IsAt(w, t, x);
    }
  }

  /** The first k that asked for a semaphore have got it, in order, where k is what was paid in, or everybody has: no
      wakeup is lost and nobody overtakes. */
  lemma GrantedInOrder(w: World, s: nat)
    requires Inv(w) && s < |w.sems|
    ensures
      var m := w.sems[s];
      var paid := m.initial + m.released;
      0 <= paid && m.granted == m.arrived[..if |m.arrived| < paid then |m.arrived| else paid]
  {
  }

  // The steps.

  /** The highest priority from p down to `floor` with a ready thread; -1 if there is none. */
  function Top(ready: seq<seq<nat>>, p: int, floor: nat): (r: int)
    requires p < |ready|
    ensures r == -1 || (floor <= r <= p && ready[r] != [])
    ensures forall q :: floor <= q <= p && q > r ==> ready[q] == []
    decreases p + 1
  {
    if p < floor then -1 else if ready[p] != [] then p else Top(ready, p - 1, floor)
  }

  /** KiReadyThread. */
  function MakeReady(w: World, t: nat): (r: World)
    requires Sized(w) && t < |w.prio|
    ensures Sized(r)
  {
    w.(state := w.state[t := Ready],
       quantum := w.quantum[t := w.slice[t]],
       ready := w.ready[w.prio[t] := w.ready[w.prio[t]] + [t]])
  }

  /** The head of queue p leaves it. */
  function TakeHead(w: World, p: nat): (r: World)
    requires Sized(w) && p <= MAX && w.ready[p] != []
    ensures Sized(r)
  {
    w.(ready := w.ready[p := w.ready[p][1..]])
  }

  /** KiSwapThread. */
  function SwapTo(w: World, t: nat): (r: World)
    requires Sized(w) && t < |w.prio|
    ensures Sized(r)
  {
    w.(state := w.state[t := Running], current := t)
  }

  predicate HeadsOk(w: World) {
    forall p, i :: 0 <= p < |w.ready| && 0 <= i < |w.ready[p]| ==> w.ready[p][i] < |w.prio|
  }

  /** The current thread leaves the processor in a new state, for the first thread of the highest priority. */
  function Leave(w: World, s: ThreadState): (r: World)
    requires Sized(w) && HeadsOk(w)
    ensures Sized(r)
  {
    var p := Top(w.ready, MAX, IDLE);
    var u := w.(state := w.state[w.current := s]);
    if p < 0 then u else SwapTo(TakeHead(u, p), w.ready[p][0])
  }

  /** Schedule, of a thread that did not terminate. */
  function Schedule(w: World): (r: World)
    requires Sized(w) && HeadsOk(w)
    ensures Sized(r)
  {
    var p := Top(w.ready, MAX, w.prio[w.current]);
    if p < 0 then w else SwapTo(MakeReady(TakeHead(w, p), w.current), w.ready[p][0])
  }

  /** Schedule, of a thread that terminated. */
  function Terminate(w: World): (r: World)
    requires Sized(w) && HeadsOk(w)
    ensures Sized(r)
  {
    Leave(w, Terminated).(exited := w.exited + [w.current])
  }

  function Acquire(w: World, s: nat): (r: World)
    requires Sized(w) && HeadsOk(w) && s < |w.sems|
    ensures Sized(r)
  {
    var m := w.sems[s].(arrived := w.sems[s].arrived + [w.current]);
    if m.signal == 0 then
      Leave(w.(waitsOn := w.waitsOn[w.current := s], sems := w.sems[s := m.(waiters := m.waiters + [w.current])]), Waiting)
    else
      w.(sems := w.sems[s := m.(signal := m.signal - 1, granted := m.granted + [w.current])])
  }

  function Release(w: World, s: nat): (r: World)
    requires Sized(w) && s < |w.sems| && (w.sems[s].waiters != [] ==> w.sems[s].waiters[0] < |w.prio|)
    ensures Sized(r)
  {
    var m := w.sems[s].(released := w.sems[s].released + 1);
    if m.waiters == [] then
      w.(sems := w.sems[s := m.(signal := m.signal + 1)])
    else
      MakeReady(w.(sems := w.sems[s := m.(waiters := m.waiters[1..], granted := m.granted + [m.waiters[0]])]), m.waiters[0])
  }

  /** KiThreadTimerISR. */
  function Tick(w: World): (r: World)
    requires Sized(w)
    ensures Sized(r)
  {
    var q := w.quantum[w.current] - 1;
    w.(quantum := w.quantum[w.current := q], due := w.due || q <= 0)
  }

  /** KeInitializeSemaphore. */
  function NewWith(count: int, limit: int): Semaphore {
    Semaphore(count, limit, [], count, 0, [], [])
  }

  datatype Event = TimerTick | DoSchedule | DoTerminate | Reap | Start(t: nat)
                 | NewSemaphore(count: int, limit: int) | WaitFor(s: nat) | ReleaseOf(s: nat)

  /** What the kernel demands: the idle thread neither waits nor ends, a started thread is new, and a release keeps the
      semaphore within its limit. */
  predicate Enabled(w: World, e: Event)
    requires Sized(w)
  {
    match e
    case TimerTick => true
    case DoSchedule => true
    case DoTerminate => w.current != 0
    case Reap => true
    case Start(t) => t < |w.prio| && w.state[t] == Initialized
    case NewSemaphore(count, limit) => 0 <= count <= limit
    case WaitFor(s) => s < |w.sems| && w.current != 0
    case ReleaseOf(s) => s < |w.sems| && w.sems[s].signal < w.sems[s].limit && w.sems[s].signal < MAX_SIGNAL
  }

  /** All queues hold threads. */
  predicate Heads(w: World) {
    && Sized(w)
    && HeadsOk(w)
    && (forall s :: 0 <= s < |w.sems| && w.sems[s].waiters != [] ==> w.sems[s].waiters[0] < |w.prio|)
  }

  function Step(w: World, e: Event): (r: World)
    requires Heads(w) && Enabled(w, e)
    ensures Sized(r)
  {
    match e
    case TimerTick => Tick(w)
    case DoSchedule => Schedule(w).(due := false)
    case DoTerminate => Terminate(w)
    case Reap => w.(exited := [])
    case Start(t) => MakeReady(w, t)
    case NewSemaphore(count, limit) => w.(sems := w.sems + [NewWith(count, limit)])
    case WaitFor(s) => Acquire(w, s)
    case ReleaseOf(s) => Release(w, s)
  }

  lemma InQueues(w: World)
    requires Inv(w)
    ensures Heads(w) && (w.ready[w.prio[0]] != [] || w.current == 0)
  {
    forall p, i | 0 <= p < |w.ready| && 0 <= i < |w.ready[p]| ensures w.ready[p][i] < |w.prio| {
      assert QueueOk(w, p) && w.ready[p][i] in w.ready[p];
    }
    forall s: nat | s < |w.sems| && w.sems[s].waiters != [] ensures w.sems[s].waiters[0] < |w.prio| {
      assert WaitOk(w, s) && w.sems[s].waiters[0] in w.sems[s].waiters;
    }
    assert QueueOk(w, w.prio[0]);
    assert w.current != 0 ==> Queued(w, 0, w.prio[0]);
  }

  // Safety: every step keeps the invariant.

  lemma Tail(s: seq<nat>)
    requires NoDup(s) && s != []
    ensures NoDup(s[1..]) && forall t: nat :: t in s[1..] <==> t in s && t != s[0]
  {
  }

  lemma Append(s: seq<nat>, x: nat)
    requires NoDup(s) && x !in s
    ensures NoDup(s + [x]) && forall t: nat :: t in s + [x] <==> t in s || t == x
  {
  }

  /** The ready queues and wait lists of w, with one thread counted as being elsewhere. */
  ghost predicate Lists(w: World, out: nat) {
    && Sized(w)
    && (forall p: nat :: p <= MAX ==>
      NoDup(w.ready[p]) && forall t: nat :: t in w.ready[p] <==> Queued(w, t, p) && t != out)
    && (forall s: nat :: s < |w.sems| ==>
          NoDup(w.sems[s].waiters) && forall t: nat :: t in w.sems[s].waiters <==> WaitsFor(w, t, s) && t != out)
  }

  lemma InLists(w: World)
    requires Inv(w)
    ensures Lists(w, |w.prio|) && Lists(w, w.current)
  {
    forall p: nat | p <= MAX
      ensures NoDup(w.ready[p]) && forall t: nat :: t in w.ready[p] <==>
        Queued(w, t, p) && t != |w.prio| && t != w.current
    {
      assert QueueOk(w, p);
    }
    forall s: nat | s < |w.sems| ensures NoDup(w.sems[s].waiters) &&
      forall t: nat :: t in w.sems[s].waiters <==> WaitsFor(w, t, s) && t != |w.prio| && t != w.current
    {
      assert WaitOk(w, s);
    }
  }

  lemma OutOfLists(w: World, out: nat)
    requires Lists(w, out) && (out < |w.prio| ==> w.state[out] in {Running, Terminated, Initialized})
    ensures forall p: nat :: p <= MAX ==> QueueOk(w, p)
    ensures forall s: nat :: s < |w.sems| ==> WaitOk(w, s)
  {
  }

  /** A thread that is in no list becomes ready. */
  lemma ReadyLists(w: World, t: nat)
    requires Lists(w, t) && t < |w.prio|
    ensures Lists(MakeReady(w, t), |w.prio|)
  {
    Append(w.ready[w.prio[t]], t);
    hide NoDup;
    var r := MakeReady(w, t);
    forall p: nat | p <= MAX
      ensures NoDup(r.ready[p]) && forall u: nat :: u in r.ready[p] <==> Queued(r, u, p) && u != |w.prio| {
    }
    forall s: nat | s < |w.sems| ensures
      NoDup(r.sems[s].waiters) && forall u: nat :: u in r.sems[s].waiters <==> WaitsFor(r, u, s) && u != |w.prio| {
    }
  }

  /** The head of a queue leaves it. */
  lemma TakeLists(w: World, p: nat)
    requires Lists(w, |w.prio|) && p <= MAX && w.ready[p] != []
    ensures Queued(w, w.ready[p][0], p) && Lists(TakeHead(w, p), w.ready[p][0])
  {
    Tail(w.ready[p]);
    assert w.ready[p][0] in w.ready[p];
  }

  /** The running thread is in no list, whatever else changes about it. */
  lemma RunLists(w: World, u: World)
    requires Inv(w) && Sized(u) && u.prio == w.prio && u.ready == w.ready
    requires u.state[w.current] in {Running, Terminated} && u.state == w.state[w.current := u.state[w.current]]
    requires u.waitsOn == w.waitsOn && |u.sems| == |w.sems|
    requires forall s :: 0 <= s < |w.sems| ==> u.sems[s].waiters == w.sems[s].waiters
    ensures Lists(u, |u.prio|)
  {
    InLists(w);
    hide NoDup;
  }

  lemma ScheduleKeeps(w: World)
    requires Inv(w)
    ensures HeadsOk(w) && Inv(Schedule(w))
  {
    InQueues(w);
    var p := Top(w.ready, MAX, w.prio[w.current]);
    if p >= 0 {
      InLists(w);
      TakeLists(w, p);
      var h, c := w.ready[p][0], w.current;
      var u := TakeHead(w, p);
      TwoOut(u, h, c);
      var v := MakeReady(u, c);
      var r := SwapTo(v, h);
      assert Lists(r, |r.prio|);
      OutOfLists(r, |r.prio|);
    }
  }

  lemma TwoOut(u: World, h: nat, c: nat)
    requires Lists(u, h) && h < |u.prio| && c < |u.prio| && u.state[h] == Ready && u.state[c] == Running && h != c
    ensures Lists(SwapTo(MakeReady(u, c), h), |u.prio|)
  {
    Append(u.ready[u.prio[c]], c);
    hide NoDup;
    var r := SwapTo(MakeReady(u, c), h);
    forall p: nat | p <= MAX
      ensures NoDup(r.ready[p]) && forall t: nat :: t in r.ready[p] <==> Queued(r, t, p) && t != |u.prio| {
      assert forall t: nat :: t in u.ready[p] <==> Queued(u, t, p) && t != h;
    }
    forall s: nat | s < |r.sems| ensures
      NoDup(r.sems[s].waiters) && forall t: nat :: t in r.sems[s].waiters <==> WaitsFor(r, t, s) && t != |u.prio| {
      assert forall t: nat :: t in u.sems[s].waiters <==> WaitsFor(u, t, s) && t != h;
    }
  }

  lemma SwapLists(u: World, h: nat)
    requires Lists(u, h) && h < |u.prio| && u.state[h] == Ready
    ensures Lists(SwapTo(u, h), |u.prio|)
  {
  }

  /** The idle thread is there to run whenever another thread leaves the processor. */
  lemma SomebodyRuns(w: World)
    requires Inv(w) && w.current != 0
    ensures Top(w.ready, MAX, IDLE) >= IDLE
  {
    InQueues(w);
  }

  lemma TerminateKeeps(w: World)
    requires Inv(w) && w.current != 0
    ensures HeadsOk(w) && Inv(Terminate(w))
  {
    hide Top;
    InQueues(w);
    SomebodyRuns(w);
    var p := Top(w.ready, MAX, IDLE);
    var h, c := w.ready[p][0], w.current;
    var u := w.(state := w.state[c := Terminated]);
    RunLists(w, u);
    TakeLists(u, p);
    SwapLists(TakeHead(u, p), h);
    Append(w.exited, c);
    var r := Terminate(w);
    assert Lists(r, |r.prio|);
    OutOfLists(r, |r.prio|);
  }

  lemma BlockLists(w: World, s: nat, m: Semaphore)
    requires Inv(w) && s < |w.sems| && m.waiters == w.sems[s].waiters + [w.current]
    ensures
      var u := w.(waitsOn := w.waitsOn[w.current := s], sems := w.sems[s := m], state := w.state[w.current := Waiting]);
      Lists(u, |u.prio|)
  {
    InLists(w);
    Append(w.sems[s].waiters, w.current);
    hide NoDup;
  }

  lemma AcquireKeeps(w: World, s: nat)
    requires Inv(w) && s < |w.sems| && w.current != 0
    ensures HeadsOk(w) && Inv(Acquire(w, s))
  {
    InQueues(w);
    hide Inv, Acquire;
    if w.sems[s].signal == 0 {
      BlockKeeps(w, s);
    } else {
      TakeKeeps(w, s);
    }
  }

  lemma BlockKeeps(w: World, s: nat)
    requires Inv(w) && s < |w.sems| && w.current != 0 && w.sems[s].signal == 0 && HeadsOk(w)
    ensures Inv(Acquire(w, s))
  {
    assert SignalOk(w.sems[s]);
    SomebodyRuns(w);
    var p, c, r := Top(w.ready, MAX, IDLE), w.current, Acquire(w, s);
    var h, m := w.ready[p][0], r.sems[s];
    BlockLists(w, s, m);
    var u := w.(waitsOn := w.waitsOn[c := s], sems := w.sems[s := m], state := w.state[c := Waiting]);
    TakeLists(u, p);
    SwapLists(TakeHead(u, p), h);
    assert r == SwapTo(TakeHead(u, p), h);
    OutOfLists(r, |r.prio|);
    hide Lists, QueueOk, WaitOk;
  }

  lemma TakeKeeps(w: World, s: nat)
    requires Inv(w) && s < |w.sems| && w.sems[s].signal > 0 && HeadsOk(w)
    ensures Inv(Acquire(w, s))
  {
    var r := Acquire(w, s);
    RunLists(w, r);
    OutOfLists(r, |r.prio|);
    assert r.sems[s].arrived == r.sems[s].granted + r.sems[s].waiters;
    hide Lists, QueueOk, WaitOk;
  }

  lemma StartKeeps(w: World, t: nat)
    requires Inv(w) && t < |w.prio| && w.state[t] == Initialized
    ensures Inv(MakeReady(w, t))
  {
    InLists(w);
    assert Lists(w, t);
    ReadyLists(w, t);
    OutOfLists(MakeReady(w, t), |w.prio|);
  }

  /** The first waiter leaves the wait list. */
  lemma WakeLists(w: World, s: nat, m: Semaphore)
    requires Lists(w, |w.prio|) && s < |w.sems| && w.sems[s].waiters != [] && m.waiters == w.sems[s].waiters[1..]
    ensures WaitsFor(w, w.sems[s].waiters[0], s) && Lists(w.(sems := w.sems[s := m]), w.sems[s].waiters[0])
  {
    Tail(w.sems[s].waiters);
    assert w.sems[s].waiters[0] in w.sems[s].waiters;
    hide NoDup;
  }

  lemma ReleaseCounts(w: World, s: nat)
    requires Inv(w) && s < |w.sems| && w.sems[s].signal < w.sems[s].limit && w.sems[s].waiters == []
    ensures Inv(Release(w, s))
  {
    assert SignalOk(w.sems[s]);
    InLists(w);
    var r := Release(w, s);
    hide NoDup;
    RunLists(w, r);
    OutOfLists(r, |r.prio|);
    hide Lists, WaitOk, QueueOk;
  }

  lemma ReleaseWakes(w: World, s: nat)
    requires Inv(w) && s < |w.sems| && w.sems[s].waiters != []
    ensures w.sems[s].waiters[0] < |w.prio| && Inv(Release(w, s))
  {
    InQueues(w);
    assert SignalOk(w.sems[s]);
    InLists(w);
    var r := Release(w, s);
    var m := r.sems[s];
    hide NoDup;
    WakeLists(w, s, m);
    ReadyLists(w.(sems := w.sems[s := m]), w.sems[s].waiters[0]);
    assert m.arrived == m.granted + m.waiters;
    OutOfLists(r, |r.prio|);
    hide Lists, WaitOk, QueueOk;
  }

  lemma ReleaseKeeps(w: World, s: nat)
    requires Inv(w) && s < |w.sems| && w.sems[s].signal < w.sems[s].limit
    ensures w.sems[s].waiters != [] ==> w.sems[s].waiters[0] < |w.prio|
    ensures Inv(Release(w, s))
  {
    hide Inv;
    if w.sems[s].waiters == [] {
      ReleaseCounts(w, s);
    } else {
      ReleaseWakes(w, s);
    }
  }

  lemma NewKeeps(w: World, m: Semaphore)
    requires Inv(w) && SignalOk(m) && m.waiters == []
    ensures Inv(w.(sems := w.sems + [m]))
  {
    InLists(w);
    OutOfLists(w.(sems := w.sems + [m]), |w.prio|);
  }

  /** Quanta, the queued DPC and the emptying of the exit list are not part of the invariant. */
  lemma ClockKeeps(w: World, u: World)
    requires Inv(w) && Sized(u) && u.prio == w.prio && u.state == w.state && u.waitsOn == w.waitsOn
    requires u.ready == w.ready && u.current == w.current && u.sems == w.sems &&
      (u.exited == w.exited || u.exited == [])
    ensures Inv(u)
  {
    RunLists(w, u);
    OutOfLists(u, |u.prio|);
    hide QueueOk, WaitOk;
  }

  /** Every step of the dispatcher keeps the invariant. */
  lemma StepKeeps(w: World, e: Event)
    requires Inv(w) && Enabled(w, e)
    ensures Heads(w) && Inv(Step(w, e))
  {
    InQueues(w);
    hide Inv;
    match e
    case TimerTick => ClockKeeps(w, Tick(w));
    case DoSchedule =>
      ScheduleKeeps(w);
      ClockKeeps(Schedule(w), Schedule(w).(due := false));
    case DoTerminate => TerminateKeeps(w);
    case Reap => ClockKeeps(w, w.(exited := []));
    case Start(t) => StartKeeps(w, t);
    case NewSemaphore(count, limit) => NewKeeps(w, NewWith(count, limit));
    case WaitFor(s) => AcquireKeeps(w, s);
    case ReleaseOf(s) => ReleaseKeeps(w, s);
  }

  // Boot.

  /** When the idle thread has been created: it was made ready with the priority of its process, normal, and its own one
      was set afterwards. The first thread, f, runs. */
  predicate Boot(w: World, f: nat) {
    && Sized(w) && 0 < f == w.current && w.prio[0] == IDLE && w.prio[f] == NORMAL
    && (forall t :: 0 <= t < |w.prio| ==>
      w.state[t] == if t == f then Running else if t == 0 then Ready else Initialized)
    && (forall p :: 0 <= p <= MAX ==> w.ready[p] == if p == NORMAL then [0] else [])
    && w.sems == [] && w.exited == []
  }

  /** As if the idle thread had the priority of the queue it was put in. */
  function Raised(w: World): (r: World)
    requires Sized(w)
  {
    w.(prio := w.prio[0 := NORMAL])
  }

  /** The idle thread has not run yet; but for its priority everything is in order. */
  ghost predicate Early(w: World) {
    Sized(w) && w.current != 0 && Inv(Raised(w))
  }

  /** In order, if need be with the idle thread in the queue it was put in at boot. */
  ghost predicate Safe(w: World) {
    Heads(w) && w.prio[0] == IDLE && (Inv(w) || Early(w))
  }

  /** Until the idle thread runs, steps do the same whatever its priority. */
  lemma RaisedStep(w: World, e: Event)
    requires Early(w) && Enabled(w, e)
    ensures Heads(w) && Heads(Raised(w)) && Step(Raised(w), e) == Raised(Step(w, e))
  {
    InQueues(Raised(w));
    NotTheIdle(Raised(w));
    hide Inv, Schedule, Leave, MakeReady;
    match e
    case DoSchedule => RaisedSchedule(w);
    case DoTerminate => RaisedLeave(w, Terminated);
    case Start(t) => RaisedReady(w, t);
    case WaitFor(s) => RaisedAcquire(w, s);
    case ReleaseOf(s) => RaisedRelease(w, s);
    case _ =>
  }

  lemma RaisedReady(w: World, t: nat)
    requires Sized(w) && 0 < t < |w.prio|
    ensures MakeReady(Raised(w), t) == Raised(MakeReady(w, t))
  {
  }

  lemma RaisedSchedule(w: World)
    requires Heads(w) && w.current != 0
    ensures HeadsOk(Raised(w)) && Schedule(Raised(w)) == Raised(Schedule(w))
  {
  }

  lemma RaisedLeave(w: World, s: ThreadState)
    requires Heads(w)
    ensures HeadsOk(Raised(w)) && Leave(Raised(w), s) == Raised(Leave(w, s))
  {
  }

  lemma RaisedAcquire(w: World, s: nat)
    requires Heads(w) && s < |w.sems|
    ensures HeadsOk(Raised(w)) && Acquire(Raised(w), s) == Raised(Acquire(w, s))
  {
    hide Leave;
    var m := w.sems[s].(arrived := w.sems[s].arrived + [w.current]);
    RaisedLeave(w.(waitsOn := w.waitsOn[w.current := s],
                   sems := w.sems[s := m.(waiters := m.waiters + [w.current])]), Waiting);
  }

  lemma RaisedRelease(w: World, s: nat)
    requires Heads(w) && s < |w.sems| && (w.sems[s].waiters != [] ==> w.sems[s].waiters[0] != 0)
    ensures Release(Raised(w), s) == Raised(Release(w, s))
  {
    hide MakeReady;
    var m := w.sems[s].(released := w.sems[s].released + 1);
    if m.waiters != [] {
      RaisedReady(w.(sems := w.sems[s := m.(waiters := m.waiters[1..], granted := m.granted + [m.waiters[0]])]),
                  m.waiters[0]);
    }
  }

  /** The idle thread is not new, and waits for nothing. */
  lemma NotTheIdle(w: World)
    requires Inv(w)
    ensures w.state[0] != Initialized
    ensures forall s :: 0 <= s < |w.sems| && w.sems[s].waiters != [] ==> w.sems[s].waiters[0] != 0
  {
    forall s: nat | s < |w.sems| && w.sems[s].waiters != [] ensures w.sems[s].waiters[0] != 0 {
      assert WaitOk(w, s) && w.sems[s].waiters[0] in w.sems[s].waiters;
    }
  }

  /** When the idle thread runs, its priority is in no queue's way. */
  lemma Lowered(w: World)
    requires Sized(w) && w.current == 0 && Inv(Raised(w))
    ensures Inv(w)
  {
    var r := Raised(w);
    forall p: nat | p <= MAX ensures QueueOk(w, p) {
      assert QueueOk(r, p);
      assert forall t: nat :: Queued(w, t, p) <==> Queued(r, t, p);
    }
    forall s: nat | s < |w.sems| ensures WaitOk(w, s) && SignalOk(w.sems[s]) {
      assert WaitOk(r, s);
      assert forall t: nat :: WaitsFor(w, t, s) <==> WaitsFor(r, t, s);
    }
  }

  /** Until it runs, the idle thread is in the wrong queue. */
  lemma EarlyIsOff(w: World)
    requires Early(w) && w.prio[0] == IDLE
    ensures !Inv(w)
  {
    QueueHas(Raised(w), 0, NORMAL);
    QueueHas(w, 0, NORMAL);
  }

  lemma QueueHas(w: World, t: nat, p: nat)
    requires Sized(w) && p <= MAX
    ensures QueueOk(w, p) ==> (t in w.ready[p] <==> Queued(w, t, p))
  {
  }

  lemma StepSamePrio(w: World, e: Event)
    requires Heads(w) && Enabled(w, e)
    ensures Step(w, e).prio == w.prio
  {
  }

  /** Every step keeps safety, and it leads to a world in order exactly from one, or when the idle thread gets to run. */
  lemma SafeStep(w: World, e: Event)
    requires Safe(w) && Enabled(w, e)
    ensures Safe(Step(w, e))
    ensures Inv(Step(w, e)) <==> Inv(w) || Step(w, e).current == 0
  {
    var r := Step(w, e);
    StepSamePrio(w, e);
    hide Inv, Step, Heads;
    if Inv(w) {
      StepKeeps(w, e);
      InQueues(r);
    } else {
      RaisedStep(w, e);
      StepKeeps(Raised(w), e);
      RaisedHeads(r);
      if r.current == 0 {
        Lowered(r);
      } else {
        EarlyIsOff(r);
      }
    }
  }

  lemma RaisedHeads(w: World)
    requires Sized(w) && Inv(Raised(w))
    ensures Heads(w)
  {
    InQueues(Raised(w));
    hide Inv;
  }

  /** At boot the idle thread is in the wrong queue. The first call of Schedule puts everything in order, but it runs the
      idle thread while the first thread, which outranks it, is ready. */
  lemma BootIsEarly(w: World, f: nat)
    requires Boot(w, f)
    ensures Safe(w) && Early(w) && !Inv(w)
    ensures
      var r := Step(w, DoSchedule);
      Inv(r) && r.current == 0 && !Supreme(r)
  {
    BootRaised(w, f);
    RaisedHeads(w);
    EarlyIsOff(w);
    TopWhenCalm(w.ready, MAX, NORMAL, NORMAL);
    SafeStep(w, DoSchedule);
    hide Inv;
    assert Step(w, DoSchedule).state[f] == Ready;
  }

  lemma BootRaised(w: World, f: nat)
    requires Boot(w, f)
    ensures Inv(Raised(w))
  {
    var r := Raised(w);
    forall p: nat | p <= MAX ensures QueueOk(r, p) {
      assert forall t: nat :: t in r.ready[p] <==> t == 0 && p == NORMAL;
    }
  }

  // Runs.

  ghost predicate Legal(w: World, es: seq<Event>)
    requires Safe(w)
    decreases |es|
  {
    es == [] || (Enabled(w, es[0]) && (SafeStep(w, es[0]); Legal(Step(w, es[0]), es[1..])))
  }

  /** The world after events in order; it is safe. */
  ghost function RunAll(w: World, es: seq<Event>): (r: World)
    requires Safe(w) && Legal(w, es)
    ensures Safe(r) && (Inv(w) ==> Inv(r))
    decreases |es|
  {
    if es == [] then w else
      SafeStep(w, es[0]);
      RunAll(Step(w, es[0]), es[1..])
  }

  // What the steps come to, in the fields of the world.

  /** Queue p is the highest with a thread. */
  predicate Highest(w: World, p: nat)
    requires Sized(w)
  {
    p <= MAX && w.ready[p] != [] && forall q :: p < q <= MAX ==> w.ready[q] == []
  }

  /** From w to r the running thread left the processor in state s, for the first thread of the highest queue. */
  ghost predicate GaveUp(w: World, r: World, s: ThreadState)
    requires Sized(w) && Sized(r)
  {
    && r.quantum == w.quantum && r.due == w.due
    && forall p :: IDLE <= p && Highest(w, p) ==>
         && r.current == w.ready[p][0]
         && r.ready == w.ready[p := w.ready[p][1..]]
         && r.state == w.state[w.current := s][r.current := Running]
  }

  /** From w to r the running thread went to the tail of its queue with a new time slice, for the first thread of the
      highest queue; or nothing happened, as no thread of its priority or a higher one is ready. */
  ghost predicate TookTurns(w: World, r: World)
    requires Sized(w) && Sized(r)
  {
    var c, floor := w.current, w.prio[w.current];
    && r.sems == w.sems && r.waitsOn == w.waitsOn && r.exited == w.exited && !r.due
    && ((forall p :: floor <= p <= MAX ==> w.ready[p] == []) ==>
          r.current == c && r.state == w.state && r.ready == w.ready && r.quantum == w.quantum)
    && forall p :: floor <= p && Highest(w, p) ==>
         && r.current == w.ready[p][0]
         && r.ready == (var u := w.ready[p := w.ready[p][1..]]; u[floor := u[floor] + [c]])
         && r.state == w.state[c := Ready][r.current := Running]
         && r.quantum == w.quantum[c := w.slice[c]]
  }

  /** From w to r the running thread asked for semaphore s, and took it or got in line for it. */
  ghost predicate AskedFor(w: World, r: World, s: nat)
    requires Sized(w) && Sized(r) && s < |w.sems|
  {
    var c, m := w.current, w.sems[s];
    && |r.sems| == |w.sems| && (forall i :: 0 <= i < |w.sems| && i != s ==> r.sems[i] == w.sems[i])
    && var n := r.sems[s];
       && n.limit == m.limit && n.initial == m.initial && n.released == m.released && n.arrived == m.arrived + [c]
       && r.exited == w.exited
       && if m.signal != 0 then
            && n.signal == m.signal - 1 && n.granted == m.granted + [c] && n.waiters == m.waiters
            && r.waitsOn == w.waitsOn && r.current == c && r.state == w.state && r.ready == w.ready
            && r.quantum == w.quantum && r.due == w.due
          else
            && n.signal == 0 && n.granted == m.granted && n.waiters == m.waiters + [c]
            && r.waitsOn == w.waitsOn[c := s] && GaveUp(w, r, Waiting)
  }

  /** From w to r semaphore s was released once: the first that waits has it and is ready, or it is free once more. */
  ghost predicate HandedOn(w: World, r: World, s: nat)
    requires Sized(w) && Sized(r) && s < |w.sems|
  {
    var m := w.sems[s];
    && |r.sems| == |w.sems| && (forall i :: 0 <= i < |w.sems| && i != s ==> r.sems[i] == w.sems[i])
    && r.current == w.current && r.due == w.due && r.exited == w.exited && r.waitsOn == w.waitsOn
    && var n := r.sems[s];
       && n.limit == m.limit && n.initial == m.initial && n.released == m.released + 1 && n.arrived == m.arrived
       && if m.waiters == [] then
            && n.signal == m.signal + 1 && n.waiters == [] && n.granted == m.granted
            && r.state == w.state && r.ready == w.ready && r.quantum == w.quantum
          else
            && n.signal == m.signal && n.waiters == m.waiters[1..] && n.granted == m.granted + [m.waiters[0]]
            && BecameReady(w, r, m.waiters[0])
  }

  /** From w to r thread t got ready, at the tail of the queue of its priority and with a new time slice. */
  ghost predicate BecameReady(w: World, r: World, t: nat)
    requires Sized(w) && Sized(r)
  {
    && t < |w.prio|
    && r.state == w.state[t := Ready]
    && r.quantum == w.quantum[t := w.slice[t]]
    && r.ready == w.ready[w.prio[t] := w.ready[w.prio[t]] + [t]]
  }

  /** The effect of each event. */
  ghost predicate Happened(w: World, r: World, e: Event)
    requires Sized(w) && Sized(r) && Enabled(w, e)
  {
    && r.prio == w.prio && r.slice == w.slice
    && match e
       case TimerTick =>
         && r.quantum == w.quantum[w.current := w.quantum[w.current] - 1]
         && (r.due <==> w.due || w.quantum[w.current] <= 1)
         && r.(quantum := w.quantum, due := w.due) == w
       case DoSchedule => TookTurns(w, r)
       case DoTerminate =>
         GaveUp(w, r, Terminated) && r.exited == w.exited + [w.current] && r.sems == w.sems && r.waitsOn == w.waitsOn
       case Reap => r.exited == [] && r.(exited := w.exited) == w
       case Start(t) =>
         BecameReady(w, r, t) && r.(state := w.state, quantum := w.quantum, ready := w.ready) == w
       case NewSemaphore(count, limit) =>
         && |r.sems| == |w.sems| + 1 && r.(sems := w.sems) == w && r.sems[..|w.sems|] == w.sems
         && var m := r.sems[|w.sems|];
            && m.signal == m.initial == count && m.limit == limit && m.waiters == [] && m.released == 0
            && m.arrived == [] && m.granted == []
       case WaitFor(s) => AskedFor(w, r, s)
       case ReleaseOf(s) => HandedOn(w, r, s)
  }

  lemma TopIsHighest(w: World, floor: nat)
    requires Sized(w)
    ensures forall p :: floor <= p && Highest(w, p) ==> Top(w.ready, MAX, floor) == p
  {
  }

  lemma LeaveDoes(w: World, s: ThreadState)
    requires Heads(w)
    ensures
      var r := Leave(w, s);
      GaveUp(w, r, s) && r.sems == w.sems && r.waitsOn == w.waitsOn && r.exited == w.exited && r.prio == w.prio &&
        r.slice == w.slice
  {
    TopIsHighest(w, IDLE);
  }

  lemma ScheduleDoes(w: World)
    requires Heads(w)
    ensures TookTurns(w, Schedule(w).(due := false)) && Schedule(w).prio == w.prio && Schedule(w).slice == w.slice
  {
    TopIsHighest(w, w.prio[w.current]);
  }

  lemma AcquireDoes(w: World, s: nat)
    requires Heads(w) && s < |w.sems|
    ensures AskedFor(w, Acquire(w, s), s) && Acquire(w, s).prio == w.prio && Acquire(w, s).slice == w.slice
  {
    hide Leave;
    if w.sems[s].signal == 0 {
      var m := w.sems[s].(arrived := w.sems[s].arrived + [w.current]);
      var u := w.(waitsOn := w.waitsOn[w.current := s], sems := w.sems[s := m.(waiters := m.waiters + [w.current])]);
      LeaveDoes(u, Waiting);
      forall p | Highest(w, p) ensures Highest(u, p) {
      }
    }
  }

  lemma ReleaseDoes(w: World, s: nat)
    requires Heads(w) && s < |w.sems|
    ensures HandedOn(w, Release(w, s), s) && Release(w, s).prio == w.prio && Release(w, s).slice == w.slice
  {
  }

  /** Every step has the effect of its event. */
  lemma StepDoes(w: World, e: Event)
    requires Heads(w) && Enabled(w, e)
    ensures Happened(w, Step(w, e), e)
  {
    hide Leave, Schedule, Acquire, Release, TookTurns, AskedFor, HandedOn;
    match e
    case DoSchedule => ScheduleDoes(w);
    case DoTerminate => LeaveDoes(w, Terminated);
    case WaitFor(s) => AcquireDoes(w, s);
    case ReleaseOf(s) => ReleaseDoes(w, s);
    case _ =>
  }

  // Semaphores over runs.

  /** The threads that wait for semaphore s in the course of the events, in order. */
  ghost function Callers(w: World, es: seq<Event>, s: nat): seq<nat>
    requires Safe(w) && Legal(w, es)
    decreases |es|
  {
    if es == [] then [] else
      SafeStep(w, es[0]);
      (if es[0] == WaitFor(s) then [w.current] else []) + Callers(Step(w, es[0]), es[1..], s)
  }

  /** How often the events release it. */
  function Releases(es: seq<Event>, s: nat): nat {
    if es == [] then 0 else (if es[0] == ReleaseOf(s) then 1 else 0) + Releases(es[1..], s)
  }

  /** What one step does to the record of a semaphore. */
  lemma StepRecords(w: World, e: Event, s: nat)
    requires Heads(w) && Enabled(w, e) && s < |w.sems|
    ensures s < |Step(w, e).sems|
    ensures
      var m, n := w.sems[s], Step(w, e).sems[s];
      && n.initial == m.initial && n.limit == m.limit
      && n.arrived == m.arrived + (if e == WaitFor(s) then [w.current] else [])
      && n.released == m.released + (if e == ReleaseOf(s) then 1 else 0)
  {
    StepDoes(w, e);
    hide Step, GaveUp, BecameReady;
    if e.NewSemaphore? {
      assert Step(w, e).sems[..|w.sems|][s] == w.sems[s];
    }
  }

  /** The record is of the calls: it grows by those that wait, in order, and counts the releases. */
  lemma {:induction false} RunRecords(w: World, es: seq<Event>, s: nat)
    requires Safe(w) && Legal(w, es) && s < |w.sems|
    ensures s < |RunAll(w, es).sems|
    ensures
      var m, n := w.sems[s], RunAll(w, es).sems[s];
      && n.initial == m.initial && n.limit == m.limit
      && n.arrived == m.arrived + Callers(w, es, s) && n.released == m.released + Releases(es, s)
    decreases |es|
  {
    hide Safe, Step;
    if es != [] {
      SafeStep(w, es[0]);
      SafeHeads(w);
      StepRecords(w, es[0], s);
      RunRecords(Step(w, es[0]), es[1..], s);
    }
  }

  lemma SafeHeads(w: World)
    requires Safe(w)
    ensures Heads(w)
  {
  }

  lemma SafeSignals(w: World, s: nat)
    requires Safe(w) && s < |w.sems|
    ensures SignalOk(w.sems[s]) && WaitOk(w, s)
  {
    var u := if Inv(w) then w else Raised(w);
    assert SignalOk(u.sems[s]) && WaitOk(u, s);
    forall t: nat ensures WaitsFor(u, t, s) <==> WaitsFor(w, t, s) {
    }
  }

  /** A semaphore just made. */
  lemma SemaphoreMade(w: World, count: int, limit: int, es: seq<Event>)
    requires Safe(w) && Enabled(w, NewSemaphore(count, limit)) && Legal(w, [NewSemaphore(count, limit)] + es)
    ensures
      var u, s := Step(w, NewSemaphore(count, limit)), |w.sems|;
      && Safe(u) && Legal(u, es) && s < |u.sems|
      && u.sems[s].initial == count && u.sems[s].arrived == [] && u.sems[s].released == 0
  {
    hide Safe, Step;
    var e := NewSemaphore(count, limit);
    var run := [e] + es;
    assert run[0] == e && run[1..] == es;
    SafeStep(w, e);
    SafeHeads(w);
    StepDoes(w, e);
  }

  /** A semaphore made with a count serves those that wait for it in the order of their calls: over any run the first
      ones have it, as many as the count and the releases allow, and all others, and only they, are blocked on it. */
  lemma SemaphoreServes(w: World, count: int, limit: int, es: seq<Event>)
    requires Safe(w) && Enabled(w, NewSemaphore(count, limit)) && Legal(w, [NewSemaphore(count, limit)] + es)
    ensures
      var u, s := Step(w, NewSemaphore(count, limit)), |w.sems|;
      Safe(u) && Legal(u, es) && s < |RunAll(u, es).sems| &&
      var r, asked, paid := RunAll(u, es), Callers(u, es, s), count + Releases(es, s);
      var k := if |asked| < paid then |asked| else paid;
      && 0 <= k && r.sems[s].granted == asked[..k] && r.sems[s].waiters == asked[k..]
      && r.sems[s].signal == paid - k
      && forall t: nat :: t in asked[k..] <==> t < |r.prio| && r.state[t] == Waiting && r.waitsOn[t] == s
  {
    hide Safe, Step, WaitOk, SignalOk, Sized, HeadsOk;
    var s := |w.sems|;
    SafeHeads(w);
    SemaphoreMade(w, count, limit, es);
    var u := Step(w, NewSemaphore(count, limit));
    RunRecords(u, es, s);
    var r := RunAll(u, es);
    SafeSignals(r, s);
    SafeHeads(r);
    WaitersAre(r, s);
    Serving(r.sems[s], Callers(u, es, s));
  }

  lemma WaitersAre(w: World, s: nat)
    requires Sized(w) && s < |w.sems| && WaitOk(w, s)
    ensures forall t: nat :: t in w.sems[s].waiters <==> t < |w.prio| && w.state[t] == Waiting && w.waitsOn[t] == s
  {
    forall t: nat ensures t in w.sems[s].waiters <==> WaitsFor(w, t, s) {
    }
  }

  lemma Serving(m: Semaphore, asked: seq<nat>)
    requires SignalOk(m) && m.arrived == asked
    ensures
      var paid := m.initial + m.released;
      var k := if |asked| < paid then |asked| else paid;
      0 <= k && m.granted == asked[..k] && m.waiters == asked[k..] && m.signal == paid - k
  {
    assert asked[..|m.granted|] == m.granted && asked[|m.granted|..] == m.waiters;
  }

  // Priority.

  /** No ready thread outranks the running one. */
  ghost predicate Supreme(w: World)
    requires Sized(w)
  {
    forall t: nat :: t < |w.prio| && w.state[t] == Ready ==> w.prio[t] <= w.prio[w.current]
  }

  /** The head of the highest queue outranks or equals all that are ready. */
  lemma TopIsSupreme(w: World, p: int, floor: nat)
    requires Inv(w) && p == Top(w.ready, MAX, floor)
    ensures forall t: nat :: t < |w.prio| && w.state[t] == Ready ==> w.prio[t] <= p || w.prio[t] < floor
    ensures p >= 0 ==> Queued(w, w.ready[p][0], p)
  {
    forall t: nat | t < |w.prio| && w.state[t] == Ready ensures t in w.ready[w.prio[t]] {
      assert QueueOk(w, w.prio[t]);
      assert Queued(w, t, w.prio[t]);
    }
    if p >= 0 {
      assert QueueOk(w, p);
      assert w.ready[p][0] in w.ready[p];
    }
  }

  /** The scan down to `floor` comes to the idle thread first. */
  predicate PicksIdle(w: World, floor: nat)
    requires Sized(w)
  {
    var p := Top(w.ready, MAX, floor);
    p >= 0 && w.ready[p][0] == 0
  }

  /** No thread that is ready has a higher priority than the idle thread. */
  predicate AllIdle(w: World)
    requires Sized(w)
  {
    forall t :: 0 < t < |w.prio| && w.state[t] == Ready ==> w.prio[t] == IDLE
  }

  /** The same before the idle thread has run, but for the idle thread itself. */
  lemma TopWhenEarly(w: World, p: int, floor: nat)
    requires Early(w) && p == Top(w.ready, MAX, floor)
    ensures forall t: nat :: 0 < t < |w.prio| && w.state[t] == Ready ==> w.prio[t] <= p || w.prio[t] < floor
    ensures p >= 0 && w.ready[p][0] != 0 ==> Queued(w, w.ready[p][0], p)
  {
    TopIsSupreme(Raised(w), p, floor);
    hide Inv;
  }

  /** After Schedule no ready thread outranks the running one, exactly if everything was in order, or Schedule does not
      pick the idle thread, or no thread but that has a higher priority. */
  lemma ScheduleRunsHighest(w: World)
    requires Safe(w)
    ensures
      Supreme(Step(w, DoSchedule)) <==>
      Inv(w) || !PicksIdle(w, w.prio[w.current]) || (AllIdle(w) && w.prio[w.current] == IDLE)
  {
    hide Inv, Early, Schedule;
    var p, c := Top(w.ready, MAX, w.prio[w.current]), w.current;
    StillReady(w);
    ScheduleIs(w, p);
    if Inv(w) {
      TopIsSupreme(w, p, w.prio[c]);
    } else {
      TopWhenEarly(w, p, w.prio[c]);
    }
    assert p >= 0 && w.ready[p][0] != c ==> Schedule(w).state[c] == Ready;
  }

  lemma ScheduleIs(w: World, p: int)
    requires Heads(w) && p == Top(w.ready, MAX, w.prio[w.current])
    ensures
      var r := Schedule(w);
      if p < 0 then r == w
      else r.prio == w.prio && r.current == w.ready[p][0] && r.state == w.state[w.current := Ready][r.current := Running]
  {
  }

  /** The running thread is not ready, and before it has run the idle thread is. */
  lemma StillReady(w: World)
    requires Safe(w)
    ensures w.state[w.current] == Running && (!Inv(w) ==> w.current != 0 && w.state[0] == Ready)
  {
    hide Heads;
  }

  /** When a thread leaves the processor, no ready thread outranks the one that gets it, exactly if everything was in
      order, or that is not the idle thread, or no ready thread has a higher priority. */
  lemma LeaveRunsHighest(w: World, s: ThreadState)
    requires Safe(w) && w.current != 0 && s != Ready
    ensures Supreme(Leave(w, s)) <==> Inv(w) || !PicksIdle(w, IDLE) || AllIdle(w)
  {
    var p := Top(w.ready, MAX, IDLE);
    StillReady(w);
    if Inv(w) {
      SomebodyRuns(w);
      TopIsSupreme(w, p, IDLE);
    } else {
      SomebodyRuns(Raised(w));
      TopWhenEarly(w, p, IDLE);
    }
    hide Inv, Early;
  }

  /** The same when a thread blocks or ends. */
  lemma BlockingRunsHighest(w: World, s: nat)
    requires Safe(w) && w.current != 0 && s < |w.sems|
    ensures Supreme(Terminate(w)) <==> Inv(w) || !PicksIdle(w, IDLE) || AllIdle(w)
    ensures w.sems[s].signal == 0 ==> (Supreme(Acquire(w, s)) <==> Inv(w) || !PicksIdle(w, IDLE) || AllIdle(w))
  {
    LeaveRunsHighest(w, Terminated);
    LeaveRunsHighest(w, Waiting);
    hide Inv, Early;
  }

  // Bounded waiting.

  /** Thread t is at position k of ready queue p. */
  predicate Waits(w: World, t: nat, p: nat, k: nat)
    requires Sized(w)
  {
    p <= MAX && k < |w.ready[p]| && w.ready[p][k] == t
  }

  /** Nothing above priority p is ready or running. */
  predicate Calm(w: World, p: nat)
    requires Sized(w)
  {
    w.prio[w.current] <= p && forall q :: p < q <= MAX ==> w.ready[q] == []
  }

  lemma TopWhenCalm(ready: seq<seq<nat>>, m: nat, floor: nat, p: nat)
    requires m < |ready| && floor <= p <= m && ready[p] != [] && forall q :: p < q <= m ==> ready[q] == []
    ensures Top(ready, m, floor) == p
  {
  }

  /** One step brings a waiting thread to the processor, or leaves it no farther from it; Schedule brings it nearer. */
  lemma StepProgress(w: World, e: Event, t: nat, p: nat, k: nat) returns (j: nat)
    requires Safe(w) && Enabled(w, e) && Waits(w, t, p, k) && Calm(w, p)
    ensures Step(w, e).current == t || (Waits(Step(w, e), t, p, j) && j <= k && (e.DoSchedule? ==> j < k))
  {
    hide Inv, Early, Schedule, Leave, MakeReady;
    j := if k > 0 && (e.DoSchedule? || e.DoTerminate? || (e.WaitFor? && w.sems[e.s].signal == 0)) then k - 1 else k;
    match e
    case DoSchedule => ScheduleProgress(w, t, p, k);
    case DoTerminate => LeaveProgress(w, Terminated, t, p, k);
    case Start(u) => ReadyProgress(w, u, t, p, k);
    case WaitFor(s) =>
      var m := w.sems[s].(arrived := w.sems[s].arrived + [w.current]);
      LeaveProgress(w.(waitsOn := w.waitsOn[w.current := s],
                       sems := w.sems[s := m.(waiters := m.waiters + [w.current])]), Waiting, t, p, k);
    case ReleaseOf(s) =>
      var m := w.sems[s].(released := w.sems[s].released + 1);
      if m.waiters != [] {
        ReadyProgress(w.(sems := w.sems[s := m.(waiters := m.waiters[1..], granted := m.granted + [m.waiters[0]])]),
                      m.waiters[0], t, p, k);
      }
    case _ =>
  }

  lemma ReadyProgress(w: World, u: nat, t: nat, p: nat, k: nat)
    requires Sized(w) && u < |w.prio| && Waits(w, t, p, k)
    ensures Waits(MakeReady(w, u), t, p, k)
  {
  }

  lemma ScheduleProgress(w: World, t: nat, p: nat, k: nat)
    requires Sized(w) && HeadsOk(w) && Waits(w, t, p, k) && Calm(w, p)
    ensures if k == 0 then Schedule(w).current == t else Waits(Schedule(w), t, p, k - 1)
  {
    TopWhenCalm(w.ready, MAX, w.prio[w.current], p);
  }

  lemma LeaveProgress(w: World, s: ThreadState, t: nat, p: nat, k: nat)
    requires Sized(w) && HeadsOk(w) && Waits(w, t, p, k) && Calm(w, p)
    ensures if k == 0 then Leave(w, s).current == t else Waits(Leave(w, s), t, p, k - 1)
  {
    TopWhenCalm(w.ready, MAX, IDLE, p);
  }

  ghost predicate CalmRun(w: World, es: seq<Event>, p: nat)
    requires Safe(w) && Legal(w, es)
    decreases |es|
  {
    Calm(w, p) && (es == [] || (SafeStep(w, es[0]); CalmRun(Step(w, es[0]), es[1..], p)))
  }

  /** Does thread t get to run at some point? */
  ghost predicate Runs(w: World, es: seq<Event>, t: nat)
    requires Safe(w) && Legal(w, es)
    decreases |es|
  {
    w.current == t || (es != [] && (SafeStep(w, es[0]); Runs(Step(w, es[0]), es[1..], t)))
  }

  /** A run ends with everything in order exactly if it began so, or the idle thread ran at some point. */
  lemma {:induction false} InOrderOnceIdleRan(w: World, es: seq<Event>)
    requires Safe(w) && Legal(w, es)
    ensures Inv(RunAll(w, es)) <==> Inv(w) || Runs(w, es, 0)
    decreases |es|
  {
    hide Inv, Early, Heads, Step;
    if es != [] {
      SafeStep(w, es[0]);
      InOrderOnceIdleRan(Step(w, es[0]), es[1..]);
    }
    CurrentIdle(w);
  }

  lemma CurrentIdle(w: World)
    requires Safe(w)
    ensures w.current == 0 ==> Inv(w)
  {
  }

  function Schedules(es: seq<Event>): nat {
    if es == [] then 0 else (if es[0].DoSchedule? then 1 else 0) + Schedules(es[1..])
  }

  /** A thread at position k of the highest ready queue runs before Schedule was called more than k + 1 times, whatever
      else happens, as long as nothing of higher priority is ready or running. */
  lemma {:induction false} BoundedWaiting(w: World, es: seq<Event>, t: nat, p: nat, k: nat)
    requires Safe(w) && Legal(w, es) && CalmRun(w, es, p) && Waits(w, t, p, k) && Schedules(es) > k
    ensures Runs(w, es, t)
    decreases |es|
  {
    var j := StepProgress(w, es[0], t, p, k);
    SafeStep(w, es[0]);
    if Step(w, es[0]).current != t {
      BoundedWaiting(Step(w, es[0]), es[1..], t, p, j);
    }
  }
}
