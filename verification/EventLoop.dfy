/**
 The lock-free task queue and the event loop that drains it, as one step machine.

 Every step is one atomic load, store, compare-and-swap or fetch-and-add of the program, or one system call on the
 eventfd, interleaved arbitrarily (sequential consistency). Any number of threads enqueue tasks and request a stop;
 the loop thread is the only one that dequeues. While the loop thread runs a callback or a task it may enqueue and
 stop like any other thread, through its own entry in `threads`.
 */
module EventLoop {

  import opened Options

  type Node = nat
  type Task = nat
  type Thread = nat

  /** The thread that owns the scheduler. */
  const LOOP: Thread := 0

  /** `m_size_` is an unsigned 32-bit counter: decrementing zero wraps to the largest value. */
  const COUNTER_MAX: nat := 0xFFFF_FFFF

  datatype Mode = DoNothing | EpollWait | HandleActiveFd | HandleExtraState

  /**
   Where a thread is inside `EnQueue`, the notification after it, or `Stop`. The arguments are its local variables.
   */
  datatype Pc =
    | Idle
    | LoadTail(node: Node)
    | LoadNext(node: Node, tail: Node)
    | CheckTail(node: Node, tail: Node, next: Option<Node>)
    | LinkCas(node: Node, tail: Node)
    | HelpTail(node: Node, tail: Node, next: Option<Node>)
    | AddSize(node: Node, tail: Node)
    | SwingTail(node: Node, tail: Node)
    | LoadMode
    | WriteEvent
    | StopTest
    | StopStore
    | StopLoadMode
    | StopWriteEvent

  /** Where the loop thread is inside `Start`, including the inlined `Dequeue`. */
  datatype LoopPc =
    | Off
    | ClearStop
    | EnterWait
    | TestStop
    | Wait
    | EnterActive(ready: bool)
    | RunFds(ready: bool)
    | EnterExtra
    | DrainTest
    | DqHead
    | DqNext(head: Node)
    | DqTail(head: Node, next: Option<Node>)
    | DqCheck(head: Node, next: Option<Node>, tail: Node)
    | DqCompare(head: Node, next: Option<Node>, tail: Node)
    | DqHelp(next: Option<Node>, tail: Node)
    | DqCas(head: Node, next: Option<Node>)
    | DqSize(next: Option<Node>)
    | RunTask(task: Option<Task>)
    | LeaveExtra
    | CheckEmpty
    | SelfNotify
    | EnterNothing
    | Sweep

  /** The shared words of `LockFreeQueue`. A null pointer is `None`. */
  datatype Queue = Queue(next: map<Node, Option<Node>>, value: map<Node, Task>, head: Node, tail: Node, size: nat)

  /**
   History variables: no step reads them.
   linked: every node ever linked, dummy first; popped, tailAt: positions in it of the head and the tail;
   owner: the thread that allocated a node; called: the tasks each thread passed to `EnQueue`; out: what `Dequeue`
   returned.
   */
  datatype History = History(
    linked: seq<Node>, popped: nat, tailAt: nat, owner: map<Node, Thread>,
    called: map<Thread, seq<Task>>, out: seq<Option<Task>>)

  datatype State = State(
    q: Queue, stop: bool, mode: Mode, eventfd: nat, threads: map<Thread, Pc>, loop: LoopPc, h: History)

  datatype Action =
    | CallEnQueue(th: Thread, node: Node, task: Task)
    | CallStop(th: Thread)
    | Advance(th: Thread)
    | CallStart
    | LoopAdvance
    | EpollNothing
    | EpollEvents(ready: bool)
    | ReadEventFd

  // ---------------------------------------------------------------- steps

  ghost predicate Init(s: State) {
    && LOOP in s.threads
    && (forall th | th in s.threads :: s.threads[th] == Idle && th in s.h.called && s.h.called[th] == [])
    && s.q == Queue(map[s.q.head := None], map[], s.q.head, s.q.head, 0)
    && s.stop && s.mode == DoNothing && s.eventfd == 0 && s.loop == Off
    && s.h == History([s.q.head], 0, 0, map[], s.h.called, [])
  }

  /** The loop thread runs foreign code at these points, and may leave them only when that code has returned. */
  predicate RunsCallback(l: LoopPc) {
    l.Off? || l.RunFds? || l.RunTask? || l.Sweep?
  }

  predicate MayAct(s: State, th: Thread) {
    th in s.threads && (th == LOOP ==> RunsCallback(s.loop))
  }

  predicate LoopFree(s: State) {
    LOOP in s.threads && s.threads[LOOP] == Idle
  }

  predicate Enabled(s: State, a: Action) {
    match a
    case CallEnQueue(th, node, task) =>
      MayAct(s, th) && s.threads[th] == Idle && node !in s.q.next && th in s.h.called
    case CallStop(th) => MayAct(s, th) && s.threads[th] == Idle
    case Advance(th) => MayAct(s, th) && s.threads[th] != Idle && PointersReadable(s, s.threads[th])
    case CallStart => s.loop.Off? && LoopFree(s)
    case LoopAdvance =>
      && !s.loop.Off? && !s.loop.Wait?
      && (s.loop.RunFds? ==> !s.loop.ready)
      && (RunsCallback(s.loop) ==> LoopFree(s))
      && LoopReadable(s)
    case EpollNothing => s.loop.Wait?
    case EpollEvents(ready) => s.loop.Wait? && (ready ==> s.eventfd > 0)
    case ReadEventFd => s.loop.RunFds? && s.loop.ready && LoopFree(s)
  }

  /** Dereferencing needs an allocated node; `NeverStuck` proves that every reachable step has one, deleted or not. */
  predicate PointersReadable(s: State, pc: Pc) {
    match pc
    case LoadNext(_, t) => t in s.q.next
    case LinkCas(n, t) => t in s.q.next
    case HelpTail(_, _, x) => x.Some?
    case _ => true
  }

  predicate LoopReadable(s: State) {
    match s.loop
    case DqNext(h) => h in s.q.next
    case DqHelp(x, _) => x.Some?
    case DqCas(_, x) => x.Some?
    case DqSize(x) => x.Some? && x.value in s.q.value
    case _ => true
  }

  function Do(s: State, a: Action): State
    requires Enabled(s, a)
  {
    match a
    case CallEnQueue(th, node, task) =>
      s.(q := s.q.(next := s.q.next[node := None], value := s.q.value[node := task]),
         threads := s.threads[th := LoadTail(node)],
         h := s.h.(owner := s.h.owner[node := th], called := s.h.called[th := s.h.called[th] + [task]]))
    case CallStop(th) => Goto(s, th, StopTest)
    case Advance(th) => ThreadStep(s, th)
    case CallStart => s.(loop := ClearStop)
    case LoopAdvance => LoopStep(s)
    case EpollNothing => s.(loop := TestStop)
    case EpollEvents(ready) => s.(loop := EnterActive(ready))
    case ReadEventFd => s.(eventfd := 0, loop := RunFds(false))
  }

  function Goto(s: State, th: Thread, pc: Pc): State {
    s.(threads := s.threads[th := pc])
  }

  /** The compare-and-swap of `m_tail_` from `from` to `to`. */
  function CasTail(s: State, from: Node, to: Node): State {
    if s.q.tail == from then s.(q := s.q.(tail := to), h := s.h.(tailAt := s.h.tailAt + 1)) else s
  }

  function ThreadStep(s: State, th: Thread): State
    requires Enabled(s, Advance(th))
  {
    if InEnQueue(s.threads[th]) then EnQueueStep(s, th) else SignalStep(s, th)
  }

  predicate InEnQueue(pc: Pc) {
    pc.LoadTail? || pc.LoadNext? || pc.CheckTail? || pc.LinkCas? || pc.HelpTail? || pc.AddSize? || pc.SwingTail?
  }

  function EnQueueStep(s: State, th: Thread): State
    requires Enabled(s, Advance(th)) && InEnQueue(s.threads[th])
  {
    match s.threads[th]
    case LoadTail(n) => Goto(s, th, LoadNext(n, s.q.tail))
    case LoadNext(n, t) => Goto(s, th, CheckTail(n, t, s.q.next[t]))
    case CheckTail(n, t, x) =>
      Goto(s, th, if s.q.tail != t then LoadTail(n) else if x.None? then LinkCas(n, t) else HelpTail(n, t, x))
    case LinkCas(n, t) =>
      if s.q.next[t].None? then
        Goto(s.(q := s.q.(next := s.q.next[t := Some(n)]), h := s.h.(linked := s.h.linked + [n])), th, AddSize(n, t))
      else Goto(s, th, LoadTail(n))
    case HelpTail(n, t, x) => Goto(CasTail(s, t, x.value), th, LoadTail(n))
    case AddSize(n, t) => Goto(s.(q := s.q.(size := s.q.size + 1)), th, SwingTail(n, t))
    case SwingTail(n, t) => Goto(CasTail(s, t, n), th, LoadMode)
  }

  /** The end of `AddDefer`/`AddTask`, and `Stop`. */
  function SignalStep(s: State, th: Thread): State
    requires Enabled(s, Advance(th)) && !InEnQueue(s.threads[th])
  {
    match s.threads[th]
    case LoadMode => Goto(s, th, if s.mode == EpollWait || s.mode == DoNothing then WriteEvent else Idle)
    case WriteEvent => Goto(s.(eventfd := s.eventfd + 1), th, Idle)
    case StopTest => Goto(s, th, if s.stop then Idle else StopStore)
    case StopStore => Goto(s.(stop := true), th, StopLoadMode)
    case StopLoadMode => Goto(s, th, if s.mode == EpollWait then StopWriteEvent else Idle)
    case StopWriteEvent => Goto(s.(eventfd := s.eventfd + 1), th, Idle)
  }

  function LoopStep(s: State): State
    requires Enabled(s, LoopAdvance)
  {
    if InDequeue(s.loop) then DequeueStep(s) else OutsideStep(s)
  }

  predicate InDequeue(l: LoopPc) {
    l.DqHead? || l.DqNext? || l.DqTail? || l.DqCheck? || l.DqCompare? || l.DqHelp? || l.DqCas? || l.DqSize?
  }

  /** `Dequeue`. */
  function DequeueStep(s: State): State
    requires Enabled(s, LoopAdvance) && InDequeue(s.loop)
  {
    match s.loop
    case DqHead => s.(loop := DqNext(s.q.head))
    case DqNext(h) => s.(loop := DqTail(h, s.q.next[h]))
    case DqTail(h, x) => s.(loop := DqCheck(h, x, s.q.tail))
    case DqCheck(h, x, t) => s.(loop := if s.q.head == h then DqCompare(h, x, t) else DqHead)
    case DqCompare(h, x, t) =>
      if t != s.q.head then s.(loop := DqCas(h, x))
      else if x.Some? then s.(loop := DqHelp(x, t))
      else Return(s, None)
    case DqHelp(x, t) => CasTail(s, t, x.value).(loop := DqHead)
    case DqCas(h, x) =>
      if s.q.head == h then s.(q := s.q.(head := x.value), loop := DqSize(x), h := s.h.(popped := s.h.popped + 1))
      else s.(loop := DqHead)
    case DqSize(x) =>
      Return(s.(q := s.q.(size := if s.q.size == 0 then COUNTER_MAX else s.q.size - 1)), Some(s.q.value[x.value]))
  }

  /** `Dequeue` returns; a null successor makes it return a default element. */
  function Return(s: State, task: Option<Task>): State {
    s.(loop := RunTask(task), h := s.h.(out := s.h.out + [task]))
  }

  /** `Start` outside `Dequeue`. */
  function OutsideStep(s: State): State
    requires Enabled(s, LoopAdvance) && !InDequeue(s.loop)
  {
    match s.loop
    case ClearStop => s.(stop := false, loop := EnterWait)
    case EnterWait => s.(mode := EpollWait, loop := TestStop)
    case TestStop => s.(loop := if s.stop then EnterNothing else Wait)
    case EnterActive(ready) => s.(mode := HandleActiveFd, loop := RunFds(ready))
    case RunFds(_) => s.(loop := EnterExtra)
    case EnterExtra => s.(mode := HandleExtraState, loop := DrainTest)
    case DrainTest => s.(loop := if 0 < s.q.size then DqHead else LeaveExtra)
    case RunTask(_) => s.(loop := DrainTest)
    case LeaveExtra => s.(mode := EpollWait, loop := CheckEmpty)
    case CheckEmpty => s.(loop := if s.q.size != 0 then SelfNotify else TestStop)
    case SelfNotify => s.(eventfd := s.eventfd + 1, loop := TestStop)
    case EnterNothing => s.(mode := DoNothing, loop := Sweep)
    case Sweep => s.(loop := Off)
  }

  // ---------------------------------------------------------------- invariant

  /** One acyclic chain from the dummy; head at or before tail; tail at most one node behind the last. */
  ghost predicate Chain(q: Queue, h: History) {
    && |h.linked| > 0
    && (forall i, j :: 0 <= i < j < |h.linked| ==> h.linked[i] != h.linked[j])
    && (forall i :: 0 <= i < |h.linked| ==> h.linked[i] in q.next)
    && (forall i, j :: 0 <= i < |h.linked| && j == i + 1 && j < |h.linked| ==>
          q.next[h.linked[i]] == Some(h.linked[j]))
    && q.next[h.linked[|h.linked| - 1]] == None
    && (forall i :: 1 <= i < |h.linked| ==> h.linked[i] in h.owner)
    && (forall n | n in h.owner :: n in q.next && n in q.value)
    && h.popped <= h.tailAt < |h.linked| <= h.tailAt + 2
    && q.head == h.linked[h.popped]
    && q.tail == h.linked[h.tailAt]
  }

  ghost predicate Owns(q: Queue, h: History, th: Thread, n: Node) {
    n in q.next && n in q.value && n in h.owner && h.owner[n] == th
  }

  /** `n` is allocated by `th` and not linked yet. */
  ghost predicate Private(q: Queue, h: History, th: Thread, n: Node) {
    Owns(q, h, th, n) && q.next[n] == None && n !in h.linked
  }

  /** `t` was the tail at some time. */
  ghost predicate WasTail(h: History, t: Node)
    requires h.tailAt < |h.linked|
  {
    Between(h, 0, t)
  }

  /** `t` is linked at or after position `lo`, and not after the tail. */
  ghost predicate Between(h: History, lo: nat, t: Node)
    requires h.tailAt < |h.linked|
  {
    exists k :: lo <= k <= h.tailAt && h.linked[k] == t
  }

  ghost predicate ThreadOk(q: Queue, h: History, th: Thread, pc: Pc)
    requires Chain(q, h)
  {
    match pc
    case LoadTail(n) => Private(q, h, th, n)
    case LoadNext(n, t) => Private(q, h, th, n) && WasTail(h, t)
    case CheckTail(n, t, x) => Private(q, h, th, n) && WasTail(h, t) && (x.Some? ==> q.next[t] == x)
    case LinkCas(n, t) => Private(q, h, th, n) && WasTail(h, t)
    case HelpTail(n, t, x) => Private(q, h, th, n) && WasTail(h, t) && x.Some? && q.next[t] == x
    case AddSize(n, t) => Owns(q, h, th, n) && WasTail(h, t) && q.next[t] == Some(n)
    case SwingTail(n, t) => Owns(q, h, th, n) && WasTail(h, t) && q.next[t] == Some(n)
    case _ => true
  }

  ghost predicate ThreadsOk(q: Queue, h: History, threads: map<Thread, Pc>)
    requires Chain(q, h)
  {
    forall th | th in threads :: ThreadOk(q, h, th, threads[th])
  }

  /** What the loop thread knows in the middle of `Dequeue`: its snapshot of head is current and has a successor. */
  ghost predicate LoopOk(q: Queue, h: History, loop: LoopPc)
    requires Chain(q, h)
  {
    match loop
    case DqHead => q.size >= 1
    case DqNext(p) => q.size >= 1 && p == q.head
    case DqTail(p, x) => q.size >= 1 && p == q.head && x.Some? && q.next[p] == x
    case DqCheck(p, x, t) =>
      q.size >= 1 && p == q.head && x.Some? && q.next[p] == x && Between(h, h.popped, t)
    case DqCompare(p, x, t) =>
      q.size >= 1 && p == q.head && x.Some? && q.next[p] == x && Between(h, h.popped, t)
    case DqHelp(x, t) => q.size >= 1 && t == q.head && x.Some? && q.next[t] == x
    case DqCas(p, x) => q.size >= 1 && p == q.head && x.Some? && q.next[p] == x && h.popped < h.tailAt
    case DqSize(x) => q.size >= 1 && x == Some(q.head) && h.popped >= 1
    case RunTask(t) => t.Some?
    case _ => true
  }

  /** Threads that have linked a node and not yet counted it. */
  function Uncounted(threads: map<Thread, Pc>): set<Thread> {
    set th | th in threads && threads[th].AddSize?
  }

  /** The counter is the number of pending nodes, less those linked but uncounted, plus one taken but not subtracted. */
  ghost predicate Accounts(q: Queue, h: History, uncounted: nat, loop: LoopPc)
    requires Chain(q, h)
  {
    q.size + uncounted == |h.linked| - 1 - h.popped + (if loop.DqSize? then 1 else 0)
  }

  /** The tasks `th` has linked among `nodes`, in link order. */
  function SentBy(nodes: seq<Node>, owner: map<Node, Thread>, value: map<Node, Task>, th: Thread): seq<Task> {
    if nodes == [] then []
    else
      var n := nodes[|nodes| - 1];
      SentBy(nodes[..|nodes| - 1], owner, value, th)
      + if n in owner && owner[n] == th && n in value then [value[n]] else []
  }

  /** The task of the `EnQueue` call that `pc` is inside of, as long as its node is not linked. */
  function InFlight(pc: Pc, value: map<Node, Task>): seq<Task> {
    if (pc.LoadTail? || pc.LoadNext? || pc.CheckTail? || pc.LinkCas? || pc.HelpTail?) && pc.node in value
    then [value[pc.node]] else []
  }

  ghost predicate OrderOk(q: Queue, h: History, th: Thread, pc: Pc) {
    && |h.linked| > 0 && th in h.called
    && SentBy(h.linked[1..], h.owner, q.value, th) + InFlight(pc, q.value) == h.called[th]
  }

  /** `Dequeue` has returned the values of the nodes the head has moved onto, in link order. */
  ghost predicate OutOk(q: Queue, h: History, loop: LoopPc) {
    && h.popped < |h.linked|
    && |h.out| == h.popped - (if loop.DqSize? then 1 else 0)
    && forall j :: 1 <= j <= |h.out| ==> h.linked[j] in q.value && h.out[j - 1] == Some(q.value[h.linked[j]])
  }

  /** The state word the loop thread has last stored. */
  function ModeAt(l: LoopPc): Mode {
    match l
    case Off | ClearStop | EnterWait | Sweep => DoNothing
    case TestStop | Wait | EnterActive(_) | CheckEmpty | SelfNotify | EnterNothing => EpollWait
    case RunFds(_) | EnterExtra => HandleActiveFd
    case _ => HandleExtraState
  }

  /** The loop thread may block, or already blocks, without looking at the queue again. */
  predicate Committed(l: LoopPc) {
    l.Off? || l.ClearStop? || l.EnterWait? || l.TestStop? || l.Wait? || l.EnterNothing? || l.Sweep?
  }

  /** `th` has counted its node and still has its state check or its write ahead of it. */
  predicate WillNotify(s: State, th: Thread) {
    th in s.threads && (s.threads[th].SwingTail? || s.threads[th].LoadMode? || s.threads[th].WriteEvent?)
  }

  predicate WillNotifyStop(s: State, th: Thread) {
    th in s.threads && (s.threads[th].StopLoadMode? || s.threads[th].StopWriteEvent?)
  }

  ghost predicate WakeOk(s: State) {
    Committed(s.loop) && s.q.size > 0 ==> s.eventfd > 0 || exists th :: WillNotify(s, th)
  }

  ghost predicate StopOk(s: State) {
    s.loop.Wait? && s.stop ==> s.eventfd > 0 || exists th :: WillNotifyStop(s, th)
  }

  /** The queue itself: the chain, every thread's snapshot, the size counter. */
  ghost predicate QueueInv(s: State) {
    && Chain(s.q, s.h)
    && ThreadsOk(s.q, s.h, s.threads)
    && LoopOk(s.q, s.h, s.loop)
    && Accounts(s.q, s.h, |Uncounted(s.threads)|, s.loop)
  }

  /** What went in and what came out. */
  ghost predicate FifoInv(s: State) {
    (forall th | th in s.threads :: OrderOk(s.q, s.h, th, s.threads[th])) && OutOk(s.q, s.h, s.loop)
  }

  /** Who will wake the loop thread. */
  ghost predicate WakeInv(s: State) {
    s.mode == ModeAt(s.loop) && WakeOk(s) && StopOk(s)
  }

  ghost predicate Inv(s: State) {
    QueueInv(s) && FifoInv(s) && WakeInv(s)
  }

  lemma InitInv(s: State)
    requires Init(s)
    ensures Inv(s)
  {
    assert Uncounted(s.threads) == {};
  }

  // ---------------------------------------------------------------- wake-ups are preserved

  lemma WakeThreadStep(s: State, th: Thread)
    requires WakeInv(s) && Enabled(s, Advance(th))
    ensures WakeInv(ThreadStep(s, th))
  {
    var s' := ThreadStep(s, th);
    forall t | WillNotify(s, t) && t != th ensures WillNotify(s', t) {}
    forall t | WillNotifyStop(s, t) && t != th ensures WillNotifyStop(s', t) {}
    if s.threads[th].AddSize? || s.threads[th].SwingTail? { assert WillNotify(s', th); }
    if s.threads[th].LoadMode? && Committed(s.loop) { assert WillNotify(s', th); }
    if s.threads[th].StopStore? { assert WillNotifyStop(s', th); }
    if s.threads[th].StopLoadMode? && s.loop.Wait? { assert WillNotifyStop(s', th); }
  }

  lemma WakeLoopStep(s: State)
    requires WakeInv(s) && Enabled(s, LoopAdvance)
    ensures WakeInv(LoopStep(s))
  {
    var s' := LoopStep(s);
    assert s'.threads == s.threads;
    forall t | WillNotify(s, t) ensures WillNotify(s', t) {}
    forall t | WillNotifyStop(s, t) ensures WillNotifyStop(s', t) {}
  }

  lemma WakeStep(s: State, a: Action)
    requires WakeInv(s) && Enabled(s, a)
    ensures WakeInv(Do(s, a))
  {
    hide ThreadStep, LoopStep;
    if a.Advance? {
      WakeThreadStep(s, a.th);
    } else if a.LoopAdvance? {
      WakeLoopStep(s);
    } else {
      var s' := Do(s, a);
      forall t | WillNotify(s, t) ensures WillNotify(s', t) {}
      forall t | WillNotifyStop(s, t) ensures WillNotifyStop(s', t) {}
    }
  }

  // ---------------------------------------------------------------- the queue is preserved

  /** Links, allocations and the tail only move forward. */
  ghost predicate Advances(q: Queue, h: History, q': Queue, h': History) {
    && (forall n | n in q.next :: n in q'.next && (q.next[n].Some? ==> q'.next[n] == q.next[n]))
    && (forall n | n in h.owner :: n in h'.owner && h'.owner[n] == h.owner[n])
    && (forall n | n in q.value && n in h.owner :: n in q'.value && q'.value[n] == q.value[n])
    && h.linked <= h'.linked
    && h.tailAt <= h'.tailAt
  }

  lemma ThreadOkFrame(q: Queue, h: History, q': Queue, h': History, th: Thread, pc: Pc)
    requires Chain(q, h) && Chain(q', h') && Advances(q, h, q', h')
    requires ThreadOk(q, h, th, pc)
    requires forall n | Private(q, h, th, n) :: Private(q', h', th, n)
    ensures ThreadOk(q', h', th, pc)
  {
    WasTailFrame(h, h');
  }

  lemma WasTailFrame(h: History, h': History)
    requires h.tailAt < |h.linked| && h'.tailAt < |h'.linked| && h.linked <= h'.linked && h.tailAt <= h'.tailAt
    ensures forall lo: nat, t | Between(h, lo, t) :: Between(h', lo, t)
  {
    forall lo: nat, t | Between(h, lo, t) ensures Between(h', lo, t) {
      var k :| lo <= k <= h.tailAt && h.linked[k] == t;
      assert h'.linked[k] == t;
    }
  }

  lemma ThreadsOkFrame(q: Queue, h: History, q': Queue, h': History, threads: map<Thread, Pc>)
    requires Chain(q, h) && Chain(q', h') && Advances(q, h, q', h')
    requires ThreadsOk(q, h, threads)
    requires forall th, n | th in threads && Private(q, h, th, n) :: Private(q', h', th, n)
    ensures ThreadsOk(q', h', threads)
  {
    forall th | th in threads ensures ThreadOk(q', h', th, threads[th]) {
      ThreadOkFrame(q, h, q', h', th, threads[th]);
    }
  }

  lemma LoopOkFrame(q: Queue, h: History, q': Queue, h': History, loop: LoopPc)
    requires Chain(q, h) && Chain(q', h') && Advances(q, h, q', h')
    requires LoopOk(q, h, loop) && q'.head == q.head && h'.popped == h.popped && q.size <= q'.size
    ensures LoopOk(q', h', loop)
  {
    WasTailFrame(h, h');
  }

  lemma UncountedGoto(threads: map<Thread, Pc>, th: Thread, pc: Pc)
    requires th in threads
    ensures |Uncounted(threads[th := pc])| ==
      |Uncounted(threads)| - (if threads[th].AddSize? then 1 else 0) + (if pc.AddSize? then 1 else 0)
  {
    var rest := Uncounted(threads) - {th};
    assert Uncounted(threads) == if threads[th].AddSize? then rest + {th} else rest;
    assert Uncounted(threads[th := pc]) == if pc.AddSize? then rest + {th} else rest;
  }

  /** A thread moves to `pc` and touches nothing shared. */
  lemma GotoQueue(s: State, th: Thread, pc: Pc)
    requires QueueInv(s) && th in s.threads
    requires ThreadOk(s.q, s.h, th, pc)
    requires s.threads[th].AddSize? == pc.AddSize?
    ensures QueueInv(Goto(s, th, pc))
  {
    UncountedGoto(s.threads, th, pc);
  }

  lemma CasTailChain(q: Queue, h: History, to: Node)
    requires Chain(q, h) && q.next[q.tail] == Some(to)
    ensures var q', h' := q.(tail := to), h.(tailAt := h.tailAt + 1);
      Chain(q', h') && Advances(q, h, q', h')
  {
    assert h.linked[h.tailAt + 1] == to;
  }

  lemma CasTailParts(q: Queue, h: History, threads: map<Thread, Pc>, loop: LoopPc, to: Node)
    requires Chain(q, h) && ThreadsOk(q, h, threads) && LoopOk(q, h, loop) && q.next[q.tail] == Some(to)
    ensures var q', h' := q.(tail := to), h.(tailAt := h.tailAt + 1);
      Chain(q', h') && ThreadsOk(q', h', threads) && LoopOk(q', h', loop)
  {
    CasTailChain(q, h, to);
    hide Chain, ThreadOk, ThreadsOk, LoopOk, Advances;
    var q', h' := q.(tail := to), h.(tailAt := h.tailAt + 1);
    ThreadsOkFrame(q, h, q', h', threads);
    LoopOkFrame(q, h, q', h', loop);
  }

  /** Swinging the tail along a link. */
  lemma CasTailQueue(s: State, from: Node, to: Node)
    requires QueueInv(s) && WasTail(s.h, from) && s.q.next[from] == Some(to)
    ensures QueueInv(CasTail(s, from, to))
  {
    if s.q.tail == from {
      CasTailParts(s.q, s.h, s.threads, s.loop, to);
    }
  }

  /** The successful link: the enqueue point. Only the tail itself has no successor, so the tail does not lag. */
  lemma OnlyLastIsUnlinked(q: Queue, h: History, t: Node)
    requires Chain(q, h) && WasTail(h, t) && t in q.next && q.next[t].None?
    ensures t == h.linked[|h.linked| - 1] && h.tailAt == |h.linked| - 1
  {
    forall i | 0 <= i < |h.linked| - 1 ensures q.next[h.linked[i]].Some? {
      assert q.next[h.linked[i]] == Some(h.linked[i + 1]);
    }
  }

  lemma LinkChain(q: Queue, h: History, th: Thread, n: Node, t: Node)
    requires Chain(q, h) && ThreadOk(q, h, th, LinkCas(n, t)) && q.next[t].None?
    ensures var q', h' := q.(next := q.next[t := Some(n)]), h.(linked := h.linked + [n]);
      && Chain(q', h') && Advances(q, h, q', h') && ThreadOk(q', h', th, AddSize(n, t))
  {
    OnlyLastIsUnlinked(q, h, t);
    var h' := h.(linked := h.linked + [n]);
    assert h'.linked[h.tailAt] == t;
  }

  lemma LinkQueue(s: State, th: Thread)
    requires QueueInv(s) && Enabled(s, Advance(th)) && s.threads[th].LinkCas? && s.q.next[s.threads[th].tail].None?
    ensures QueueInv(ThreadStep(s, th))
  {
    var LinkCas(n, t) := s.threads[th];
    var q', h' := s.q.(next := s.q.next[t := Some(n)]), s.h.(linked := s.h.linked + [n]);
    LinkChain(s.q, s.h, th, n, t);
    forall th' | th' in s.threads && th' != th ensures ThreadOk(q', h', th', s.threads[th']) {
      ThreadOkFrame(s.q, s.h, q', h', th', s.threads[th']);
    }
    LoopOkFrame(s.q, s.h, q', h', s.loop);
    UncountedGoto(s.threads, th, AddSize(n, t));
  }

  /** Neither threads nor chain depend on the counter or on what was called and returned. */
  lemma SizeFrame(q: Queue, h: History, q': Queue, h': History, threads: map<Thread, Pc>)
    requires Chain(q, h) && ThreadsOk(q, h, threads)
    requires q' == q.(size := q'.size) && h' == h.(called := h'.called, out := h'.out)
    ensures Chain(q', h') && ThreadsOk(q', h', threads)
  {
    forall th | th in threads ensures ThreadOk(q', h', th, threads[th]) {
      assert ThreadOk(q, h, th, threads[th]);
      forall n | Private(q, h, th, n) ensures Private(q', h', th, n) {}
    }
  }

  /** The counter increment after the link. */
  lemma AddSizeQueue(s: State, th: Thread, n: Node, t: Node)
    requires QueueInv(s) && Enabled(s, Advance(th)) && s.threads[th] == AddSize(n, t)
    ensures QueueInv(ThreadStep(s, th))
  {
    hide Chain, LoopOk;
    var q' := s.q.(size := s.q.size + 1);
    SizeFrame(s.q, s.h, q', s.h, s.threads);
    assert ThreadOk(q', s.h, th, AddSize(n, t));
    LoopOkFrame(s.q, s.h, q', s.h, s.loop);
    UncountedGoto(s.threads, th, SwingTail(n, t));
    var s' := Goto(s.(q := q'), th, SwingTail(n, t));
    assert s'.q == q' && s'.h == s.h && s'.loop == s.loop && s'.threads == s.threads[th := SwingTail(n, t)];
  }

  lemma TailStepQueue(s: State, th: Thread)
    requires QueueInv(s) && Enabled(s, Advance(th)) && (s.threads[th].HelpTail? || s.threads[th].SwingTail?)
    ensures QueueInv(ThreadStep(s, th))
  {
    assert ThreadOk(s.q, s.h, th, s.threads[th]);
    var t := s.threads[th].tail;
    var to := if s.threads[th].HelpTail? then s.threads[th].next.value else s.threads[th].node;
    var pc := if s.threads[th].HelpTail? then LoadTail(s.threads[th].node) else LoadMode;
    CasTailQueue(s, t, to);
    GotoQueue(CasTail(s, t, to), th, pc);
  }

  /** Steps of `EnQueue` that only load. */
  lemma LoadStepQueue(s: State, th: Thread)
    requires QueueInv(s) && Enabled(s, Advance(th))
    requires var pc := s.threads[th];
      pc.LoadTail? || pc.LoadNext? || pc.CheckTail? || (pc.LinkCas? && s.q.next[pc.tail].Some?)
    ensures QueueInv(ThreadStep(s, th))
  {
    var pc := s.threads[th];
    assert ThreadOk(s.q, s.h, th, pc);
    if pc.LoadTail? { assert s.h.linked[s.h.tailAt] == s.q.tail; }
    var s' := ThreadStep(s, th);
    GotoQueue(s, th, s'.threads[th]);
    assert s' == Goto(s, th, s'.threads[th]);
  }

  /** Words outside the queue do not matter to it. */
  lemma SignalStepQueue(s: State, th: Thread)
    requires QueueInv(s) && Enabled(s, Advance(th)) && !InEnQueue(s.threads[th])
    ensures QueueInv(ThreadStep(s, th))
  {
    var s' := ThreadStep(s, th);
    assert s'.q == s.q && s'.h == s.h && s'.loop == s.loop && s'.threads == s.threads[th := s'.threads[th]];
    UncountedGoto(s.threads, th, s'.threads[th]);
  }

  lemma ThreadStepQueue(s: State, th: Thread)
    requires QueueInv(s) && Enabled(s, Advance(th))
    ensures QueueInv(ThreadStep(s, th))
  {
    hide QueueInv, ThreadStep;
    match s.threads[th]
    case LinkCas(n, t) => if s.q.next[t].None? { LinkQueue(s, th); } else { LoadStepQueue(s, th); }
    case HelpTail(_, _, _) => TailStepQueue(s, th);
    case SwingTail(_, _) => TailStepQueue(s, th);
    case AddSize(n, t) => AddSizeQueue(s, th, n, t);
    case LoadTail(_) => LoadStepQueue(s, th);
    case LoadNext(_, _) => LoadStepQueue(s, th);
    case CheckTail(_, _, _) => LoadStepQueue(s, th);
    case _ => SignalStepQueue(s, th);
  }

  /** Allocating the node and entering `EnQueue`. */
  lemma AllocChain(q: Queue, h: History, threads: map<Thread, Pc>, q': Queue, h': History, th: Thread, node: Node)
    requires Chain(q, h) && ThreadsOk(q, h, threads) && node !in q.next && q'.value.Keys == q.value.Keys + {node}
    requires q' == q.(next := q.next[node := None], value := q'.value) && q'.value - {node} == q.value - {node}
    requires h' == h.(owner := h.owner[node := th], called := h'.called)
    ensures Chain(q', h') && ThreadsOk(q', h', threads) && Advances(q, h, q', h') && Private(q', h', th, node)
  {
    forall n | n in q.value && n in h.owner ensures q'.value[n] == q.value[n] {
      assert (q'.value - {node})[n] == (q.value - {node})[n];
    }
    assert Chain(q', h');
    ThreadsOkFrame(q, h, q', h', threads);
  }

  lemma CallEnQueueQueue(s: State, th: Thread, node: Node, task: Task)
    requires QueueInv(s) && Enabled(s, CallEnQueue(th, node, task))
    ensures QueueInv(Do(s, CallEnQueue(th, node, task)))
  {
    var s' := Do(s, CallEnQueue(th, node, task));
    AllocChain(s.q, s.h, s.threads, s'.q, s'.h, th, node);
    LoopOkFrame(s.q, s.h, s'.q, s'.h, s.loop);
    UncountedGoto(s.threads, th, LoadTail(node));
  }

  /** The head compare-and-swap: the dequeue point. */
  lemma DqCasQueue(s: State)
    requires QueueInv(s) && Enabled(s, LoopAdvance) && s.loop.DqCas?
    ensures QueueInv(LoopStep(s))
  {
    var q', h' := LoopStep(s).q, LoopStep(s).h;
    assert s.q.next[s.h.linked[s.h.popped]] == Some(s.h.linked[s.h.popped + 1]);
    assert Chain(q', h') && LoopOk(q', h', LoopStep(s).loop);
    hide Chain, LoopOk;
    ThreadsOkFrame(s.q, s.h, q', h', s.threads);
  }

  /** The counter is positive, so there is a successor to take. */
  lemma DqNextQueue(s: State)
    requires QueueInv(s) && Enabled(s, LoopAdvance) && s.loop.DqNext?
    ensures QueueInv(LoopStep(s))
  {
    assert s.q.next[s.h.linked[s.h.popped]] == Some(s.h.linked[s.h.popped + 1]);
  }

  lemma DqHelpQueue(s: State)
    requires QueueInv(s) && Enabled(s, LoopAdvance) && s.loop.DqHelp?
    ensures QueueInv(LoopStep(s))
  {
    assert s.h.linked[s.h.popped] == s.loop.tail;
    CasTailQueue(s, s.loop.tail, s.loop.next.value);
  }

  /** The tail read after `next` is at or after the head; if it is not the head, the head may move. */
  lemma DqTailQueue(s: State)
    requires QueueInv(s) && Enabled(s, LoopAdvance) && (s.loop.DqTail? || s.loop.DqCheck? || s.loop.DqCompare?)
    ensures QueueInv(LoopStep(s))
  {
    assert s.h.linked[s.h.tailAt] == s.q.tail;
    var s' := LoopStep(s);
    assert s'.q == s.q && s'.threads == s.threads;
    assert LoopOk(s.q, s.h, s'.loop);
    assert s'.h == s.h;
  }

  lemma DqSizeQueue(s: State)
    requires QueueInv(s) && Enabled(s, LoopAdvance) && s.loop.DqSize?
    ensures QueueInv(LoopStep(s))
  {
    SizeFrame(s.q, s.h, LoopStep(s).q, LoopStep(s).h, s.threads);
  }

  /** Outside `Dequeue` the loop thread does not touch the queue. */
  lemma LoopOutsideQueue(s: State)
    requires QueueInv(s) && Enabled(s, LoopAdvance)
    requires !(s.loop.DqNext? || s.loop.DqCas? || s.loop.DqTail? || s.loop.DqCheck? || s.loop.DqCompare?
               || s.loop.DqHelp? || s.loop.DqSize?)
    ensures QueueInv(LoopStep(s))
  {
    var s' := LoopStep(s);
    assert s'.q == s.q && s'.h == s.h && s'.threads == s.threads;
  }

  lemma LoopStepQueue(s: State)
    requires QueueInv(s) && Enabled(s, LoopAdvance)
    ensures QueueInv(LoopStep(s))
  {
    hide QueueInv, LoopStep;
    if s.loop.DqNext? { DqNextQueue(s); }
    else if s.loop.DqCas? { DqCasQueue(s); }
    else if s.loop.DqTail? || s.loop.DqCheck? || s.loop.DqCompare? { DqTailQueue(s); }
    else if s.loop.DqHelp? { DqHelpQueue(s); }
    else if s.loop.DqSize? { DqSizeQueue(s); }
    else { LoopOutsideQueue(s); }
  }

  lemma QueueStep(s: State, a: Action)
    requires QueueInv(s) && Enabled(s, a)
    ensures QueueInv(Do(s, a))
  {
    match a
    case CallEnQueue(th, node, task) => CallEnQueueQueue(s, th, node, task);
    case CallStop(th) => GotoQueue(s, th, StopTest);
    case Advance(th) => ThreadStepQueue(s, th);
    case LoopAdvance => LoopStepQueue(s);
    case _ =>
  }

  // ---------------------------------------------------------------- order is preserved

  lemma {:induction false} SentByFrame(nodes: seq<Node>, q: Queue, h: History, q': Queue, h': History, th: Thread)
    requires forall i :: 0 <= i < |nodes| ==> nodes[i] in h.owner && nodes[i] in q.value
    requires Advances(q, h, q', h')
    ensures SentBy(nodes, h'.owner, q'.value, th) == SentBy(nodes, h.owner, q.value, th)
  {
    if nodes != [] {
      SentByFrame(nodes[..|nodes| - 1], q, h, q', h', th);
    }
  }

  lemma SentBySnoc(linked: seq<Node>, n: Node, owner: map<Node, Thread>, value: map<Node, Task>, th: Thread)
    requires |linked| > 0 && n in owner && n in value
    ensures SentBy((linked + [n])[1..], owner, value, th)
      == SentBy(linked[1..], owner, value, th) + if owner[n] == th then [value[n]] else []
  {
    var nodes := linked[1..] + [n];
    assert (linked + [n])[1..] == nodes;
    assert nodes[..|nodes| - 1] == linked[1..];
  }

  lemma LinkParts(s: State, th: Thread)
    requires Enabled(s, Advance(th)) && s.threads[th].LinkCas? && s.q.next[s.threads[th].tail].None?
    ensures var LinkCas(n, t) := s.threads[th]; var s' := ThreadStep(s, th);
      && s'.h == s.h.(linked := s.h.linked + [n]) && s'.q == s.q.(next := s.q.next[t := Some(n)])
      && s'.threads == s.threads[th := AddSize(n, t)] && s'.loop == s.loop
  {
  }

  lemma LinkFifo(s: State, th: Thread)
    requires QueueInv(s) && FifoInv(s) && Enabled(s, Advance(th))
    requires s.threads[th].LinkCas? && s.q.next[s.threads[th].tail].None?
    ensures FifoInv(ThreadStep(s, th))
  {
    hide Chain, SentBy, LoopOk, ThreadStep;
    var LinkCas(n, tail) := s.threads[th];
    assert ThreadOk(s.q, s.h, th, s.threads[th]);
    LinkParts(s, th);
    var s' := ThreadStep(s, th);
    forall t | t in s'.threads ensures OrderOk(s'.q, s'.h, t, s'.threads[t]) {
      assert OrderOk(s.q, s.h, t, s.threads[t]);
      SentBySnoc(s.h.linked, n, s.h.owner, s.q.value, t);
    }
    LinkOut(s, s', n);
  }

  lemma LinkOut(s: State, s': State, n: Node)
    requires OutOk(s.q, s.h, s.loop) && s'.q.value == s.q.value && s'.loop == s.loop
    requires s'.h == s.h.(linked := s.h.linked + [n])
    ensures OutOk(s'.q, s'.h, s'.loop)
  {
  }

  /** Every other thread step leaves links, owners and values alone, and does not start or finish a call's link. */
  lemma ThreadStepFrame(s: State, th: Thread)
    requires Enabled(s, Advance(th))
    requires !(s.threads[th].LinkCas? && s.q.next[s.threads[th].tail].None?)
    ensures var s' := ThreadStep(s, th);
      && s'.h == s.h.(tailAt := s'.h.tailAt) && s'.q.value == s.q.value && s'.loop == s.loop
      && s'.threads == s.threads[th := s'.threads[th]]
      && InFlight(s'.threads[th], s.q.value) == InFlight(s.threads[th], s.q.value)
  {
  }

  lemma ThreadStepFifo(s: State, th: Thread)
    requires QueueInv(s) && FifoInv(s) && Enabled(s, Advance(th))
    ensures FifoInv(ThreadStep(s, th))
  {
    if s.threads[th].LinkCas? && s.q.next[s.threads[th].tail].None? {
      LinkFifo(s, th);
    } else {
      ThreadStepFrame(s, th);
      hide ThreadStep, QueueInv, SentBy;
      var s' := ThreadStep(s, th);
      forall t | t in s'.threads ensures OrderOk(s'.q, s'.h, t, s'.threads[t]) {
        assert OrderOk(s.q, s.h, t, s.threads[t]);
      }
    }
  }

  lemma CallEnQueueOrder(q: Queue, h: History, q': Queue, h': History, t: Thread, pc: Pc)
    requires Chain(q, h) && Chain(q', h') && Advances(q, h, q', h') && h'.linked == h.linked
    requires OrderOk(q, h, t, pc) && ThreadOk(q, h, t, pc) && t in h'.called && h'.called[t] == h.called[t]
    ensures OrderOk(q', h', t, pc)
  {
    SentByFrame(h.linked[1..], q, h, q', h', t);
    hide Chain, SentBy;
  }

  lemma OutFrame(q: Queue, h: History, q': Queue, h': History, loop: LoopPc)
    requires Chain(q, h) && Advances(q, h, q', h') && h'.linked == h.linked
    requires OutOk(q, h, loop) && h'.out == h.out && h'.popped == h.popped
    ensures OutOk(q', h', loop)
  {
  }

  lemma CallEnQueueFifo(s: State, th: Thread, node: Node, task: Task)
    requires QueueInv(s) && FifoInv(s) && Enabled(s, CallEnQueue(th, node, task))
    ensures FifoInv(Do(s, CallEnQueue(th, node, task)))
  {
    var s' := Do(s, CallEnQueue(th, node, task));
    AllocChain(s.q, s.h, s.threads, s'.q, s'.h, th, node);
    OutFrame(s.q, s.h, s'.q, s'.h, s.loop);
    SentByFrame(s.h.linked[1..], s.q, s.h, s'.q, s'.h, th);
    hide Chain, LoopOk, SentBy, OutOk, ThreadOk, Advances, OrderOk;
    forall t | t in s'.threads && t != th ensures OrderOk(s'.q, s'.h, t, s'.threads[t]) {
      assert OrderOk(s.q, s.h, t, s.threads[t]) && ThreadOk(s.q, s.h, t, s.threads[t]);
      CallEnQueueOrder(s.q, s.h, s'.q, s'.h, t, s.threads[t]);
    }
    CallerOrder(s.q, s.h, s'.q, s'.h, th, node, task);
  }

  lemma CallerOrder(q: Queue, h: History, q': Queue, h': History, th: Thread, node: Node, task: Task)
    requires OrderOk(q, h, th, Idle) && h'.linked == h.linked && node in q'.value && q'.value[node] == task
    requires th in h'.called && h'.called[th] == h.called[th] + [task]
    requires SentBy(h.linked[1..], h'.owner, q'.value, th) == SentBy(h.linked[1..], h.owner, q.value, th)
    ensures OrderOk(q', h', th, LoadTail(node))
  {
    hide SentBy;
  }

  lemma LoopStepFrame(s: State)
    requires Enabled(s, LoopAdvance)
    ensures var s' := LoopStep(s);
      && s'.h == s.h.(popped := s'.h.popped, tailAt := s'.h.tailAt, out := s'.h.out)
      && s'.q.value == s.q.value && s'.threads == s.threads
  {
    if InDequeue(s.loop) { DequeueStepFrame(s); } else { OutsideStepFrame(s); }
  }

  lemma DequeueStepFrame(s: State)
    requires Enabled(s, LoopAdvance) && InDequeue(s.loop)
    ensures var s' := DequeueStep(s);
      && s'.h == s.h.(popped := s'.h.popped, tailAt := s'.h.tailAt, out := s'.h.out)
      && s'.q.value == s.q.value && s'.threads == s.threads
      && if s.loop.DqHelp? && s.q.tail == s.loop.tail then s'.h.tailAt == s.h.tailAt + 1
         else s'.h.tailAt == s.h.tailAt && s'.q.tail == s.q.tail
  {
  }

  lemma OutsideStepFrame(s: State)
    requires Enabled(s, LoopAdvance) && !InDequeue(s.loop)
    ensures var s' := OutsideStep(s); s'.h == s.h && s'.q == s.q && s'.threads == s.threads
  {
  }

  /** Only the head swap and the return of `Dequeue` concern what has come out. */
  lemma LoopOutFrame(s: State)
    requires Enabled(s, LoopAdvance) && !s.loop.DqCas? && !s.loop.DqSize?
    requires s.loop.DqCompare? ==> s.loop.next.Some?
    ensures var s' := LoopStep(s);
      s'.q.value == s.q.value && s'.h == s.h.(tailAt := s'.h.tailAt) && !s'.loop.DqSize?
  {
  }

  lemma LoopStepOut(s: State)
    requires QueueInv(s) && OutOk(s.q, s.h, s.loop) && Enabled(s, LoopAdvance)
    ensures OutOk(LoopStep(s).q, LoopStep(s).h, LoopStep(s).loop)
  {
    if s.loop.DqCas? {
      assert s.h.popped < s.h.tailAt < |s.h.linked|;
    } else if s.loop.DqSize? {
      assert s.loop.next == Some(s.h.linked[s.h.popped]);
    } else {
      assert LoopOk(s.q, s.h, s.loop);
      LoopOutFrame(s);
      hide QueueInv, LoopStep;
    }
  }

  lemma LoopStepFifo(s: State)
    requires QueueInv(s) && FifoInv(s) && Enabled(s, LoopAdvance)
    ensures FifoInv(LoopStep(s))
  {
    LoopStepFrame(s);
    LoopStepOut(s);
    hide LoopStep, QueueInv, SentBy, OutOk;
    var s' := LoopStep(s);
    forall t | t in s'.threads ensures OrderOk(s'.q, s'.h, t, s'.threads[t]) {
      assert OrderOk(s.q, s.h, t, s.threads[t]);
    }
  }

  lemma PollFifo(s: State, a: Action)
    requires FifoInv(s) && Enabled(s, a) && (a.CallStart? || a.EpollNothing? || a.EpollEvents? || a.ReadEventFd?)
    ensures FifoInv(Do(s, a))
  {
    var s' := Do(s, a);
    assert s'.q == s.q && s'.h == s.h && s'.threads == s.threads;
  }

  lemma FifoStep(s: State, a: Action)
    requires QueueInv(s) && FifoInv(s) && Enabled(s, a)
    ensures FifoInv(Do(s, a))
  {
    hide QueueInv, ThreadStep, LoopStep;
    match a
    case CallEnQueue(th, node, task) => CallEnQueueFifo(s, th, node, task);
    case Advance(th) => ThreadStepFifo(s, th);
    case LoopAdvance => LoopStepFifo(s);
    case CallStop(th) =>
      hide SentBy;
      forall t | t in s.threads ensures OrderOk(s.q, s.h, t, Do(s, a).threads[t]) {
        assert OrderOk(s.q, s.h, t, s.threads[t]);
      }
    case _ => PollFifo(s, a);
  }

  // ---------------------------------------------------------------- main results

  lemma InvStep(s: State, a: Action)
    requires Inv(s) && Enabled(s, a)
    ensures Inv(Do(s, a))
  {
    QueueStep(s, a);
    FifoStep(s, a);
    WakeStep(s, a);
  }

  /** The actions can be taken one after the other from `s`. */
  ghost predicate CanRun(s: State, actions: seq<Action>)
    decreases |actions|
  {
    actions != [] ==> Enabled(s, actions[0]) && CanRun(Do(s, actions[0]), actions[1..])
  }

  ghost function Final(s: State, actions: seq<Action>): State
    requires CanRun(s, actions)
    decreases |actions|
  {
    if actions == [] then s else Final(Do(s, actions[0]), actions[1..])
  }

  /** `s` occurs in some interleaving. */
  ghost predicate Reachable(s: State) {
    exists s0, actions :: Init(s0) && CanRun(s0, actions) && Final(s0, actions) == s
  }

  lemma {:induction false} RunInv(s: State, actions: seq<Action>)
    requires Inv(s) && CanRun(s, actions)
    ensures Inv(Final(s, actions))
    decreases |actions|
  {
    if actions != [] {
      InvStep(s, actions[0]);
      RunInv(Do(s, actions[0]), actions[1..]);
    }
  }

  lemma ReachableInv(s: State)
    requires Reachable(s)
    ensures Inv(s)
  {
    var s0, actions :| Init(s0) && CanRun(s0, actions) && Final(s0, actions) == s;
    InitInv(s0);
    RunInv(s0, actions);
  }

  /** The abstract queue: the tasks linked and not yet passed by the head. */
  ghost function Pending(s: State): seq<Task>
    requires Chain(s.q, s.h)
  {
    Values(s.q.value, s.h.linked[s.h.popped + 1..])
  }

  ghost function Values(value: map<Node, Task>, nodes: seq<Node>): seq<Task>
    requires forall i :: 0 <= i < |nodes| ==> nodes[i] in value
  {
    seq(|nodes|, i requires 0 <= i < |nodes| => value[nodes[i]])
  }

  /** The link that succeeds is the enqueue point; the head swap that succeeds is the dequeue point. */
  predicate Enqueues(s: State, a: Action)
    requires Enabled(s, a)
  {
    a.Advance? && s.threads[a.th].LinkCas? && s.q.next[s.threads[a.th].tail].None?
  }

  predicate Dequeues(s: State, a: Action) {
    a.LoopAdvance? && s.loop.DqCas? && s.q.head == s.loop.head
  }

  lemma ValuesSnoc(value: map<Node, Task>, linked: seq<Node>, k: nat, n: Node)
    requires k <= |linked| && n in value && forall i :: k <= i < |linked| ==> linked[i] in value
    ensures forall i :: k <= i < |linked + [n]| ==> (linked + [n])[i] in value
    ensures Values(value, (linked + [n])[k..]) == Values(value, linked[k..]) + [value[n]]
  {
    assert (linked + [n])[k..] == linked[k..] + [n];
  }

  lemma ValuesTail(value: map<Node, Task>, linked: seq<Node>, k: nat)
    requires k < |linked| && forall i :: k <= i < |linked| ==> linked[i] in value
    ensures Values(value, linked[k..]) == [value[linked[k]]] + Values(value, linked[k + 1..])
  {
  }

  lemma LinkFrame(s: State, th: Thread)
    requires Enabled(s, Advance(th)) && Enqueues(s, Advance(th))
    ensures var s' := ThreadStep(s, th);
      s'.h == s.h.(linked := s.h.linked + [s.threads[th].node]) && s'.q.value == s.q.value
  {
  }

  lemma LinkPending(s: State, th: Thread)
    requires QueueInv(s) && Enabled(s, Advance(th)) && Enqueues(s, Advance(th)) && QueueInv(ThreadStep(s, th))
    ensures var n := s.threads[th].node;
      n in s.q.value && Pending(ThreadStep(s, th)) == Pending(s) + [s.q.value[n]]
  {
    LinkFrame(s, th);
    assert ThreadOk(s.q, s.h, th, s.threads[th]);
    hide ThreadStep, ThreadsOk, LoopOk;
    ValuesSnoc(s.q.value, s.h.linked, s.h.popped + 1, s.threads[th].node);
  }

  lemma DequeuePending(s: State)
    requires QueueInv(s) && Enabled(s, LoopAdvance) && Dequeues(s, LoopAdvance) && QueueInv(LoopStep(s))
    ensures var s' := LoopStep(s);
      && Pending(s) != [] && Pending(s') == Pending(s)[1..]
      && s'.loop.DqSize? && s'.loop.next.Some? && s'.loop.next.value in s.q.value
      && s.q.value[s'.loop.next.value] == Pending(s)[0]
  {
    var s' := LoopStep(s);
    assert LoopOk(s.q, s.h, s.loop);
    assert s.q.next[s.h.linked[s.h.popped]] == Some(s.h.linked[s.h.popped + 1]);
    ValuesTail(s.q.value, s.h.linked, s.h.popped + 1);
  }

  lemma OtherFrame(s: State, a: Action)
    requires Enabled(s, a) && !Enqueues(s, a) && !Dequeues(s, a)
    ensures var s' := Do(s, a);
      && s'.h.linked == s.h.linked && s'.h.popped == s.h.popped
      && (forall n | n in s.q.next && n in s.q.value :: n in s'.q.value && s'.q.value[n] == s.q.value[n])
  {
    if a.Advance? {
      ThreadStepFrame(s, a.th);
    } else if a.LoopAdvance? {
      LoopStepFrame(s);
      if s.loop.DqCas? { assert LoopStep(s).h == s.h; } else { LoopPoppedFrame(s); }
    }
    hide ThreadStep, LoopStep;
  }

  lemma LoopPoppedFrame(s: State)
    requires Enabled(s, LoopAdvance) && !s.loop.DqCas?
    ensures LoopStep(s).h.popped == s.h.popped
  {
  }

  lemma OtherPending(s: State, a: Action)
    requires Chain(s.q, s.h) && Enabled(s, a) && Chain(Do(s, a).q, Do(s, a).h)
    requires !Enqueues(s, a) && !Dequeues(s, a)
    ensures Pending(Do(s, a)) == Pending(s)
  {
    OtherFrame(s, a);
    var s' := Do(s, a);
    hide Do;
    var nodes := s.h.linked[s.h.popped + 1..];
    forall i | 0 <= i < |nodes| ensures s'.q.value[nodes[i]] == s.q.value[nodes[i]] {
      assert nodes[i] == s.h.linked[s.h.popped + 1 + i];
    }
  }

  /**
   Refinement of an atomic FIFO. Every step of every interleaving either appends the task of the call in progress,
   or takes the first pending task (which is then what `Dequeue` returns), or leaves the abstract queue alone.
   */
  lemma StepRefinesFifo(s: State, a: Action)
    requires Inv(s) && Enabled(s, a)
    ensures Inv(Do(s, a))
    ensures
      var s' := Do(s, a);
      if Enqueues(s, a) then
        var n := s.threads[a.th].node;
        n in s.q.value && Pending(s') == Pending(s) + [s.q.value[n]]
      else if Dequeues(s, a) then
        && Pending(s) != [] && Pending(s') == Pending(s)[1..]
        && s'.loop.DqSize? && s'.loop.next.Some? && s'.loop.next.value in s.q.value
        && s.q.value[s'.loop.next.value] == Pending(s)[0]
      else Pending(s') == Pending(s)
  {
    InvStep(s, a);
    assert Chain(s.q, s.h) && Chain(Do(s, a).q, Do(s, a).h);
    if Enqueues(s, a) {
      LinkPending(s, a.th);
    } else if Dequeues(s, a) {
      DequeuePending(s);
    } else {
      OtherPending(s, a);
    }
  }

  /**
   No reachable step dereferences a null pointer or one that was never allocated: every thread inside a call can take
   its next step. Whether the node has been deleted meanwhile is another matter, see `TouchesDeletedExactly`.
   */
  lemma NeverStuck(s: State)
    requires Reachable(s)
    ensures forall th :: MayAct(s, th) && s.threads[th] != Idle ==> Enabled(s, Advance(th))
    ensures LoopReadable(s)
  {
    ReachableInv(s);
    forall th | MayAct(s, th) && s.threads[th] != Idle ensures Enabled(s, Advance(th)) {
      assert ThreadOk(s.q, s.h, th, s.threads[th]);
    }
    if s.loop.DqSize? { assert s.h.linked[s.h.popped] in s.h.owner; }
  }

  // ---------------------------------------------------------------- deleted nodes

  /** How many nodes `Dequeue` has deleted: each old head, once the element has been taken and the counter lowered. */
  function Freed(s: State): int {
    s.h.popped - if s.loop.DqSize? then 1 else 0
  }

  ghost predicate Deleted(s: State, n: Node) {
    exists k :: 0 <= k < Freed(s) && k < |s.h.linked| && s.h.linked[k] == n
  }

  /** The consumer never reads a node it has deleted. */
  lemma ConsumerReadsLiveNodes(s: State)
    requires Reachable(s)
    ensures s.loop.DqNext? ==> !Deleted(s, s.loop.head)
    ensures s.loop.DqSize? && s.loop.next.Some? ==> !Deleted(s, s.loop.next.value)
  {
    ReachableInv(s);
    assert LoopOk(s.q, s.h, s.loop);
  }

  /**
   A producer reads the next pointer of the tail it has loaded, and swaps it. It does so to a deleted node exactly when
   that tail is no longer among the nodes from the head on, which it does not look at. By then the node has a successor,
   so the swap is one that must fail.
   */
  lemma TouchesDeletedExactly(s: State, th: Thread)
    requires Reachable(s) && th in s.threads && (s.threads[th].LoadNext? || s.threads[th].LinkCas?)
    ensures 0 <= Freed(s) < |s.h.linked|
    ensures var t := s.threads[th].tail;
      && (Deleted(s, t) <==> t !in s.h.linked[Freed(s)..])
      && (Deleted(s, t) ==> t in s.q.next && s.q.next[t].Some?)
  {
    ReachableInv(s);
    FreedBounds(s);
    assert ThreadOk(s.q, s.h, th, s.threads[th]);
    hide Reachable, Inv, Chain, ThreadsOk, LoopOk, OrderOk;
    PassedExactly(s.q, s.h, s.threads[th].tail, Freed(s));
  }

  lemma FreedBounds(s: State)
    requires QueueInv(s)
    ensures 0 <= Freed(s) <= s.h.popped < |s.h.linked|
  {
    assert LoopOk(s.q, s.h, s.loop);
    hide ThreadsOk;
  }

  lemma PassedExactly(q: Queue, h: History, t: Node, f: nat)
    requires Chain(q, h) && WasTail(h, t) && f <= h.popped
    ensures (exists k :: 0 <= k < f && k < |h.linked| && h.linked[k] == t) <==> t !in h.linked[f..]
    ensures t !in h.linked[f..] ==> t in q.next && q.next[t].Some?
  {
    var k :| 0 <= k <= h.tailAt && h.linked[k] == t;
    if k < f {
      assert q.next[h.linked[k]] == Some(h.linked[k + 1]);
    } else {
      assert h.linked[f..][k - f] == t;
    }
  }

  /** No thread but `p` has ever called `EnQueue`. */
  ghost predicate SoleProducer(s: State, p: Thread) {
    forall th | th in s.h.called && th != p :: s.h.called[th] == []
  }

  /** With a sole producer, the tail is behind only while that producer is about to move it. */
  ghost predicate SoleOk(q: Queue, h: History, pc: Pc) {
    match pc
    case AddSize(n, t) => AtEnd(h) || (h.tailAt == |h.linked| - 2 && q.tail == t && h.linked[|h.linked| - 1] == n)
    case SwingTail(n, t) => AtEnd(h) || (h.tailAt == |h.linked| - 2 && q.tail == t && h.linked[|h.linked| - 1] == n)
    case LoadNext(_, t) => AtEnd(h) && t == q.tail
    case CheckTail(_, t, x) => AtEnd(h) && t == q.tail && x.None?
    case LinkCas(_, t) => AtEnd(h) && t == q.tail
    case HelpTail(_, _, _) => false
    case _ => AtEnd(h)
  }

  ghost predicate AtEnd(h: History) {
    h.tailAt == |h.linked| - 1
  }

  ghost predicate SoleInv(s: State, p: Thread) {
    && (forall th | th in s.threads :: th in s.h.called)
    && (SoleProducer(s, p) ==>
          && (forall th | th in s.threads && th != p :: !InEnQueue(s.threads[th]))
          && SoleOk(s.q, s.h, if p in s.threads then s.threads[p] else Idle))
  }

  lemma TailHasNoNext(q: Queue, h: History)
    requires Chain(q, h)
    ensures q.tail == h.linked[h.tailAt] && q.tail in q.next
    ensures AtEnd(h) <==> q.next[q.tail].None?
  {
    if !AtEnd(h) { assert q.next[h.linked[h.tailAt]] == Some(h.linked[h.tailAt + 1]); }
  }

  /** The sole producer loads the tail, and finds it unmoved and without a successor. */
  lemma SoleLoad(s: State, p: Thread)
    requires Chain(s.q, s.h) && Enabled(s, Advance(p)) && SoleOk(s.q, s.h, s.threads[p])
    requires var pc := s.threads[p]; pc.LoadTail? || pc.LoadNext? || pc.CheckTail? || pc.LinkCas?
    ensures var s' := EnQueueStep(s, p); SoleOk(s'.q, s'.h, s'.threads[p])
  {
    TailHasNoNext(s.q, s.h);
    hide Chain;
  }

  lemma SoleSwing(s: State, p: Thread)
    requires Chain(s.q, s.h) && Enabled(s, Advance(p)) && SoleOk(s.q, s.h, s.threads[p])
    requires s.threads[p].AddSize? || s.threads[p].SwingTail?
    requires ThreadOk(s.q, s.h, p, s.threads[p])
    ensures var s' := EnQueueStep(s, p); SoleOk(s'.q, s'.h, s'.threads[p])
  {
    TailHasNoNext(s.q, s.h);
    hide Chain;
  }

  lemma SoleEnQueueStep(s: State, p: Thread)
    requires Chain(s.q, s.h) && Enabled(s, Advance(p)) && SoleOk(s.q, s.h, s.threads[p])
    requires ThreadOk(s.q, s.h, p, s.threads[p]) && InEnQueue(s.threads[p])
    ensures var s' := EnQueueStep(s, p); SoleOk(s'.q, s'.h, s'.threads[p])
  {
    hide Chain, ThreadOk, EnQueueStep;
    if s.threads[p].AddSize? || s.threads[p].SwingTail? { SoleSwing(s, p); } else { SoleLoad(s, p); }
  }

  lemma SignalFrame(s: State, th: Thread)
    requires Enabled(s, Advance(th)) && !InEnQueue(s.threads[th])
    ensures var s' := ThreadStep(s, th);
      && s'.q == s.q && s'.h == s.h && s'.threads == s.threads[th := s'.threads[th]] && !InEnQueue(s'.threads[th])
  {
  }

  lemma EnQueueFrame(s: State, th: Thread)
    requires Enabled(s, Advance(th)) && InEnQueue(s.threads[th])
    ensures var s' := ThreadStep(s, th);
      s' == EnQueueStep(s, th) && s'.h.called == s.h.called && s'.threads == s.threads[th := s'.threads[th]]
  {
  }

  lemma SoleThreadStep(s: State, th: Thread, p: Thread)
    requires QueueInv(s) && SoleInv(s, p) && Enabled(s, Advance(th))
    ensures SoleInv(ThreadStep(s, th), p)
  {
    assert ThreadOk(s.q, s.h, th, s.threads[th]);
    hide Chain, ThreadOk, ThreadsOk, LoopOk, ThreadStep, EnQueueStep;
    if InEnQueue(s.threads[th]) {
      EnQueueFrame(s, th);
      if SoleProducer(s, p) { SoleEnQueueStep(s, p); }
    } else {
      SignalFrame(s, th);
    }
  }

  lemma LoopTailFrame(s: State)
    requires Enabled(s, LoopAdvance)
    ensures var s' := LoopStep(s);
      && s'.h.linked == s.h.linked && s'.h.called == s.h.called && s'.threads == s.threads
      && if s.loop.DqHelp? && s.q.tail == s.loop.tail then s'.h.tailAt == s.h.tailAt + 1
         else s'.h.tailAt == s.h.tailAt && s'.q.tail == s.q.tail
  {
    if InDequeue(s.loop) { DequeueStepFrame(s); } else { OutsideStepFrame(s); }
  }

  lemma SoleLoopStep(s: State, p: Thread)
    requires QueueInv(s) && SoleInv(s, p) && Enabled(s, LoopAdvance)
    ensures SoleInv(LoopStep(s), p)
  {
    LoopTailFrame(s);
    TailHasNoNext(s.q, s.h);
    assert LoopOk(s.q, s.h, s.loop);
    hide Chain, ThreadsOk, LoopStep;
  }

  lemma SoleCall(s: State, a: Action, p: Thread)
    requires QueueInv(s) && SoleInv(s, p) && Enabled(s, a) && a.CallEnQueue?
    ensures SoleInv(Do(s, a), p)
  {
    var s' := Do(s, a);
    hide Chain, ThreadsOk, LoopOk;
    assert s'.h.called[a.th] != [];
    forall th | th in s.h.called && th != a.th ensures s'.h.called[th] == s.h.called[th] {}
    if SoleProducer(s', p) {
      assert a.th == p && SoleProducer(s, p);
    }
  }

  lemma SoleStep(s: State, a: Action, p: Thread)
    requires QueueInv(s) && SoleInv(s, p) && Enabled(s, a)
    ensures SoleInv(Do(s, a), p)
  {
    hide ThreadStep, LoopStep, Chain, ThreadsOk, LoopOk, SoleOk;
    match a
    case Advance(th) => SoleThreadStep(s, th, p);
    case LoopAdvance => SoleLoopStep(s, p);
    case CallEnQueue(_, _, _) => SoleCall(s, a, p);
    case CallStop(th) => OtherSole(s, a, p);
    case _ => OtherSole(s, a, p);
  }

  lemma OtherSole(s: State, a: Action, p: Thread)
    requires SoleInv(s, p) && Enabled(s, a) && !a.Advance? && !a.LoopAdvance? && !a.CallEnQueue?
    ensures SoleInv(Do(s, a), p)
  {
    var s' := Do(s, a);
    assert s'.q == s.q && s'.h == s.h;
    assert SoleProducer(s', p) <==> SoleProducer(s, p);
  }

  lemma {:induction false} SoleRun(s: State, actions: seq<Action>, p: Thread)
    requires Inv(s) && SoleInv(s, p) && CanRun(s, actions)
    ensures SoleInv(Final(s, actions), p)
    decreases |actions|
  {
    hide Inv, SoleInv, Do;
    if actions != [] {
      InvStep(s, actions[0]);
      InvParts(s);
      SoleStep(s, actions[0], p);
      SoleRun(Do(s, actions[0]), actions[1..], p);
    }
  }

  lemma InvParts(s: State)
    requires Inv(s)
    ensures QueueInv(s)
  {
  }

  /** As long as only one thread has called `EnQueue`, nothing ever touches a deleted node. */
  lemma SoleProducerIsSafe(s: State, p: Thread)
    requires Reachable(s) && SoleProducer(s, p)
    ensures forall th :: th in s.threads && (s.threads[th].LoadNext? || s.threads[th].LinkCas?) ==>
      !Deleted(s, s.threads[th].tail)
    ensures s.loop.DqNext? ==> !Deleted(s, s.loop.head)
    ensures s.loop.DqSize? && s.loop.next.Some? ==> !Deleted(s, s.loop.next.value)
  {
    ConsumerReadsLiveNodes(s);
    SoleReachable(s, p);
    hide Reachable, Chain, ThreadsOk, LoopOk;
    FreedBounds(s);
    forall th | th in s.threads && (s.threads[th].LoadNext? || s.threads[th].LinkCas?)
      ensures !Deleted(s, s.threads[th].tail)
    {
      SoleTouch(s, th);
    }
  }

  lemma SoleReachable(s: State, p: Thread)
    requires Reachable(s)
    ensures SoleInv(s, p) && QueueInv(s)
  {
    var s0, actions :| Init(s0) && CanRun(s0, actions) && Final(s0, actions) == s;
    InitInv(s0);
    RunInv(s0, actions);
    SoleStart(s0, p);
    hide Init, CanRun, Final, Chain, ThreadsOk, LoopOk, SoleInv;
    SoleRun(s0, actions, p);
  }

  lemma SoleStart(s: State, p: Thread)
    requires Init(s)
    ensures SoleInv(s, p)
  {
  }

  /** The tail itself has not been deleted. */
  lemma SoleTouch(s: State, th: Thread)
    requires Chain(s.q, s.h) && Freed(s) <= s.h.popped && th in s.threads
    requires s.threads[th].LoadNext? || s.threads[th].LinkCas?
    requires SoleOk(s.q, s.h, s.threads[th])
    ensures !Deleted(s, s.threads[th].tail)
  {
    TailHasNoNext(s.q, s.h);
  }

  /** A reachable state and one more step. */
  lemma ReachableStep(s: State, a: Action)
    requires Reachable(s) && Enabled(s, a)
    ensures Reachable(Do(s, a))
  {
    var s0, actions :| Init(s0) && CanRun(s0, actions) && Final(s0, actions) == s;
    RunSnoc(s0, actions, a);
  }

  lemma {:induction false} RunSnoc(s: State, actions: seq<Action>, a: Action)
    requires CanRun(s, actions) && Enabled(Final(s, actions), a)
    ensures CanRun(s, actions + [a]) && Final(s, actions + [a]) == Do(Final(s, actions), a)
    decreases |actions|
  {
    hide Do;
    var all := actions + [a];
    if actions == [] {
      assert all == [a] && all[1..] == [];
    } else {
      assert all[0] == actions[0] && all[1..] == actions[1..] + [a];
      RunSnoc(Do(s, actions[0]), actions[1..], a);
    }
  }

  /**
   Two producers, 1 and 2, with tasks 7 and 8 in nodes 101 and 102 behind the dummy 100. Producer 1 has loaded the tail.
   `linked`: producer 2 has linked its node.
   */
  function TwoProducers(two: Pc, linked: bool, size: nat, tail: Node, loop: LoopPc, stop: bool, mode: Mode): State {
    var next: map<Node, Option<Node>> := map[100 := if linked then Some(102) else None, 101 := None, 102 := None];
    State(Queue(next, map[101 := 7, 102 := 8], 100, tail, size), stop, mode, 0,
          map[0 := Idle, 1 := LoadNext(101, 100), 2 := two], loop,
          History(if linked then [100, 102] else [100], 0, if tail == 102 then 1 else 0, map[101 := 1, 102 := 2],
                  map[0 := [], 1 := [7], 2 := [8]], []))
  }

  /** Before the loop starts. */
  function Producing(two: Pc, linked: bool, size: nat, tail: Node): State {
    TwoProducers(two, linked, size, tail, Off, true, DoNothing)
  }

  /** After producer 2 has enqueued. */
  function Consuming(loop: LoopPc, stop: bool, mode: Mode): State {
    TwoProducers(LoadMode, true, 1, 102, loop, stop, mode)
  }

  /** Producer 2 is done, and the loop is in the extra state. */
  function Draining(loop: LoopPc): State {
    Consuming(loop, false, HandleExtraState)
  }

  lemma Follows(s: State, a: Action, s': State)
    requires Reachable(s) && Enabled(s, a) && Do(s, a) == s'
    ensures Reachable(s')
  {
    ReachableStep(s, a);
  }

  /** Nothing has been called yet; three threads. */
  function Begun(): State {
    State(Queue(map[100 := None], map[], 100, 100, 0), true, DoNothing, 0, map[0 := Idle, 1 := Idle, 2 := Idle], Off,
          History([100], 0, 0, map[], map[0 := [], 1 := [], 2 := []], []))
  }

  /** Producer 1 has called `EnQueue`. */
  function OneCalled(one: Pc): State {
    State(Queue(map[100 := None, 101 := None], map[101 := 7], 100, 100, 0), true, DoNothing, 0,
          map[0 := Idle, 1 := one, 2 := Idle], Off,
          History([100], 0, 0, map[101 := 1], map[0 := [], 1 := [7], 2 := []], []))
  }

  /** Producer 1 calls. */
  lemma WitnessBegins()
    ensures Reachable(OneCalled(LoadTail(101)))
  {
    assert Init(Begun()) && CanRun(Begun(), []) && Final(Begun(), []) == Begun();
    hide Reachable, Do;
    var none: seq<Task> := [];
    assert none + [7] == [7];
    CallOf(Begun(), 1, 101, 7, OneCalled(LoadTail(101)));
    Follows(Begun(), CallEnQueue(1, 101, 7), OneCalled(LoadTail(101)));
  }

  /** It loads the tail and pauses. */
  lemma WitnessPauses()
    ensures Reachable(OneCalled(LoadNext(101, 100)))
  {
    hide Reachable, Do;
    WitnessBegins();
    LoadOf(OneCalled(LoadTail(101)), 1, 101, OneCalled(LoadNext(101, 100)));
    Follows(OneCalled(LoadTail(101)), Advance(1), OneCalled(LoadNext(101, 100)));
  }

  /** Producer 2 calls. */
  lemma WitnessCalls()
    ensures Reachable(Producing(LoadTail(102), false, 0, 100))
  {
    hide Reachable, Do;
    WitnessPauses();
    var none: seq<Task> := [];
    assert none + [8] == [8];
    CallOf(OneCalled(LoadNext(101, 100)), 2, 102, 8, Producing(LoadTail(102), false, 0, 100));
    Follows(OneCalled(LoadNext(101, 100)), CallEnQueue(2, 102, 8), Producing(LoadTail(102), false, 0, 100));
  }

  lemma LoadOf(s: State, th: Thread, node: Node, s': State)
    requires Enabled(s, Advance(th)) && s.threads[th] == LoadTail(node)
    requires s' == s.(threads := s'.threads) && s'.threads == s.threads[th := LoadNext(node, s.q.tail)]
    ensures Do(s, Advance(th)) == s'
  {
  }

  lemma CallOf(s: State, th: Thread, node: Node, task: Task, s': State)
    requires Enabled(s, CallEnQueue(th, node, task))
    requires s'.q.next == s.q.next[node := None] && s'.q.value == s.q.value[node := task]
    requires s'.q.head == s.q.head && s'.q.tail == s.q.tail && s'.q.size == s.q.size
    requires s'.threads == s.threads[th := LoadTail(node)]
    requires s'.h.owner == s.h.owner[node := th] && s'.h.called == s.h.called[th := s.h.called[th] + [task]]
    requires s'.h.linked == s.h.linked && s'.h.popped == s.h.popped && s'.h.tailAt == s.h.tailAt && s'.h.out == s.h.out
    requires s'.stop == s.stop && s'.mode == s.mode && s'.eventfd == s.eventfd && s'.loop == s.loop
    ensures Do(s, CallEnQueue(th, node, task)) == s'
  {
  }

  /** Producer 2 finds the tail without a successor. */
  lemma WitnessLoads()
    requires Reachable(Producing(LoadTail(102), false, 0, 100))
    ensures Reachable(Producing(LinkCas(102, 100), false, 0, 100))
  {
    hide Reachable;
    Follows(Producing(LoadTail(102), false, 0, 100), Advance(2), Producing(LoadNext(102, 100), false, 0, 100));
    Follows(Producing(LoadNext(102, 100), false, 0, 100), Advance(2),
            Producing(CheckTail(102, 100, None), false, 0, 100));
    Follows(Producing(CheckTail(102, 100, None), false, 0, 100), Advance(2),
            Producing(LinkCas(102, 100), false, 0, 100));
  }

  /** It links its node. */
  lemma WitnessLinks()
    requires Reachable(Producing(LinkCas(102, 100), false, 0, 100))
    ensures Reachable(Producing(AddSize(102, 100), true, 0, 100))
  {
    hide Reachable;
    Follows(Producing(LinkCas(102, 100), false, 0, 100), Advance(2), Producing(AddSize(102, 100), true, 0, 100));
  }

  /** It counts the node and moves the tail. */
  lemma WitnessCounts()
    requires Reachable(Producing(AddSize(102, 100), true, 0, 100))
    ensures Reachable(Consuming(Off, true, DoNothing))
  {
    hide Reachable;
    Follows(Producing(AddSize(102, 100), true, 0, 100), Advance(2), Producing(SwingTail(102, 100), true, 1, 100));
    Follows(Producing(SwingTail(102, 100), true, 1, 100), Advance(2), Consuming(Off, true, DoNothing));
  }

  /** The loop starts and waits. */
  lemma WitnessWaits()
    requires Reachable(Consuming(Off, true, DoNothing))
    ensures Reachable(Consuming(Wait, false, EpollWait))
  {
    hide Reachable;
    Follows(Consuming(Off, true, DoNothing), CallStart, Consuming(ClearStop, true, DoNothing));
    Follows(Consuming(ClearStop, true, DoNothing), LoopAdvance, Consuming(EnterWait, false, DoNothing));
    Follows(Consuming(EnterWait, false, DoNothing), LoopAdvance, Consuming(TestStop, false, EpollWait));
    Follows(Consuming(TestStop, false, EpollWait), LoopAdvance, Consuming(Wait, false, EpollWait));
  }

  /** It wakes up for some other descriptor, and has run the callbacks. */
  lemma WitnessDrains()
    requires Reachable(Consuming(Wait, false, EpollWait))
    ensures Reachable(Draining(DrainTest))
  {
    hide Reachable;
    Follows(Consuming(Wait, false, EpollWait), EpollEvents(false), Consuming(EnterActive(false), false, EpollWait));
    Follows(Consuming(EnterActive(false), false, EpollWait), LoopAdvance,
            Consuming(RunFds(false), false, HandleActiveFd));
    Follows(Consuming(RunFds(false), false, HandleActiveFd), LoopAdvance, Consuming(EnterExtra, false, HandleActiveFd));
    Follows(Consuming(EnterExtra, false, HandleActiveFd), LoopAdvance, Draining(DrainTest));
  }

  /** It dequeues, up to the swap of the head. */
  lemma WitnessDequeues()
    requires Reachable(Draining(DrainTest))
    ensures Reachable(Draining(DqCas(100, Some(102))))
  {
    hide Reachable;
    Follows(Draining(DrainTest), LoopAdvance, Draining(DqHead));
    Follows(Draining(DqHead), LoopAdvance, Draining(DqNext(100)));
    Follows(Draining(DqNext(100)), LoopAdvance, Draining(DqTail(100, Some(102))));
    Follows(Draining(DqTail(100, Some(102))), LoopAdvance, Draining(DqCheck(100, Some(102), 102)));
    Follows(Draining(DqCheck(100, Some(102), 102)), LoopAdvance, Draining(DqCompare(100, Some(102), 102)));
    Follows(Draining(DqCompare(100, Some(102), 102)), LoopAdvance, Draining(DqCas(100, Some(102))));
  }

  /**
   With two producers a producer can read a deleted node: producer 1 loads the tail, producer 2 enqueues behind it, and
   the consumer takes that element and deletes the node that producer 1 is about to read.
   */
  lemma DeletedNodeIsRead() returns (s: State)
    ensures Reachable(s) && 1 in s.threads && s.threads[1] == LoadNext(101, 100)
    ensures Enabled(s, Advance(1)) && Deleted(s, 100)
    ensures s.loop == RunTask(Some(8)) && s.h.linked == [100, 102]
  {
    hide Reachable, Do;
    WitnessCalls();
    WitnessLoads();
    WitnessLinks();
    WitnessCounts();
    WitnessWaits();
    WitnessDrains();
    WitnessDequeues();
    var s0 := Draining(DqCas(100, Some(102)));
    var s1 := s0.(q := s0.q.(head := 102), h := s0.h.(popped := 1), loop := DqSize(Some(102)));
    TakeHead(s0, s1);
    Follows(s0, LoopAdvance, s1);
    s := s1.(q := s1.q.(size := 0), h := s1.h.(out := [Some(8)]), loop := RunTask(Some(8)));
    TakeElement(s1, s);
    Follows(s1, LoopAdvance, s);
    assert s.h.linked[0] == 100;
  }

  lemma TakeHead(s: State, s': State)
    requires s.loop.DqCas? && s.loop.next.Some? && s.q.head == s.loop.head
    requires
      s' == s.(q := s.q.(head := s.loop.next.value), h := s.h.(popped := s.h.popped + 1), loop := DqSize(s.loop.next))
    ensures Enabled(s, LoopAdvance) && Do(s, LoopAdvance) == s'
  {
  }

  lemma TakeElement(s: State, s': State)
    requires s.loop.DqSize? && s.loop.next.Some? && s.loop.next.value in s.q.value && s.q.size > 0
    requires var task := Some(s.q.value[s.loop.next.value]);
      s' == s.(q := s.q.(size := s.q.size - 1), h := s.h.(out := s.h.out + [task]), loop := RunTask(task))
    ensures Enabled(s, LoopAdvance) && Do(s, LoopAdvance) == s'
  {
  }

  /**
   Size accounting. Outside `Dequeue` the counter never exceeds the number of pending nodes; a decrement never wraps;
   the successor that `Dequeue` reads is never null, so the default element is never returned.
   */
  lemma GuardedDequeue(s: State)
    requires Reachable(s)
    ensures Chain(s.q, s.h)
    ensures !s.loop.DqSize? ==> s.q.size <= |Pending(s)|
    ensures s.loop.DqSize? ==> s.q.size >= 1
    ensures s.loop.DqTail? || s.loop.DqCheck? || s.loop.DqCompare? || s.loop.DqCas? ==> s.loop.next.Some?
    ensures s.loop != RunTask(None) && None !in s.h.out
  {
    ReachableInv(s);
    assert LoopOk(s.q, s.h, s.loop) && OutOk(s.q, s.h, s.loop);
    forall i | 0 <= i < |s.h.out| ensures s.h.out[i].Some? {
      assert s.h.linked[i + 1] in s.q.value;
    }
  }

  lemma {:induction false} SentByPrefix(
    nodes: seq<Node>, k: nat, owner: map<Node, Thread>, value: map<Node, Task>, th: Thread)
    requires k <= |nodes|
    ensures SentBy(nodes[..k], owner, value, th) <= SentBy(nodes, owner, value, th)
  {
    if k < |nodes| {
      SentByPrefix(nodes[..|nodes| - 1], k, owner, value, th);
      assert nodes[..|nodes| - 1][..k] == nodes[..k];
    } else {
      assert nodes[..k] == nodes;
    }
  }

  /**
   Delivery, over whole runs. What `Dequeue` has returned is, in order, the values of the first linked nodes, each
   node once; and for every thread the delivered tasks of its own are a prefix of the tasks it passed to `EnQueue`.
   */
  lemma DeliveredInOrder(s: State)
    requires Reachable(s)
    ensures |s.h.out| < |s.h.linked|
    ensures forall i, j :: 0 <= i < j < |s.h.linked| ==> s.h.linked[i] != s.h.linked[j]
    ensures forall j :: 1 <= j <= |s.h.out| ==>
      s.h.linked[j] in s.q.value && s.h.out[j - 1] == Some(s.q.value[s.h.linked[j]])
    ensures forall th | th in s.threads && th in s.h.called ::
      SentBy(s.h.linked[1..|s.h.out| + 1], s.h.owner, s.q.value, th) <= s.h.called[th]
  {
    ReachableInv(s);
    hide Reachable, ThreadsOk, LoopOk, WakeInv;
    forall th | th in s.threads && th in s.h.called
      ensures SentBy(s.h.linked[1..|s.h.out| + 1], s.h.owner, s.q.value, th) <= s.h.called[th]
    {
      assert OrderOk(s.q, s.h, th, s.threads[th]);
      DeliveredPrefix(s.q, s.h, th, s.threads[th], |s.h.out|);
    }
  }

  lemma DeliveredPrefix(q: Queue, h: History, th: Thread, pc: Pc, k: nat)
    requires OrderOk(q, h, th, pc) && k < |h.linked|
    ensures SentBy(h.linked[1..k + 1], h.owner, q.value, th) <= h.called[th]
  {
    SentByPrefix(h.linked[1..], k, h.owner, q.value, th);
    assert h.linked[1..][..k] == h.linked[1..k + 1];
  }

  /**
   No lost wake-up. Whenever the loop thread is in, or on its way into, the wait and a task is pending, the eventfd
   is readable or some producer has its state check or its write still ahead of it.
   */
  lemma NoLostWakeUp(s: State)
    requires Reachable(s) && Committed(s.loop)
    ensures Chain(s.q, s.h)
    ensures Pending(s) != [] ==>
      s.eventfd > 0 || exists th :: th in s.threads && (s.threads[th].AddSize? || WillNotify(s, th))
  {
    ReachableInv(s);
    if Pending(s) != [] && s.q.size == 0 {
      var th :| th in Uncounted(s.threads);
      assert s.threads[th].AddSize?;
    }
  }

  /** The loop thread blocks for good only when everything ever enqueued has been handed to it. */
  lemma QuiescentMeansDrained(s: State)
    requires Reachable(s) && s.loop.Wait? && s.eventfd == 0
    requires forall th | th in s.threads :: s.threads[th] == Idle
    ensures Chain(s.q, s.h) && Pending(s) == [] && s.q.size == 0 && |s.h.out| == |s.h.linked| - 1
    ensures forall th | th in s.threads && th in s.h.called ::
      SentBy(s.h.linked[1..], s.h.owner, s.q.value, th) == s.h.called[th]
  {
    ReachableInv(s);
    NoLostWakeUp(s);
    assert Uncounted(s.threads) == {};
    forall th | th in s.threads && th in s.h.called
      ensures SentBy(s.h.linked[1..], s.h.owner, s.q.value, th) == s.h.called[th]
    {
      assert OrderOk(s.q, s.h, th, s.threads[th]);
    }
  }

  /**
   The flag, once set, stays set until the next `Start`; no step enters the wait while it is set; and testing it then
   leaves the loop.
   */
  lemma StopIsSticky(s: State, a: Action)
    requires s.stop && Enabled(s, a) && !(a.LoopAdvance? && s.loop.ClearStop?)
    ensures Do(s, a).stop
    ensures !s.loop.Wait? ==> !Do(s, a).loop.Wait?
    ensures s.loop.TestStop? && a.LoopAdvance? ==> Do(s, a).loop.EnterNothing?
  {
  }

  /**
   No lost stop, wherever the loop thread is. From a state with the flag set, and until the next `Start` clears it, the
   loop is never again at the wait unless it is there already; and then it has been, or is about to be, written to. So
   the next test of the flag comes without blocking, and leaves the loop.
   */
  lemma NoLostStop(s: State, actions: seq<Action>)
    requires Reachable(s) && s.stop && CanRun(s, actions) && NoneClears(s, actions)
    ensures var s' := Final(s, actions);
      && s'.stop
      && (s'.loop.Wait? ==> s.loop.Wait? && (s'.eventfd > 0 || exists th :: WillNotifyStop(s', th)))
      && (s'.loop.TestStop? && Enabled(s', LoopAdvance) ==> Do(s', LoopAdvance).loop.EnterNothing?)
  {
    StopRun(s, actions);
    ReachableInv(s);
    RunInv(s, actions);
    var s' := Final(s, actions);
    if s'.loop.TestStop? && Enabled(s', LoopAdvance) { StopIsSticky(s', LoopAdvance); }
  }

  /** No action of the run is the store with which `Start` clears the flag. */
  ghost predicate NoneClears(s: State, actions: seq<Action>)
    requires CanRun(s, actions)
    decreases |actions|
  {
    actions != [] ==>
      !(actions[0].LoopAdvance? && s.loop.ClearStop?) && NoneClears(Do(s, actions[0]), actions[1..])
  }

  lemma {:induction false} StopRun(s: State, actions: seq<Action>)
    requires s.stop && CanRun(s, actions) && NoneClears(s, actions)
    ensures var s' := Final(s, actions); s'.stop && (s'.loop.Wait? ==> s.loop.Wait?)
    decreases |actions|
  {
    hide Do;
    if actions != [] {
      StopIsSticky(s, actions[0]);
      StopRun(Do(s, actions[0]), actions[1..]);
    }
  }

  /** `th` is inside `Stop` and may still have to set the flag. */
  predicate Stopping(s: State, th: Thread) {
    th in s.threads && (s.threads[th].StopTest? || s.threads[th].StopStore?)
  }

  lemma {:induction false} StoppingRun(s: State, th: Thread, actions: seq<Action>)
    requires (s.stop || Stopping(s, th)) && CanRun(s, actions) && NoneClears(s, actions)
    ensures var s' := Final(s, actions); s'.stop || Stopping(s', th)
    decreases |actions|
  {
    hide Do;
    if actions != [] {
      StoppingStep(s, th, actions[0]);
      StoppingRun(Do(s, actions[0]), th, actions[1..]);
    }
  }

  lemma StoppingStep(s: State, th: Thread, a: Action)
    requires (s.stop || Stopping(s, th)) && Enabled(s, a) && !(a.LoopAdvance? && s.loop.ClearStop?)
    ensures Do(s, a).stop || Stopping(Do(s, a), th)
  {
  }

  lemma StopCalled(s: State, th: Thread)
    requires Enabled(s, CallStop(th))
    ensures Stopping(Do(s, CallStop(th)), th)
  {
  }

  /**
   `Stop`, from the call on. Along any run that follows a call, and until the next `Start` clears the flag: once the
   call has returned the flag is set. As soon as it is set, the loop is never at the wait without having been, or being
   about to be, written to, and its next test of the flag leaves the loop.
   */
  lemma StopTakesEffect(s: State, th: Thread, actions: seq<Action>)
    requires Reachable(s) && Enabled(s, CallStop(th))
    requires var s0 := Do(s, CallStop(th)); CanRun(s0, actions) && NoneClears(s0, actions)
    ensures var s' := Final(Do(s, CallStop(th)), actions);
      && (th in s'.threads && s'.threads[th].Idle? ==> s'.stop)
      && (s'.stop || Stopping(s', th))
      && (s'.stop && s'.loop.Wait? ==> s'.eventfd > 0 || exists t :: WillNotifyStop(s', t))
      && (s'.stop && s'.loop.TestStop? && Enabled(s', LoopAdvance) ==> Do(s', LoopAdvance).loop.EnterNothing?)
  {
    hide Do, Enabled, Reachable, QueueInv, FifoInv, CanRun, Final;
    var s0 := Do(s, CallStop(th));
    StopCalled(s, th);
    StoppingRun(s0, th, actions);
    ReachableInv(s);
    InvStep(s, CallStop(th));
    RunInv(s0, actions);
    var s' := Final(s0, actions);
    if s'.stop && s'.loop.TestStop? && Enabled(s', LoopAdvance) { StopIsSticky(s', LoopAdvance); }
  }
}
