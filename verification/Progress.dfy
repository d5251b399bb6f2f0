/**
 Progress of the event loop machine: what every thread and the loop thread get done when they run undisturbed, from
 any reachable state. No step of the machine can be left out without one of these results failing.
 */
module Progress {

  import opened EventLoop
  import opened Options

  // ---------------------------------------------------------------- one thread alone

  function Steps(a: Action, k: nat): (actions: seq<Action>)
    ensures |actions| == k
  {
    if k == 0 then [] else [a] + Steps(a, k - 1)
  }

  /** The node a thread inside `EnQueue` has still to link. */
  function ToLink(pc: Pc): seq<Node> {
    if pc.LoadTail? || pc.LoadNext? || pc.CheckTail? || pc.LinkCas? || pc.HelpTail? then [pc.node] else []
  }

  /** Whether the call that `pc` is inside of will write to the eventfd. */
  predicate Notifies(pc: Pc, mode: Mode, stop: bool) {
    match pc
    case Idle => false
    case WriteEvent | StopWriteEvent => true
    case StopTest => !stop && mode == EpollWait
    case StopStore | StopLoadMode => mode == EpollWait
    case _ => mode == EpollWait || mode == DoNothing
  }

  /** Where the tail is once the call has returned. */
  function TailAfter(pc: Pc, tail: Node): Node {
    if ToLink(pc) != [] || ((pc.AddSize? || pc.SwingTail?) && tail == pc.tail) then pc.node else tail
  }

  /** The call that `th` is inside of in `s` has returned in `s'`, with its whole effect and no other. */
  ghost predicate Returned(s: State, th: Thread, s': State)
    requires th in s.threads
  {
    var pc := s.threads[th];
    && s'.threads == s.threads[th := Idle]
    && s'.h.linked == s.h.linked + ToLink(pc) && s'.q.value == s.q.value && s'.h.owner == s.h.owner
    && s'.q.size == s.q.size + (if ToLink(pc) != [] || pc.AddSize? then 1 else 0)
    && s'.stop == (s.stop || pc.StopTest? || pc.StopStore?)
    && s'.eventfd == s.eventfd + (if Notifies(pc, s.mode, s.stop) then 1 else 0)
    && s'.q.tail == TailAfter(pc, s.q.tail)
    && s'.q.head == s.q.head && s'.h.popped == s.h.popped && s'.h.out == s.h.out && s'.h.called == s.h.called
    && s'.mode == s.mode && s'.loop == s.loop
  }

  /** The steps a thread alone has ahead of it, at most. A retry is needed only where its snapshot is out of date. */
  function Rank(q: Queue, pc: Pc): nat {
    match pc
    case Idle => 0
    case WriteEvent | StopWriteEvent => 1
    case LoadMode | StopLoadMode => 2
    case SwingTail(_, _) | StopStore => 3
    case AddSize(_, _) | StopTest => 4
    case LinkCas(_, t) => if Last(q, t) then 5 else 13
    case CheckTail(_, t, x) =>
      if q.tail != t then 13 else if x.Some? then 10 else if Last(q, t) then 6 else 14
    case LoadNext(_, t) => if q.tail != t then 14 else if Last(q, t) then 7 else 11
    case LoadTail(_) => if Last(q, q.tail) then 8 else 12
    case HelpTail(_, t, _) => if q.tail == t then 9 else 13
  }

  predicate Last(q: Queue, t: Node) {
    t in q.next && q.next[t].None?
  }

  /** Each step alone brings a thread closer to its return. */
  lemma RankDrops(s: State, th: Thread)
    requires Chain(s.q, s.h) && Enabled(s, Advance(th)) && ThreadOk(s.q, s.h, th, s.threads[th])
    ensures var s' := ThreadStep(s, th); Rank(s'.q, s'.threads[th]) < Rank(s.q, s.threads[th])
  {
    TailHasNoNext(s.q, s.h);
    if s.threads[th].HelpTail? && s.q.tail == s.threads[th].tail {
      HelpedTail(s.q, s.h, s.threads[th].tail, s.threads[th].next.value);
    }
    hide Chain;
    if InEnQueue(s.threads[th]) { EnQueueRank(s, th); } else { SignalRank(s, th); }
  }

  lemma EnQueueRank(s: State, th: Thread)
    requires Enabled(s, Advance(th)) && InEnQueue(s.threads[th]) && s.q.tail in s.q.next
    requires var pc := s.threads[th];
      && ((pc.LoadNext? || pc.CheckTail? || pc.LinkCas?) ==> pc.tail in s.q.next)
      && (pc.CheckTail? && pc.next.Some? ==> s.q.next[pc.tail] == pc.next)
      && (pc.HelpTail? && s.q.tail == pc.tail ==> Last(s.q, pc.next.value))
    ensures var s' := EnQueueStep(s, th); Rank(s'.q, s'.threads[th]) < Rank(s.q, s.threads[th])
  {
  }

  lemma SignalRank(s: State, th: Thread)
    requires Enabled(s, Advance(th)) && !InEnQueue(s.threads[th])
    ensures var s' := SignalStep(s, th); Rank(s'.q, s'.threads[th]) < Rank(s.q, s.threads[th])
  {
  }

  /** The successor of a tail that lags is the last node. */
  lemma HelpedTail(q: Queue, h: History, t: Node, x: Node)
    requires Chain(q, h) && q.tail == t && q.next[t] == Some(x)
    ensures Last(q, x)
  {
    TailHasNoNext(q, h);
  }

  /** A node without successor that was the tail is the tail. */
  lemma LastIsTail(q: Queue, h: History, t: Node)
    requires Chain(q, h) && WasTail(h, t) && Last(q, t)
    ensures q.tail == t
  {
    var k :| 0 <= k <= h.tailAt && h.linked[k] == t;
    Successor(q, h, k);
  }

  lemma Successor(q: Queue, h: History, k: nat)
    requires Chain(q, h) && k < |h.linked|
    ensures Last(q, h.linked[k]) <==> k == |h.linked| - 1
  {
    assert h.linked[k] in q.next;
    if k + 1 < |h.linked| { assert q.next[h.linked[k]] == Some(h.linked[k + 1]); }
  }

  lemma ReturnedStep(s: State, th: Thread, s': State)
    requires Enabled(s, Advance(th)) && Returned(ThreadStep(s, th), th, s')
    requires Chain(s.q, s.h) && ThreadOk(s.q, s.h, th, s.threads[th])
    ensures Returned(s, th, s')
  {
    var pc := s.threads[th];
    if pc.LinkCas? && Last(s.q, pc.tail) { LastIsTail(s.q, s.h, pc.tail); }
    hide Chain, ThreadOk;
    if InEnQueue(pc) { ReturnedEnQueue(s, th, s'); } else { ReturnedSignal(s, th, s'); }
  }

  lemma ReturnedEnQueue(s: State, th: Thread, s': State)
    requires Enabled(s, Advance(th)) && InEnQueue(s.threads[th]) && Returned(EnQueueStep(s, th), th, s')
    requires var pc := s.threads[th]; pc.LinkCas? && Last(s.q, pc.tail) ==> s.q.tail == pc.tail
    ensures Returned(s, th, s')
  {
    assert s'.threads == s.threads[th := Idle];
  }

  lemma ReturnedSignal(s: State, th: Thread, s': State)
    requires Enabled(s, Advance(th)) && !InEnQueue(s.threads[th]) && Returned(SignalStep(s, th), th, s')
    ensures Returned(s, th, s')
  {
    var s1 := SignalStep(s, th);
    assert s1 == s.(stop := s1.stop, eventfd := s1.eventfd, threads := s.threads[th := s1.threads[th]]);
    assert s'.threads == s.threads[th := Idle];
  }

  lemma {:induction false} FinishesFrom(s: State, th: Thread) returns (k: nat)
    requires Inv(s) && MayAct(s, th)
    ensures k <= Rank(s.q, s.threads[th]) && CanRun(s, Steps(Advance(th), k))
    ensures Returned(s, th, Final(s, Steps(Advance(th), k)))
    decreases Rank(s.q, s.threads[th])
  {
    hide Inv, Returned, Rank, ThreadStep, Chain, ThreadOk;
    if s.threads[th] == Idle {
      k := 0;
      AlreadyBack(s, th);
    } else {
      MayStep(s, th);
      InvStep(s, Advance(th));
      var s1 := Do(s, Advance(th));
      StaysThere(s, th);
      k := FinishesFrom(s1, th);
      ReturnedStep(s, th, Final(s1, Steps(Advance(th), k)));
      k := k + 1;
      var actions := Steps(Advance(th), k);
      assert actions[0] == Advance(th) && actions[1..] == Steps(Advance(th), k - 1);
    }
  }

  lemma AlreadyBack(s: State, th: Thread)
    requires th in s.threads && s.threads[th] == Idle
    ensures Returned(s, th, s)
  {
    assert s.threads[th := Idle] == s.threads;
  }

  lemma MayStep(s: State, th: Thread)
    requires Inv(s) && MayAct(s, th) && s.threads[th] != Idle
    ensures Enabled(s, Advance(th)) && Chain(s.q, s.h) && ThreadOk(s.q, s.h, th, s.threads[th])
    ensures Rank(ThreadStep(s, th).q, ThreadStep(s, th).threads[th]) < Rank(s.q, s.threads[th])
  {
    assert ThreadOk(s.q, s.h, th, s.threads[th]);
    hide LoopOk, ThreadsOk, OrderOk, OutOk;
    RankDrops(s, th);
  }

  lemma StaysThere(s: State, th: Thread)
    requires Enabled(s, Advance(th))
    ensures MayAct(ThreadStep(s, th), th) && Do(s, Advance(th)) == ThreadStep(s, th)
  {
  }

  /**
   From every reachable state a thread that runs alone returns from its call within fourteen steps, whatever the other
   threads have left half done, and the call has had exactly its effect.
   */
  lemma FinishesAlone(s: State, th: Thread) returns (k: nat)
    requires Reachable(s) && MayAct(s, th)
    ensures k <= 14 && CanRun(s, Steps(Advance(th), k))
    ensures Returned(s, th, Final(s, Steps(Advance(th), k)))
  {
    hide Reachable, Inv, CanRun, Final, Returned;
    ReachableInv(s);
    k := FinishesFrom(s, th);
  }

  /** A whole call of `EnQueue` with its notification, undisturbed, in any reachable state. */
  lemma EnQueueAlone(s: State, th: Thread, node: Node, task: Task) returns (actions: seq<Action>)
    requires Reachable(s) && Enabled(s, CallEnQueue(th, node, task))
    ensures CanRun(s, actions) && Chain(s.q, s.h)
    ensures var s' := Final(s, actions);
      && Chain(s'.q, s'.h) && Pending(s') == Pending(s) + [task] && s'.q.size == s.q.size + 1 && s'.q.tail == node
      && s'.eventfd == s.eventfd + (if s.mode == EpollWait || s.mode == DoNothing then 1 else 0)
      && s'.threads == s.threads && s'.stop == s.stop && s'.mode == s.mode && s'.loop == s.loop
  {
    hide Reachable, Inv, CanRun, Final;
    var s1 := Do(s, CallEnQueue(th, node, task));
    ReachableInv(s);
    InvStep(s, CallEnQueue(th, node, task));
    var k := FinishesFrom(s1, th);
    var s' := Final(s1, Steps(Advance(th), k));
    RunInv(s1, Steps(Advance(th), k));
    actions := FirstThen(s, CallEnQueue(th, node, task), Steps(Advance(th), k));
    NodeIsNew(s, th, node, task);
    InvParts(s');
    Appended(s, s', node, task);
    assert s'.threads == s.threads;
  }

  lemma FirstThen(s: State, a: Action, rest: seq<Action>) returns (actions: seq<Action>)
    requires Enabled(s, a) && CanRun(Do(s, a), rest)
    ensures CanRun(s, actions) && Final(s, actions) == Final(Do(s, a), rest)
  {
    hide Do, Enabled;
    actions := [a] + rest;
    assert actions[1..] == rest;
  }

  lemma NodeIsNew(s: State, th: Thread, node: Node, task: Task)
    requires Inv(s) && Enabled(s, CallEnQueue(th, node, task))
    ensures Chain(s.q, s.h) && node !in s.h.linked
  {
  }

  lemma Appended(s: State, s': State, node: Node, task: Task)
    requires Chain(s.q, s.h) && Chain(s'.q, s'.h) && node !in s.h.linked
    requires s'.h.linked == s.h.linked + [node] && s'.h.popped == s.h.popped && s'.q.value == s.q.value[node := task]
    ensures Pending(s') == Pending(s) + [task]
  {
    var now, was := Pending(s'), Pending(s);
    var k, n := s.h.popped + 1, |s.h.linked|;
    hide Chain;
    forall i | 0 <= i < |now| ensures now[i] == (was + [task])[i] {
      assert s'.h.linked[k..][i] == s'.h.linked[k + i];
      if k + i < n { assert s'.h.linked[k + i] == s.h.linked[k + i] == s.h.linked[k..][i]; }
    }
  }

  /** A whole call of `Stop`, undisturbed, in any reachable state. */
  lemma StopAlone(s: State, th: Thread) returns (actions: seq<Action>)
    requires Reachable(s) && Enabled(s, CallStop(th))
    ensures CanRun(s, actions)
    ensures var s' := Final(s, actions);
      && s'.stop && s'.eventfd == s.eventfd + (if !s.stop && s.mode == EpollWait then 1 else 0)
      && s'.threads == s.threads && s'.q.size == s.q.size && s'.h.linked == s.h.linked
      && s'.mode == s.mode && s'.loop == s.loop
  {
    hide Reachable, Inv, CanRun, Final;
    ReachableInv(s);
    InvStep(s, CallStop(th));
    var k := FinishesFrom(Do(s, CallStop(th)), th);
    actions := FirstThen(s, CallStop(th), Steps(Advance(th), k));
    assert Final(s, actions).threads == s.threads;
  }

  // ---------------------------------------------------------------- the loop thread alone

  /** What the loop thread does next when no callback calls anything. */
  function LoopAction(s: State): Action {
    if s.loop.RunFds? && s.loop.ready then ReadEventFd else LoopAdvance
  }

  /** The loop thread waits, or has left. */
  predicate AtRest(l: LoopPc) {
    l.Wait? || l.Off?
  }

  /** The loop thread still has the drain loop ahead of it, or is in it. */
  predicate Drains(l: LoopPc) {
    l.EnterActive? || l.RunFds? || l.EnterExtra? || l.DrainTest? || l.RunTask? || InDequeue(l)
  }

  /** The loop leaves before it waits again. */
  predicate Leaves(l: LoopPc, stop: bool) {
    l.Off? || l.EnterNothing? || l.Sweep? || (stop && !l.ClearStop? && !l.Wait?)
  }

  /** Where the loop thread takes the eventfd to by itself. */
  function EventAfter(l: LoopPc, size: nat, eventfd: nat): nat {
    match l
    case EnterActive(ready) => if ready then 0 else eventfd
    case RunFds(ready) => if ready then 0 else eventfd
    case LeaveExtra | CheckEmpty => if size != 0 then eventfd + 1 else eventfd
    case SelfNotify => eventfd + 1
    case _ => eventfd
  }

  /** The loop thread, undisturbed from `s` on, has come to rest in `s'`. */
  ghost predicate Settled(s: State, s': State) {
    && s'.loop == (if Leaves(s.loop, s.stop) then Off else Wait)
    && s'.stop == (s.stop && !s.loop.ClearStop?) && s'.threads == s.threads
    && s'.eventfd == EventAfter(s.loop, s.q.size, s.eventfd)
    && s'.q.size == (if Drains(s.loop) then 0 else s.q.size)
    && s.h.out <= s'.h.out && |s'.h.out| == |s.h.out| + (if Drains(s.loop) then s.q.size else 0)
    && s'.h.linked == s.h.linked && s'.q.value == s.q.value
    && s'.h.owner == s.h.owner && s'.h.called == s.h.called
  }

  /** The steps to rest, at most: twenty for every counted task, and a round. */
  function LoopRank(q: Queue, l: LoopPc): int {
    match l
    case Off | Wait => 0
    case Sweep => 1
    case EnterNothing => 2
    case TestStop => 3
    case SelfNotify | EnterWait => 4
    case CheckEmpty | ClearStop => 5
    case LeaveExtra => 6
    case DrainTest => 20 * q.size + 7
    case RunTask(_) => 20 * q.size + 8
    case EnterExtra => 20 * q.size + 9
    case RunFds(ready) => 20 * q.size + if ready then 11 else 10
    case EnterActive(_) => 20 * q.size + 12
    case DqSize(_) => 20 * (q.size - 1) + 9
    case DqCas(_, _) => 20 * (q.size - 1) + 10
    case DqCompare(_, _, t) => 20 * (q.size - 1) + if t == q.head then 17 else 11
    case DqCheck(_, _, t) => 20 * (q.size - 1) + if t == q.head then 18 else 12
    case DqTail(_, _) => 20 * (q.size - 1) + if q.tail == q.head then 19 else 13
    case DqNext(_) => 20 * (q.size - 1) + if q.tail == q.head then 20 else 14
    case DqHead => 20 * (q.size - 1) + if q.tail == q.head then 21 else 15
    case DqHelp(_, _) => 20 * (q.size - 1) + 16
  }

  lemma LoopMay(s: State)
    requires Inv(s) && LoopFree(s) && !AtRest(s.loop)
    ensures Enabled(s, LoopAction(s)) && Chain(s.q, s.h) && LoopOk(s.q, s.h, s.loop)
  {
    if s.loop.DqSize? { assert s.h.linked[s.h.popped] in s.h.owner; }
    if s.loop.DqNext? { assert s.h.linked[s.h.popped] in s.q.next; }
  }

  lemma LoopRankDrops(s: State)
    requires Chain(s.q, s.h) && LoopOk(s.q, s.h, s.loop) && Enabled(s, LoopAction(s)) && !AtRest(s.loop)
    ensures var s' := Do(s, LoopAction(s)); 0 <= LoopRank(s'.q, s'.loop) < LoopRank(s.q, s.loop)
  {
    if InDequeue(s.loop) {
      if s.loop.DqHelp? { HeadMoves(s.q, s.h, s.loop.next.value); }
      SnapshotCurrent(s);
      DequeueRank(s);
    } else {
      OutsideRank(s);
    }
  }

  lemma SnapshotCurrent(s: State)
    requires Chain(s.q, s.h) && LoopOk(s.q, s.h, s.loop) && InDequeue(s.loop)
    ensures s.q.size >= 1 && HeadKnown(s.q, s.loop)
  {
  }

  /** The snapshots that the loop thread holds inside `Dequeue` lead to the swap of the head. */
  predicate HeadKnown(q: Queue, l: LoopPc) {
    match l
    case DqCheck(p, _, _) => p == q.head
    case DqTail(_, x) => x.Some?
    case DqCompare(_, x, _) => x.Some?
    case DqCas(p, _) => p == q.head
    case _ => true
  }

  lemma DequeueRank(s: State)
    requires Enabled(s, LoopAdvance) && InDequeue(s.loop) && s.q.size >= 1 && HeadKnown(s.q, s.loop)
    requires s.loop.DqHelp? ==> s.loop.tail == s.q.head != s.loop.next.value
    ensures var s' := DequeueStep(s); 0 <= LoopRank(s'.q, s'.loop) < LoopRank(s.q, s.loop)
  {
  }

  lemma OutsideRank(s: State)
    requires Enabled(s, LoopAction(s)) && !InDequeue(s.loop) && !AtRest(s.loop)
    ensures var s' := Do(s, LoopAction(s)); 0 <= LoopRank(s'.q, s'.loop) < LoopRank(s.q, s.loop)
  {
    hide DequeueStep, ThreadStep;
  }

  /** The successor of the head is another node. */
  lemma HeadMoves(q: Queue, h: History, x: Node)
    requires Chain(q, h) && q.next[q.head] == Some(x)
    ensures x != q.head
  {
    var k := h.popped;
    Successor(q, h, k);
    assert q.next[h.linked[k]] == Some(h.linked[k + 1]);
  }

  lemma SettledStep(s: State, s': State)
    requires Enabled(s, LoopAction(s)) && !AtRest(s.loop) && Settled(Do(s, LoopAction(s)), s')
    requires Chain(s.q, s.h) && LoopOk(s.q, s.h, s.loop)
    ensures Settled(s, s')
  {
    if InDequeue(s.loop) {
      SnapshotCurrent(s);
      SettledDequeue(s, s');
    } else {
      SettledOutside(s, s');
    }
  }

  lemma SettledDequeue(s: State, s': State)
    requires Enabled(s, LoopAdvance) && InDequeue(s.loop) && Settled(DequeueStep(s), s')
    requires s.q.size >= 1 && HeadKnown(s.q, s.loop)
    ensures Settled(s, s')
  {
    if s.loop.DqSize? {
      assert DequeueStep(s).h.out == s.h.out + [Some(s.q.value[s.loop.next.value])];
    } else {
      assert InDequeue(DequeueStep(s).loop) && DequeueStep(s).q.size == s.q.size;
    }
  }

  lemma SettledOutside(s: State, s': State)
    requires Enabled(s, LoopAction(s)) && !InDequeue(s.loop) && !AtRest(s.loop) && Settled(Do(s, LoopAction(s)), s')
    ensures Settled(s, s')
  {
    if s.loop.RunFds? && s.loop.ready {
      assert Do(s, LoopAction(s)) == s.(eventfd := 0, loop := RunFds(false));
    } else if Drains(s.loop) {
      SettledRound(s, s');
    } else {
      SettledRest(s, s');
    }
  }

  lemma SettledRound(s: State, s': State)
    requires Enabled(s, LoopAdvance) && !InDequeue(s.loop) && Drains(s.loop) && Settled(OutsideStep(s), s')
    requires s.loop.RunFds? ==> !s.loop.ready
    ensures Settled(s, s')
  {
  }

  lemma SettledRest(s: State, s': State)
    requires Enabled(s, LoopAdvance) && !Drains(s.loop) && !AtRest(s.loop) && Settled(OutsideStep(s), s')
    ensures Settled(s, s')
  {
    RestStep(s);
    hide OutsideStep, Drains, Leaves, EventAfter;
  }

  /** Outside the round only the flag, the state word and the eventfd change. */
  lemma RestStep(s: State)
    requires Enabled(s, LoopAdvance) && !Drains(s.loop) && !AtRest(s.loop) && !InDequeue(s.loop)
    ensures var s1 := OutsideStep(s);
      && s1 == s.(stop := s.stop && !s.loop.ClearStop?, mode := s1.mode, eventfd := s1.eventfd, loop := s1.loop)
      && !Drains(s1.loop) && !s1.loop.ClearStop? && Leaves(s1.loop, s1.stop) == Leaves(s.loop, s.stop)
      && EventAfter(s1.loop, s1.q.size, s1.eventfd) == EventAfter(s.loop, s.q.size, s.eventfd)
  {
  }

  /** Steps of the loop thread by itself. */
  predicate OwnSteps(actions: seq<Action>) {
    forall a | a in actions :: a == LoopAdvance || a == ReadEventFd
  }

  lemma {:induction false} LoopSettlesFrom(s: State) returns (actions: seq<Action>)
    requires Inv(s) && LoopFree(s)
    ensures OwnSteps(actions) && CanRun(s, actions) && Settled(s, Final(s, actions)) && Inv(Final(s, actions))
    decreases LoopRank(s.q, s.loop)
  {
    hide Inv, Settled, LoopRank, Do, Enabled, Chain, LoopOk;
    if AtRest(s.loop) {
      actions := [];
      AlreadySettled(s);
    } else {
      var a := LoopAction(s);
      LoopMay(s);
      LoopRankDrops(s);
      InvStep(s, a);
      StaysFree(s);
      var rest := LoopSettlesFrom(Do(s, a));
      SettledStep(s, Final(Do(s, a), rest));
      actions := [a] + rest;
      assert actions[1..] == rest;
    }
  }

  lemma AlreadySettled(s: State)
    requires AtRest(s.loop)
    ensures Settled(s, s)
  {
  }

  lemma StaysFree(s: State)
    requires Enabled(s, LoopAction(s)) && LoopFree(s)
    ensures LoopFree(Do(s, LoopAction(s)))
  {
  }

  /**
   From every reachable state the loop thread, if no callback of its own is in the middle of a call and nothing disturbs
   it, comes to rest: it leaves if the flag was set, else it waits. On the way it takes every task that has been
   counted, and the eventfd is left readable only where tasks were counted behind the drain loop.
   */
  lemma LoopSettles(s: State) returns (actions: seq<Action>)
    requires Reachable(s) && LoopFree(s)
    ensures OwnSteps(actions) && CanRun(s, actions) && Settled(s, Final(s, actions))
  {
    hide Reachable, Inv, CanRun, Final, Settled;
    ReachableInv(s);
    actions := LoopSettlesFrom(s);
  }

  /** A wait that times out changes nothing: the loop tests the flag and waits again. */
  lemma TimeoutIsIdle(s: State)
    requires s.loop.Wait? && !s.stop
    ensures CanRun(s, [EpollNothing, LoopAdvance]) && Final(s, [EpollNothing, LoopAdvance]) == s
  {
    assert [EpollNothing, LoopAdvance][1..] == [LoopAdvance] && [LoopAdvance][1..] == [];
    assert Do(s, EpollNothing) == s.(loop := TestStop);
  }

  /** The loop thread is the only consumer, so inside `Dequeue` it never finds the head moved, and its swap succeeds. */
  lemma ConsumerNeverRetries(s: State)
    requires Reachable(s)
    ensures s.loop.DqCheck? || s.loop.DqCompare? || s.loop.DqCas? ==> s.q.head == s.loop.head
    ensures s.loop.DqCas? ==> s.loop.next.Some? && s.loop.next.value != s.q.head
  {
    ReachableInv(s);
    assert LoopOk(s.q, s.h, s.loop);
    if s.loop.DqCas? { HeadMoves(s.q, s.h, s.loop.next.value); }
  }

  /**
   Foreign code runs while the loop is off, between the end of the wait and the drain loop, between two tasks, and in
   the sweep, through which alone the loop ends. The eventfd is read before the drain loop if it woke the loop up.
   */
  lemma ForeignCode(s: State, a: Action)
    requires Enabled(s, a) && LOOP in s.threads
    ensures MayAct(s, LOOP) <==> s.loop.Off? || s.loop.RunFds? || s.loop.RunTask? || s.loop.Sweep?
    ensures Do(s, a).loop.Off? && !s.loop.Off? ==> s.loop.Sweep? && s.threads[LOOP] == Idle
    ensures Do(s, a).loop.EnterExtra? && !s.loop.EnterExtra? ==> s.loop == RunFds(false) && s.threads[LOOP] == Idle
    ensures s.loop == RunFds(true) && Do(s, a).loop != s.loop ==>
      Do(s, a).loop == RunFds(false) && Do(s, a).eventfd == 0
  {
  }

  // ---------------------------------------------------------------- everything can be delivered

  lemma {:induction false} RunAppend(s: State, first: seq<Action>, second: seq<Action>)
    requires CanRun(s, first) && CanRun(Final(s, first), second)
    ensures CanRun(s, first + second) && Final(s, first + second) == Final(Final(s, first), second)
    decreases |first|
  {
    hide Do, Enabled;
    if first == [] {
      assert first + second == second;
    } else {
      assert (first + second)[0] == first[0] && (first + second)[1..] == first[1..] + second;
      RunAppend(Do(s, first[0]), first[1..], second);
    }
  }

  /** Nobody calls anything new. */
  predicate NoCalls(actions: seq<Action>) {
    forall a | a in actions :: !a.CallEnQueue? && !a.CallStop?
  }

  predicate AllIdle(s: State) {
    forall th | th in s.threads :: s.threads[th] == Idle
  }

  /** The loop thread is inside a call only where it runs foreign code. */
  predicate LoopHome(s: State) {
    LOOP in s.threads && (s.threads[LOOP] != Idle ==> RunsCallback(s.loop))
  }

  lemma LoopHomeStep(s: State, a: Action)
    requires LoopHome(s) && Enabled(s, a)
    ensures LoopHome(Do(s, a))
  {
  }

  lemma {:induction false} LoopHomeRun(s: State, actions: seq<Action>)
    requires LoopHome(s) && CanRun(s, actions)
    ensures LoopHome(Final(s, actions))
    decreases |actions|
  {
    hide Do, LoopHome, Enabled;
    if actions != [] {
      LoopHomeStep(s, actions[0]);
      LoopHomeRun(Do(s, actions[0]), actions[1..]);
    }
  }

  lemma ReachableHome(s: State)
    requires Reachable(s)
    ensures LoopHome(s)
  {
    var s0, actions :| Init(s0) && CanRun(s0, actions) && Final(s0, actions) == s;
    LoopHomeRun(s0, actions);
  }

  function Busy(threads: map<Thread, Pc>): set<Thread> {
    set th | th in threads && threads[th] != Idle
  }

  /** All threads return from their calls, one after the other. */
  lemma {:induction false} AllReturn(s: State) returns (actions: seq<Action>)
    requires Inv(s) && LoopHome(s)
    ensures NoCalls(actions) && CanRun(s, actions)
    ensures var s' := Final(s, actions); Inv(s') && AllIdle(s') && LoopFree(s') && s'.h.called == s.h.called
    decreases |Busy(s.threads)|
  {
    hide Inv, Returned;
    if th :| th in Busy(s.threads) {
      var k := FinishesFrom(s, th);
      var first := Steps(Advance(th), k);
      var s1 := Final(s, first);
      StepsOnly(Advance(th), k);
      RunInv(s, first);
      LessBusy(s, th, s1);
      var rest := AllReturn(s1);
      RunAppend(s, first, rest);
      actions := first + rest;
    } else {
      actions := [];
      assert forall th | th in s.threads :: th !in Busy(s.threads);
    }
  }

  lemma {:induction false} StepsOnly(a: Action, k: nat)
    ensures forall b | b in Steps(a, k) :: b == a
  {
    if k > 0 { StepsOnly(a, k - 1); }
  }

  lemma LessBusy(s: State, th: Thread, s': State)
    requires LoopHome(s) && th in Busy(s.threads) && Returned(s, th, s')
    ensures |Busy(s'.threads)| < |Busy(s.threads)| && LoopHome(s') && s'.h.called == s.h.called
  {
    assert Busy(s'.threads) == Busy(s.threads) - {th};
  }

  /**
   With all threads idle, the counter is exact, and a committed loop thread with tasks pending has been written to.
   */
  lemma CounterExact(s: State)
    requires Inv(s) && AllIdle(s)
    ensures Chain(s.q, s.h) && (!s.loop.DqSize? ==> s.q.size == |Pending(s)|)
    ensures Committed(s.loop) && s.q.size > 0 ==> s.eventfd > 0
  {
    assert Uncounted(s.threads) == {};
  }

  /** The loop thread waits, is woken up by the eventfd, and goes once round. */
  lemma WokenUp(s: State) returns (actions: seq<Action>)
    requires Inv(s) && LoopFree(s) && s.loop.Wait? && s.eventfd > 0
    ensures NoCalls(actions) && CanRun(s, actions) && Inv(Final(s, actions))
    ensures var s' := Final(s, actions);
      && AtRest(s'.loop) && s'.q.size == 0 && s'.eventfd == 0 && s'.threads == s.threads && s'.h.called == s.h.called
  {
    hide Inv, LoopRank, Chain, LoopOk;
    var a := EpollEvents(true);
    InvStep(s, a);
    var rest := LoopSettlesFrom(Do(s, a));
    actions := [a] + rest;
    assert actions[1..] == rest;
  }

  lemma Started(s: State) returns (actions: seq<Action>)
    requires Inv(s) && LoopFree(s) && s.loop.Off?
    ensures NoCalls(actions) && CanRun(s, actions) && Inv(Final(s, actions))
    ensures var s' := Final(s, actions);
      && s'.loop.Wait? && !s'.stop && s'.eventfd == s.eventfd && s'.threads == s.threads && s'.h.called == s.h.called
  {
    hide Inv, LoopRank, Chain, LoopOk;
    InvStep(s, CallStart);
    var rest := LoopSettlesFrom(Do(s, CallStart));
    actions := [CallStart] + rest;
    assert actions[1..] == rest;
  }

  /** From a loop at the wait, with all threads idle, to nothing pending. */
  lemma Emptied(s: State) returns (actions: seq<Action>)
    requires Inv(s) && AllIdle(s) && LoopFree(s) && s.loop.Wait?
    ensures NoCalls(actions) && CanRun(s, actions) && Inv(Final(s, actions))
    ensures var s' := Final(s, actions);
      AllIdle(s') && AtRest(s'.loop) && s'.q.size == 0 && s'.eventfd == 0 && s'.h.called == s.h.called
  {
    hide Inv;
    CounterExact(s);
    if s.eventfd > 0 {
      actions := WokenUp(s);
    } else {
      actions := [];
    }
  }

  lemma AllTaken(s: State)
    requires Inv(s) && AllIdle(s) && AtRest(s.loop) && s.q.size == 0
    ensures Chain(s.q, s.h) && Pending(s) == [] && |s.h.out| == |s.h.linked| - 1
    ensures forall th | th in s.threads && th in s.h.called ::
      SentBy(s.h.linked[1..], s.h.owner, s.q.value, th) == s.h.called[th]
  {
    CounterExact(s);
    forall th | th in s.threads && th in s.h.called
      ensures SentBy(s.h.linked[1..], s.h.owner, s.q.value, th) == s.h.called[th]
    {
      assert OrderOk(s.q, s.h, th, s.threads[th]);
    }
  }

  /** The loop comes to rest, is started if it has left, and empties the queue. */
  lemma RestAndEmpty(s: State) returns (actions: seq<Action>)
    requires Inv(s) && AllIdle(s) && LoopFree(s)
    ensures NoCalls(actions) && CanRun(s, actions) && Inv(Final(s, actions))
    ensures var s' := Final(s, actions);
      AllIdle(s') && AtRest(s'.loop) && s'.q.size == 0 && s'.eventfd == 0 && s'.h.called == s.h.called
  {
    hide Inv, CanRun, Final, LoopRank, Chain, LoopOk;
    actions := LoopSettlesFrom(s);
    var s1 := Final(s, actions);
    if s1.loop.Off? {
      var start := Started(s1);
      RunAppend(s, actions, start);
      actions := actions + start;
    }
    var s2 := Final(s, actions);
    var last := Emptied(s2);
    RunAppend(s, actions, last);
    actions := actions + last;
  }

  /**
   No deadlock: from every reachable state, without any new call, the threads can return from theirs and the loop,
   started again if it has left, can deliver every task ever passed to `EnQueue`, to each thread's own order, woken up
   by nothing but the eventfd. Then the eventfd is zero, and the loop thread waits or has left.
   */
  lemma EverythingCanBeDelivered(s: State) returns (actions: seq<Action>)
    requires Reachable(s)
    ensures NoCalls(actions) && CanRun(s, actions)
    ensures var s' := Final(s, actions);
      && AllIdle(s') && AtRest(s'.loop) && s'.eventfd == 0 && s'.h.called == s.h.called
      && Chain(s'.q, s'.h) && Pending(s') == [] && |s'.h.out| == |s'.h.linked| - 1
      && forall th | th in s'.threads && th in s'.h.called ::
           SentBy(s'.h.linked[1..], s'.h.owner, s'.q.value, th) == s'.h.called[th]
  {
    hide Reachable, Inv, CanRun, Final;
    ReachableInv(s);
    ReachableHome(s);
    var first := AllReturn(s);
    var rest := RestAndEmpty(Final(s, first));
    RunAppend(s, first, rest);
    actions := first + rest;
    AllTaken(Final(s, actions));
  }
}
