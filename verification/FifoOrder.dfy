/** The sleep queue as one first-in first-out queue per resource, and the ready list as one
    first-in first-out queue, step by step and over whole runs. */
module FifoOrder {
  import opened Collections
  import opened Threads
  import opened Kernel
  import opened KernelInvariant
  import opened KernelSteps
  import opened KernelRuns

  /** The waiters for r, oldest first. */
  function QueueOf(waiting: seq<Tid>, sleepsOn: seq<nat>, r: nat): seq<Tid> {
    if waiting == [] then []
    else (if waiting[0] < |sleepsOn| && sleepsOn[waiting[0]] == r then [waiting[0]] else [])
         + QueueOf(waiting[1..], sleepsOn, r)
  }

  lemma {:induction false} QueueOfAppend(a: seq<Tid>, b: seq<Tid>, sleepsOn: seq<nat>, r: nat)
    ensures QueueOf(a + b, sleepsOn, r) == QueueOf(a, sleepsOn, r) + QueueOf(b, sleepsOn, r)
  {
    if a == [] {
      assert a + b == b;
    } else {
      assert (a + b)[1..] == a[1..] + b;
      QueueOfAppend(a[1..], b, sleepsOn, r);
    }
  }

  lemma {:induction false} QueueOfSame(waiting: seq<Tid>, s: seq<nat>, s': seq<nat>, r: nat)
    requires |s| == |s'|
    requires forall t :: t in waiting && t < |s| ==> (s[t] == r <==> s'[t] == r)
    ensures QueueOf(waiting, s, r) == QueueOf(waiting, s', r)
  {
    if waiting != [] {
      assert waiting[0] in waiting;
      QueueOfSame(waiting[1..], s, s', r);
    }
  }

  lemma {:induction false} QueueOfMembers(waiting: seq<Tid>, s: seq<nat>, r: nat)
    ensures forall t :: t in QueueOf(waiting, s, r) <==> t in waiting && t < |s| && s[t] == r
    ensures |QueueOf(waiting, s, r)| <= |waiting|
  {
    if waiting != [] {
      QueueOfMembers(waiting[1..], s, r);
      assert forall t :: t in waiting <==> t == waiting[0] || t in waiting[1..];
    }
  }

  lemma {:induction false} QueueOfNoDuplicates(waiting: seq<Tid>, s: seq<nat>, r: nat)
    requires NoDuplicates(waiting)
    ensures NoDuplicates(QueueOf(waiting, s, r))
  {
    if waiting != [] {
      TailMembers(waiting);
      QueueOfNoDuplicates(waiting[1..], s, r);
      QueueOfMembers(waiting[1..], s, r);
    }
  }

  /** The first waiter the chain search finds is the oldest one. */
  lemma {:induction false} FirstWaiterIsOldest(waiting: seq<Tid>, s: seq<nat>, r: nat)
    ensures var i := FirstWaiter(waiting, s, r);
            && (i == |waiting| <==> QueueOf(waiting, s, r) == [])
            && (i < |waiting| ==> QueueOf(waiting, s, r) == [waiting[i]] + QueueOf(RemoveAt(waiting, i), s, r))
  {
    hide RemoveAt;
    var i := FirstWaiter(waiting, s, r);
    if waiting != [] {
      if i == 0 {
        RemoveFirst(waiting);
      } else {
        FirstWaiterIsOldest(waiting[1..], s, r);
        if i < |waiting| {
          RemoveAtTail(waiting, i);
        }
      }
    }
  }

  /** Taking a thread out leaves the queues of the resources it does not wait for alone. */
  lemma {:induction false} RemoveOther(waiting: seq<Tid>, s: seq<nat>, i: nat, q: nat)
    requires i < |waiting| && waiting[i] < |s| && s[waiting[i]] != q
    ensures QueueOf(RemoveAt(waiting, i), s, q) == QueueOf(waiting, s, q)
  {
    hide RemoveAt;
    if i == 0 {
      RemoveFirst(waiting);
    } else {
      RemoveAtTail(waiting, i);
      RemoveOther(waiting[1..], s, i - 1, q);
    }
  }

  /** sleepq_add appends its thread to the queue of its resource, and to no other. */
  lemma AddedLast(s: Sys, t: Tid, r: nat, q: nat)
    requires t < |s.sleepsOn| && t !in s.waiting
    ensures var n := Link(Threads.Prepare(s, t, r), t);
            QueueOf(n.waiting, n.sleepsOn, q) == QueueOf(s.waiting, s.sleepsOn, q) + if q == r then [t] else []
  {
    var n := Link(Threads.Prepare(s, t, r), t);
    QueueOfAppend(s.waiting, [t], n.sleepsOn, q);
    QueueOfSame(s.waiting, s.sleepsOn, n.sleepsOn, q);
    assert [t][1..] == [];
  }

  ghost predicate WaitersOk(s: Sys) {
    |s.sleepsOn| == |s.state| && NoDuplicates(s.waiting) && forall t :: t in s.waiting ==> t < |s.state|
  }

  /** sleepq_wake takes the oldest waiter of its resource and leaves every other queue alone. */
  lemma OldestWoken(s: Sys, r: nat, q: nat)
    requires WaitersOk(s) && q != 0
    ensures WaitersOk(Wake(s, r))
    ensures var n, queue := Wake(s, r), QueueOf(s.waiting, s.sleepsOn, r);
            && QueueOf(n.waiting, n.sleepsOn, q)
               == (if q == r && queue != [] then queue[1..] else QueueOf(s.waiting, s.sleepsOn, q))
            && (queue == [] ==> n == s)
            && (queue != [] ==>
                  && queue[0] < |s.state| && n.sleepsOn == s.sleepsOn[queue[0] := 0] && n.current == s.current
                  && if s.state[queue[0]] == SLEEPING
                     then n.state == s.state[queue[0] := READY] && n.ready == s.ready + [queue[0]]
                     else n.state == s.state && n.ready == s.ready)
  {
    hide RemoveAt, NoDuplicates;
    var i := FirstWaiter(s.waiting, s.sleepsOn, r);
    FirstWaiterIsOldest(s.waiting, s.sleepsOn, r);
    if i < |s.waiting| {
      RemoveAtMembers(s.waiting, i);
      assert s.waiting[i] in s.waiting;
      if q != r {
        RemoveOther(s.waiting, s.sleepsOn, i, q);
      }
      QueueOfSame(RemoveAt(s.waiting, i), s.sleepsOn, Wake(s, r).sleepsOn, q);
    }
  }

  /** The threads of a queue that are switched out. */
  function Sleeping(queue: seq<Tid>, state: seq<ThreadState>): seq<Tid> {
    if queue == [] then []
    else (if queue[0] < |state| && state[queue[0]] == SLEEPING then [queue[0]] else []) + Sleeping(queue[1..], state)
  }

  lemma {:induction false} SleepingSame(queue: seq<Tid>, state: seq<ThreadState>, state': seq<ThreadState>)
    requires |state| == |state'| && forall t :: t in queue && t < |state| ==> state'[t] == state[t]
    ensures Sleeping(queue, state') == Sleeping(queue, state)
  {
    if queue != [] {
      assert queue[0] in queue;
      SleepingSame(queue[1..], state, state');
    }
  }

  /** sleepq_wake_all empties the queue of its resource and leaves every other queue alone;
      the waiters that are switched out become ready, oldest first, and nothing else does. */
  lemma {:induction false} AllWoken(s: Sys, r: nat, q: nat)
    requires WaitersOk(s) && r != 0 && q != 0
    ensures var n, queue := WakeAll(s, r), QueueOf(s.waiting, s.sleepsOn, r);
            && |n.sleepsOn| == |s.sleepsOn| && |n.state| == |s.state| && n.current == s.current
            && QueueOf(n.waiting, n.sleepsOn, q) == (if q == r then [] else QueueOf(s.waiting, s.sleepsOn, q))
            && n.ready == s.ready + Sleeping(queue, s.state)
            && forall t: Tid :: t < |s.state| ==>
                 && n.sleepsOn[t] == (if t in queue then 0 else s.sleepsOn[t])
                 && n.state[t] == if t in queue && s.state[t] == SLEEPING then READY else s.state[t]
    decreases |s.waiting|
  {
    hide QueueOf, Wake, Sleeping, NoDuplicates, FirstWaiter;
    var queue := QueueOf(s.waiting, s.sleepsOn, r);
    FirstWaiterIsOldest(s.waiting, s.sleepsOn, r);
    SleepingStep(queue, s.state);
    if queue != [] {
      var n := Wake(s, r);
      OldestWoken(s, r, q);
      OldestWoken(s, r, r);
      OneLess(s, r);
      AllWoken(n, r, q);
      QueueOfNoDuplicates(s.waiting, s.sleepsOn, r);
      TailMembers(queue);
      SleepingSame(queue[1..], s.state, n.state);
    }
  }

  lemma SleepingStep(queue: seq<Tid>, state: seq<ThreadState>)
    ensures queue == [] ==> Sleeping(queue, state) == []
    ensures queue != [] ==>
              Sleeping(queue, state)
              == (if queue[0] < |state| && state[queue[0]] == SLEEPING then [queue[0]] else []) + Sleeping(queue[1..], state)
  {
  }

  lemma OneLess(s: Sys, r: nat)
    requires WaitersOk(s) && FirstWaiter(s.waiting, s.sleepsOn, r) < |s.waiting|
    ensures |Wake(s, r).waiting| < |s.waiting|
  {
  }

  function Queue(m: Machine, r: nat): seq<Tid> {
    QueueOf(m.sys.waiting, m.sys.sleepsOn, r)
  }

  /** The step takes a waiter for r out of the sleep queue, if there is one. */
  predicate Picks(m: Machine, step: Step, r: nat) {
    || (step.WakeBegin? && step.r == r)
    || (step.VUnlink? && step.r == r)
    || (step.WakeAllNext? && m.sleepq.BetweenWakes? && m.sleepq.r == r)
  }

  predicate Queues(m: Machine, step: Step, r: nat)
    requires Shaped(m) && Enabled(m, step)
  {
    step.AddLink? && m.calls[On(m, step.cpu)].r == r
  }

  /** Every step either appends its own thread to the queue of one resource, or takes the
      oldest waiter of one resource, or leaves the queue as it is. */
  lemma StepQueue(m: Machine, step: Step, r: nat)
    requires Inv(m) && Enabled(m, step) && r != 0
    ensures var n := Apply(m, step);
            && (Picks(m, step, r) && Queue(m, r) != [] ==>
                  Queue(n, r) == Queue(m, r)[1..] && n.sleepq.Waking? && n.sleepq.w == Queue(m, r)[0])
            && (Queues(m, step, r) ==> Queue(n, r) == Queue(m, r) + [On(m, step.cpu)])
            && (!Queues(m, step, r) && (!Picks(m, step, r) || Queue(m, r) == []) ==> Queue(n, r) == Queue(m, r))
  {
    hide Inv, Queue, Enabled;
    if step.WakeBegin? || step.VUnlink? || step.WakeAllNext? {
      StepPicks(m, step, r);
    } else if step.AddLink? {
      StepLinks(m, step.cpu, r);
    } else {
      StepLeaves(m, step, r);
    }
  }

  lemma StepPicks(m: Machine, step: Step, r: nat)
    requires Inv(m) && Enabled(m, step) && (step.WakeBegin? || step.VUnlink? || step.WakeAllNext?)
    ensures var n := Apply(m, step);
            if Picks(m, step, r) && Queue(m, r) != []
            then Queue(n, r) == Queue(m, r)[1..] && n.sleepq.Waking? && n.sleepq.w == Queue(m, r)[0]
            else Queue(n, r) == Queue(m, r)
  {
    hide QueuesOk, IdleOk, SemOk, ThreadOk, SleepqOk, QueueOf, RemoveAt;
    var q := if step.WakeAllNext? then m.sleepq.r else step.r;
    var i := FirstWaiter(m.sys.waiting, m.sys.sleepsOn, q);
    FirstWaiterIsOldest(m.sys.waiting, m.sys.sleepsOn, q);
    if i < |m.sys.waiting| && q != r {
      RemoveOther(m.sys.waiting, m.sys.sleepsOn, i, r);
    }
    if step.VUnlink? {
      VPicks(m, step.cpu, q);
    }
  }

  lemma StepLinks(m: Machine, c: nat, r: nat)
    requires Inv(m) && Enabled(m, AddLink(c))
    ensures Queue(Apply(m, AddLink(c)), r)
            == if m.calls[On(m, c)].r == r then Queue(m, r) + [On(m, c)] else Queue(m, r)
  {
    hide QueuesOk, IdleOk, SemOk, CallOk, UserOk, SleepqOk, PlaceOk;
    QueueOfAppend(m.sys.waiting, [On(m, c)], m.sys.sleepsOn, r);
    assert [On(m, c)][1..] == [];
    LinkWaits(m, c);
  }

  lemma StepLeaves(m: Machine, step: Step, r: nat)
    requires Inv(m) && Enabled(m, step)
    requires !step.AddLink? && !step.WakeBegin? && !step.VUnlink? && !step.WakeAllNext?
    ensures Queue(Apply(m, step), r) == Queue(m, r)
  {
    hide QueuesOk, IdleOk, SemOk, ThreadOk, SleepqOk, Apply, Enabled;
    SleepsOnKept(m, step);
    StepKeeps(m, step);
    ThreadsKept(m, step);
    QueueOfSame(m.sys.waiting, m.sys.sleepsOn, Apply(m, step).sys.sleepsOn, r);
  }

  lemma ThreadsKept(m: Machine, step: Step)
    requires Inv(m) && Enabled(m, step)
    ensures |Apply(m, step).sys.state| == |m.sys.state| == |m.sys.sleepsOn| == |Apply(m, step).sys.sleepsOn|
    ensures |Apply(m, step).sys.current| == |m.sys.current|
  {
    hide QueuesOk, IdleOk, SemOk, ThreadOk, SleepqOk;
  }

  lemma LinkWaits(m: Machine, c: nat)
    requires Inv(m) && Enabled(m, AddLink(c))
    ensures m.sys.sleepsOn[On(m, c)] == m.calls[On(m, c)].r
  {
    assert ThreadOk(m, On(m, c));
  }

  /** No step changes what a thread waits for while the thread is in the queue. */
  lemma SleepsOnKept(m: Machine, step: Step)
    requires Inv(m) && Enabled(m, step)
    ensures forall t :: t in m.sys.waiting ==> Apply(m, step).sys.sleepsOn[t] == m.sys.sleepsOn[t]
    ensures !step.AddLink? && !step.WakeBegin? && !step.VUnlink? && !step.WakeAllNext? ==>
              Apply(m, step).sys.waiting == m.sys.waiting
  {
    hide SemOk, NoDuplicates, UserOk, FirstWaiter, RemoveAt;
    var n := Apply(m, step);
    forall t | t in m.sys.waiting ensures n.sys.sleepsOn[t] == m.sys.sleepsOn[t] {
      assert ThreadOk(m, t);
    }
  }

  /** How many waiters for r leave the queue in the steps from i up to j. */
  function PickCount(ms: seq<Machine>, steps: seq<Step>, r: nat, i: nat, j: nat): nat
    requires i <= j <= |steps| && |ms| == |steps| + 1
    decreases j
  {
    if i == j then 0
    else PickCount(ms, steps, r, i, j - 1)
         + if Picks(ms[j - 1], steps[j - 1], r) && Queue(ms[j - 1], r) != [] then 1 else 0
  }

  /** The waiters for r that are left after some wake-ups on r stand at the front of the
      queue in their order, however many resources share their hash chain. */
  lemma {:induction false} WaitersMoveUp(ms: seq<Machine>, steps: seq<Step>, r: nat, i: nat, j: nat)
    requires IsRun(ms, steps) && i <= j <= |steps| && r != 0
    ensures PickCount(ms, steps, r, i, j) <= |Queue(ms[i], r)| ==>
              Queue(ms[i], r)[PickCount(ms, steps, r, i, j)..] <= Queue(ms[j], r)
    decreases j
  {
    hide Inv, Apply, Enabled, Queue, Picks;
    if i < j {
      WaitersMoveUp(ms, steps, r, i, j - 1);
      Reachable(ms, steps, j - 1);
      StepQueue(ms[j - 1], steps[j - 1], r);
    }
  }

  /** sleepq_wake is fair: the waiter with k others before it is the one the (k+1)-th
      wake-up on its resource wakes. */
  lemma WaiterIsPicked(ms: seq<Machine>, steps: seq<Step>, r: nat, i: nat, j: nat)
    requires IsRun(ms, steps) && i <= j < |steps| && r != 0
    ensures var k := PickCount(ms, steps, r, i, j);
            Picks(ms[j], steps[j], r) && k < |Queue(ms[i], r)| ==>
              ms[j + 1].sleepq.Waking? && ms[j + 1].sleepq.w == Queue(ms[i], r)[k]
  {
    hide Inv, Apply, Enabled, Queue, Picks, PickCount;
    WaitersMoveUp(ms, steps, r, i, j);
    Reachable(ms, steps, j);
    StepQueue(ms[j], steps[j], r);
  }

  /** Every step either dispatches the first ready thread or leaves the ready threads in
      their order; new ones come behind them. */
  lemma StepReady(m: Machine, step: Step)
    requires Inv(m) && Enabled(m, step)
    ensures var n := Apply(m, step);
            if step.Reschedule? && m.sys.ready != []
            then step.cpu < |n.sys.current| && m.sys.ready[1..] <= n.sys.ready && n.sys.current[step.cpu] == m.sys.ready[0]
            else m.sys.ready != [] ==> m.sys.ready <= n.sys.ready
  {
    hide SemOk, ThreadOk, NoDuplicates;
  }

  function DispatchCount(steps: seq<Step>, i: nat, j: nat): nat
    requires i <= j <= |steps|
    decreases j
  {
    if i == j then 0 else DispatchCount(steps, i, j - 1) + if steps[j - 1].Reschedule? then 1 else 0
  }

  /** The ready list is strictly first in, first out. */
  lemma {:induction false} ReadyMovesUp(ms: seq<Machine>, steps: seq<Step>, i: nat, j: nat)
    requires IsRun(ms, steps) && i <= j <= |steps|
    ensures DispatchCount(steps, i, j) <= |ms[i].sys.ready| ==>
              ms[i].sys.ready[DispatchCount(steps, i, j)..] <= ms[j].sys.ready
    decreases j
  {
    hide Inv, Apply, Enabled;
    if i < j {
      ReadyMovesUp(ms, steps, i, j - 1);
      Reachable(ms, steps, j - 1);
      StepReady(ms[j - 1], steps[j - 1]);
    }
  }

  /** Round robin: a ready thread with k others before it gets a cpu at the (k+1)-th
      dispatch, whichever cpus do the dispatching. */
  lemma ReadyIsDispatched(ms: seq<Machine>, steps: seq<Step>, i: nat, j: nat)
    requires IsRun(ms, steps) && i <= j < |steps|
    ensures var k := DispatchCount(steps, i, j);
            steps[j].Reschedule? && k < |ms[i].sys.ready| ==>
              && steps[j].cpu < |ms[j + 1].sys.current|
              && ms[j + 1].sys.current[steps[j].cpu] == ms[i].sys.ready[k] != IDLE_THREAD_TID
  {
    hide Apply, Enabled, DispatchCount;
    ReadyMovesUp(ms, steps, i, j);
    Reachable(ms, steps, i);
    Reachable(ms, steps, j);
    StepReady(ms[j], steps[j]);
    var k := DispatchCount(steps, i, j);
    assert k < |ms[i].sys.ready| ==> ms[i].sys.ready[k] in ms[i].sys.ready;
  }
}
