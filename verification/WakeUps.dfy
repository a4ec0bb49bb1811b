/** No wake-up is lost: where every thread is in every reachable state, and what happens to
    a thread from the moment it is queued until it is back on the ready list or a cpu. */
module WakeUps {
  import opened Threads
  import opened Kernel
  import opened KernelInvariant
  import opened KernelSteps
  import opened KernelRuns
  import opened FifoOrder

  ghost predicate ExactlyOnce(s: seq<Tid>, t: Tid) {
    exists i :: 0 <= i < |s| && s[i] == t && forall j :: 0 <= j < |s| && s[j] == t ==> j == i
  }

  lemma OnceIfUnique(s: seq<Tid>, t: Tid)
    requires t in s && forall i, j :: 0 <= i < j < |s| && s[i] == s[j] ==> s[i] != t
    ensures ExactlyOnce(s, t)
  {
    var i :| 0 <= i < |s| && s[i] == t;
    forall j | 0 <= j < |s| && s[j] == t ensures j == i {
    }
  }

  /** A thread that waits for nothing is exactly once on the ready list or on exactly one
      cpu, never both and never in the sleep queue, unless its slot holds no started thread.
      A thread that waits is never on the ready list; it is exactly once in the queue, or
      still on its cpu on the way in, or just being woken. */
  lemma Placement(ms: seq<Machine>, steps: seq<Step>, i: nat, t: Tid)
    requires IsRun(ms, steps) && i < |ms| && t != IDLE_THREAD_TID && t < |ms[0].sys.state|
    ensures |ms[i].sys.state| == |ms[i].sys.sleepsOn| == |ms[i].calls| == |ms[0].sys.state|
    ensures var m := ms[i];
            if m.sys.sleepsOn[t] == 0
            then t !in m.sys.waiting &&
                 match m.sys.state[t]
                 case READY => ExactlyOnce(m.sys.ready, t) && t !in m.sys.current
                 case RUNNING => ExactlyOnce(m.sys.current, t) && t !in m.sys.ready
                 case DYING => ExactlyOnce(m.sys.current, t) && t !in m.sys.ready
                 case SLEEPING => false
                 case _ => t !in m.sys.ready && t !in m.sys.current
            else
              && t !in m.sys.ready
              && ((m.sys.state[t] == RUNNING && ExactlyOnce(m.sys.current, t))
                  || (m.sys.state[t] == SLEEPING && t !in m.sys.current))
              && (ExactlyOnce(m.sys.waiting, t) || BeingWoken(m, t) || m.calls[t].Prepared?)
  {
    hide Apply, Enabled, SemOk;
    Reachable(ms, steps, i);
    SlotsKept(ms, steps, i);
    var m := ms[i];
    assert ThreadOk(m, t);
    if t in m.sys.ready {
      OnceIfUnique(m.sys.ready, t);
    }
    if t in m.sys.waiting {
      OnceIfUnique(m.sys.waiting, t);
    }
    if t in m.sys.current {
      OnceIfUnique(m.sys.current, t);
    }
  }

  lemma {:induction false} SlotsKept(ms: seq<Machine>, steps: seq<Step>, i: nat)
    requires IsRun(ms, steps) && i < |ms|
    ensures |ms[i].sys.state| == |ms[0].sys.state|
  {
    hide Apply, Enabled, Inv;
    if i != 0 {
      SlotsKept(ms, steps, i - 1);
      Reachable(ms, steps, i - 1);
      ThreadsKept(ms[i - 1], steps[i - 1]);
    }
  }

  /** The step takes t out of the sleep queue, as the oldest waiter for r. */
  predicate PicksThread(m: Machine, step: Step, r: nat, t: Tid) {
    Picks(m, step, r) && Queue(m, r) != [] && Queue(m, r)[0] == t
  }

  /** A thread that nobody wakes stays in the queue and never becomes ready: it only may be
      switched out and become SLEEPING. */
  lemma {:induction false} NotWokenStays(ms: seq<Machine>, steps: seq<Step>, r: nat, t: Tid, i: nat, j: nat)
    requires IsRun(ms, steps) && i <= j < |ms| && r != 0
    requires t in Queue(ms[i], r)
    requires forall k :: i <= k < j ==> !PicksThread(ms[k], steps[k], r, t)
    ensures t in Queue(ms[j], r) && t !in ms[j].sys.ready
    ensures t < |ms[j].sys.state| && MayWait(ms[j].sys.state[t])
    decreases j
  {
    hide Inv, Apply, Enabled, Queue, Picks;
    if i < j {
      NotWokenStays(ms, steps, r, t, i, j - 1);
      Reachable(ms, steps, j - 1);
      StepQueue(ms[j - 1], steps[j - 1], r);
      assert !PicksThread(ms[j - 1], steps[j - 1], r, t);
    }
    Reachable(ms, steps, j);
    QueuedMayWait(ms[j], r, t);
  }

  lemma QueuedMayWait(m: Machine, r: nat, t: Tid)
    requires Inv(m) && t in Queue(m, r)
    ensures t !in m.sys.ready && t < |m.sys.state| && MayWait(m.sys.state[t])
  {
    QueueOfMembers(m.sys.waiting, m.sys.sleepsOn, r);
    assert ThreadOk(m, t);
  }

  predicate Prepares(m: Machine, step: Step, t: Tid) {
    (step.AddPrepare? || step.PPrepare?) && step.cpu < |m.sys.current| && On(m, step.cpu) == t
  }

  predicate Finishes(m: Machine, step: Step, t: Tid) {
    step.Finish? && step.cpu < |m.sys.current| && On(m, step.cpu) == t
  }

  /** The thread waits for nothing and competes for the cpus. */
  predicate Awake(m: Machine, t: Tid) {
    t < |m.sys.state| == |m.sys.sleepsOn| && m.sys.sleepsOn[t] == 0 && (m.sys.state[t] == READY || m.sys.state[t] == RUNNING)
  }

  /** A wake-up is never lost, whether it hits the thread before or after it is switched
      out: from the wake-up until the thread itself goes to wait again or finishes it is
      exactly once on the ready list or on exactly one cpu. */
  lemma WokenStaysAwake(ms: seq<Machine>, steps: seq<Step>, t: Tid, e: nat, j: nat)
    requires IsRun(ms, steps) && e < j < |ms|
    requires steps[e].WakeEnd? && ms[e].sleepq.Waking? && ms[e].sleepq.w == t
    requires forall k :: e < k < j ==> !Prepares(ms[k], steps[k], t) && !Finishes(ms[k], steps[k], t)
    ensures var m := ms[j];
            && Awake(m, t) && t !in m.sys.waiting
            && if m.sys.state[t] == READY then ExactlyOnce(m.sys.ready, t) && t !in m.sys.current
               else ExactlyOnce(m.sys.current, t) && t !in m.sys.ready
  {
    hide Inv, Enabled, Apply, ExactlyOnce;
    WokenIsAwake(ms, steps, t, e, j);
    WokenIsThread(ms, steps, t, e);
    SlotsKept(ms, steps, e);
    Placement(ms, steps, j, t);
  }

  lemma WokenIsThread(ms: seq<Machine>, steps: seq<Step>, t: Tid, e: nat)
    requires IsRun(ms, steps) && e < |steps| && ms[e].sleepq.Waking? && ms[e].sleepq.w == t
    ensures 0 < t < |ms[e].sys.state|
  {
    hide Apply, Enabled, QueuesOk, IdleOk, SemOk, ThreadOk;
    Reachable(ms, steps, e);
  }

  lemma {:induction false} WokenIsAwake(ms: seq<Machine>, steps: seq<Step>, t: Tid, e: nat, j: nat)
    requires IsRun(ms, steps) && e < j < |ms|
    requires steps[e].WakeEnd? && ms[e].sleepq.Waking? && ms[e].sleepq.w == t
    requires forall k :: e < k < j ==> !Prepares(ms[k], steps[k], t) && !Finishes(ms[k], steps[k], t)
    ensures Awake(ms[j], t)
    decreases j
  {
    hide Inv, Enabled, Apply, Awake, Prepares, Finishes;
    Reachable(ms, steps, j - 1);
    if e + 1 < j {
      WokenIsAwake(ms, steps, t, e, j - 1);
      WokenIsThread(ms, steps, t, e);
      assert !Prepares(ms[j - 1], steps[j - 1], t);
      AwakeKept(ms[j - 1], steps[j - 1], t);
    } else {
      AwakeAfterWakeEnd(ms[e], steps[e].cpu);
    }
  }

  lemma AwakeAfterWakeEnd(m: Machine, c: nat)
    requires Inv(m) && Enabled(m, WakeEnd(c))
    ensures Awake(Apply(m, WakeEnd(c)), m.sleepq.w)
  {
    hide SemOk, ThreadOk, QueuesOk, IdleOk;
  }

  lemma AwakeKept(m: Machine, step: Step, t: Tid)
    requires Inv(m) && Enabled(m, step) && t != IDLE_THREAD_TID
    requires Awake(m, t) && !Prepares(m, step, t) && !Finishes(m, step, t)
    ensures Awake(Apply(m, step), t)
  {
    hide SemOk, QueuesOk, IdleOk, CallOk, UserOk;
    assert ThreadOk(m, t);
  }

  /** A thread woken while it was still RUNNING is switched out as READY, not SLEEPING:
      it goes to the ready list, or straight back to the cpu. */
  lemma WokenBeforeSwitch(m: Machine, c: nat, t: Tid)
    requires Inv(m) && Enabled(m, Reschedule(c)) && On(m, c) == t && t != IDLE_THREAD_TID
    requires m.sys.sleepsOn[t] == 0 && m.sys.state[t] == RUNNING
    ensures var n := Apply(m, Reschedule(c));
            ExactlyOnce(n.sys.ready, t) || (n.sys.current[c] == t && n.sys.state[t] == RUNNING)
  {
    hide Apply, Enabled, SemOk, ThreadOk;
    RescheduleKeeps(m, c);
    RescheduledIsReady(m, c, t);
    var n := Apply(m, Reschedule(c));
    if t in n.sys.ready {
      OnceIfUnique(n.sys.ready, t);
    }
  }

  lemma RescheduledIsReady(m: Machine, c: nat, t: Tid)
    requires Inv(m) && Enabled(m, Reschedule(c)) && On(m, c) == t && t != IDLE_THREAD_TID
    requires m.sys.sleepsOn[t] == 0 && m.sys.state[t] == RUNNING
    ensures var n := Apply(m, Reschedule(c)); t in n.sys.ready || (n.sys.current[c] == t && n.sys.state[t] == RUNNING)
  {
    hide SemOk, SleepqOk, ThreadOk;
    RescheduleQueues(m, c);
  }

  /** When sleepq_wake_all lets go of the sleep queue nobody is left in the queue of its
      resource, and the only threads whose sleeps_on still names it are those that have
      written the field in sleepq_add but have not got its lock yet. */
  lemma WakeAllLeavesNone(m: Machine, c: nat)
    requires Inv(m) && Enabled(m, WakeAllNext(c))
    requires Apply(m, WakeAllNext(c)).sleepq == Unlocked
    ensures var n, r := Apply(m, WakeAllNext(c)), m.sleepq.r;
            && Queue(n, r) == []
            && (forall t :: IsThread(n.sys, t) ==> (n.sys.sleepsOn[t] == r <==> n.calls[t] == Prepared(r, false)))
  {
    hide SemOk;
    var r := m.sleepq.r;
    FirstWaiterIsOldest(m.sys.waiting, m.sys.sleepsOn, r);
    FirstWaiterIs(m, r);
    forall t | IsThread(m.sys, t) ensures m.sys.sleepsOn[t] == r <==> m.calls[t] == Prepared(r, false) {
      assert ThreadOk(m, t);
    }
  }

  function Demo(state: ThreadState, sleepsOn: nat, ready: seq<Tid>, on: Tid, call: Call,
                lock: SleepqLock, busy: bool): Machine
  {
    Machine(Sys([READY, state], [0, sleepsOn], [], ready, [on, 0]), [NoCall, call], [Outside, Outside],
            lock, map[], [false, busy])
  }

  lemma DemoStarts(m0: Machine, m1: Machine, m2: Machine)
    requires m0 == Demo(FREE, 0, [], 0, NoCall, Unlocked, false)
    requires m1 == Demo(NONREADY, 0, [], 0, NoCall, Unlocked, false)
    requires m2 == Demo(READY, 0, [1], 0, NoCall, Unlocked, false)
    ensures Enabled(m0, Create(1)) && m1 == Apply(m0, Create(1))
    ensures Enabled(m1, InitSlot(1)) && m1 == Apply(m1, InitSlot(1))
    ensures Enabled(m1, Start(1)) && m2 == Apply(m1, Start(1))
  {
  }

  lemma DemoRuns(m2: Machine, m3: Machine, m4: Machine)
    requires m2 == Demo(READY, 0, [1], 0, NoCall, Unlocked, false)
    requires m3 == Demo(RUNNING, 0, [], 1, NoCall, Unlocked, false)
    requires m4 == Demo(RUNNING, 7, [], 1, Prepared(7, false), Unlocked, false)
    ensures Enabled(m2, Reschedule(0)) && m3 == Apply(m2, Reschedule(0))
    ensures Enabled(m3, AddPrepare(0, 7)) && m4 == Apply(m3, AddPrepare(0, 7))
  {
  }

  lemma DemoWakes(m4: Machine, m5: Machine)
    requires m4 == Demo(RUNNING, 7, [], 1, Prepared(7, false), Unlocked, false)
    requires m5 == Demo(RUNNING, 7, [], 1, Prepared(7, false), BetweenWakes(1, 7), true)
    ensures Enabled(m4, WakeAllBegin(1, 7)) && m5 == Apply(m4, WakeAllBegin(1, 7))
    ensures Enabled(m5, WakeAllNext(1)) && m4 == Apply(m5, WakeAllNext(1))
  {
  }

  /** So "no thread has sleeps_on == r after sleepq_wake_all(r)" fails: here thread 1 has
      passed the unlocked part of sleepq_add(7) when the other cpu wakes all. */
  lemma SleepsOnMaySurviveWakeAll()
    ensures exists ms: seq<Machine>, steps: seq<Step> ::
              && IsRun(ms, steps) && |steps| > 0 && steps[|steps| - 1] == WakeAllNext(1)
              && ms[|steps| - 1].sleepq == BetweenWakes(1, 7) && ms[|steps|].sleepq == Unlocked
              && 1 < |ms[|steps|].sys.sleepsOn| && ms[|steps|].sys.sleepsOn[1] == 7
  {
    hide Apply, Enabled;
    var m0 := Demo(FREE, 0, [], 0, NoCall, Unlocked, false);
    var m1 := Demo(NONREADY, 0, [], 0, NoCall, Unlocked, false);
    var m2 := Demo(READY, 0, [1], 0, NoCall, Unlocked, false);
    var m3 := Demo(RUNNING, 0, [], 1, NoCall, Unlocked, false);
    var m4 := Demo(RUNNING, 7, [], 1, Prepared(7, false), Unlocked, false);
    var m5 := Demo(RUNNING, 7, [], 1, Prepared(7, false), BetweenWakes(1, 7), true);
    DemoStarts(m0, m1, m2);
    DemoRuns(m2, m3, m4);
    DemoWakes(m4, m5);
    assert Boot(m0);
    var ms, steps := [m0], [];
    ms, steps := Extend(ms, steps, Create(1), m1);
    ms, steps := Extend(ms, steps, InitSlot(1), m1);
    ms, steps := Extend(ms, steps, Start(1), m2);
    ms, steps := Extend(ms, steps, Reschedule(0), m3);
    ms, steps := Extend(ms, steps, AddPrepare(0, 7), m4);
    ms, steps := Extend(ms, steps, WakeAllBegin(1, 7), m5);
    ms, steps := Extend(ms, steps, WakeAllNext(1), m4);
  }

  lemma Extend(ms: seq<Machine>, steps: seq<Step>, step: Step, n: Machine) returns (longer: seq<Machine>, more: seq<Step>)
    requires IsRun(ms, steps)
    requires Shaped(ms[|steps|]) && Enabled(ms[|steps|], step) && n == Apply(ms[|steps|], step)
    ensures IsRun(longer, more) && |more| == |steps| + 1 && more[|steps|] == step
    ensures longer[|steps|] == ms[|steps|] && longer[|more|] == n
  {
    hide Apply, Enabled, Boot;
    longer, more := ms + [n], steps + [step];
  }
}
