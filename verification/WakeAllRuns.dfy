/** What sleepq_wake_all guarantees over a run: which threads it misses, and how a lock of its
    callers makes sure that it misses none. */
module WakeAllRuns {
  import opened Collections
  import opened Threads
  import opened Kernel
  import opened KernelInvariant
  import opened KernelRuns
  import opened FifoOrder
  import opened WakeUps

  /** t has written sleeps_on in sleepq_add(r), but is not queued yet. */
  predicate OnTheWay(m: Machine, r: nat, t: Tid) {
    t < |m.calls| && m.calls[t] == Prepared(r, false)
  }

  predicate AddsTo(step: Step, r: nat) {
    step.AddPrepare? && step.r == r
  }

  predicate AddsFor(m: Machine, step: Step, r: nat, t: Tid) {
    AddsTo(step, r) && step.cpu < |m.sys.current| && On(m, step.cpu) == t
  }

  /** While somebody holds the sleep queue's lock threads only set out, none arrives. */
  lemma SetsOut(m: Machine, step: Step, r: nat, t: Tid)
    requires Inv(m) && Enabled(m, step) && r !in m.sems
    requires m.sleepq != Unlocked || step.WakeAllBegin?
    ensures OnTheWay(Apply(m, step), r, t) <==> OnTheWay(m, r, t) || AddsFor(m, step, r, t)
  {
    hide QueuesOk, IdleOk, SemOk, ThreadOk, SleepqOk;
  }

  lemma {:induction false} OnTheWaySince(ms: seq<Machine>, steps: seq<Step>, r: nat, t: Tid, b: nat, j: nat)
    requires IsRun(ms, steps) && b <= j < |ms| && r !in ms[0].sems
    requires forall k :: b <= k < j ==> ms[k].sleepq != Unlocked || steps[k].WakeAllBegin?
    ensures OnTheWay(ms[j], r, t)
            <==> OnTheWay(ms[b], r, t) || exists k :: b <= k < j && AddsFor(ms[k], steps[k], r, t)
    decreases j
  {
    hide Inv, Apply, Enabled, OnTheWay, AddsFor;
    if b < j {
      OnTheWaySince(ms, steps, r, t, b, j - 1);
      Reachable(ms, steps, j - 1);
      SemsKept(ms, steps, j - 1);
      SetsOut(ms[j - 1], steps[j - 1], r, t);
    }
  }

  lemma {:induction false} SemsKept(ms: seq<Machine>, steps: seq<Step>, i: nat)
    requires IsRun(ms, steps) && i < |ms|
    ensures ms[i].sems.Keys == ms[0].sems.Keys
  {
    hide Inv, Apply, Enabled;
    if i > 0 {
      SemsKept(ms, steps, i - 1);
      Reachable(ms, steps, i - 1);
      StepKeepsSems(ms[i - 1], steps[i - 1]);
    }
  }

  lemma StepKeepsSems(m: Machine, step: Step)
    requires Inv(m) && Enabled(m, step)
    ensures Apply(m, step).sems.Keys == m.sems.Keys
  {
    hide QueuesOk, IdleOk, SemOk, ThreadOk;
  }

  predicate WakingAll(lock: SleepqLock, c: nat, r: nat) {
    lock == BetweenWakes(c, r) || (lock.Waking? && lock.cpu == c && lock.r == r && lock.all)
  }

  /** The call of sleepq_wake_all(r) on cpu c that begins with step b and lets go of the sleep
      queue with step e. */
  ghost predicate IsWakeAll(ms: seq<Machine>, steps: seq<Step>, c: nat, r: nat, b: nat, e: nat) {
    && IsRun(ms, steps) && b < e < |steps|
    && steps[b] == WakeAllBegin(c, r)
    && (forall k :: b < k <= e ==> ms[k].sleepq != Unlocked)
    && ms[e + 1].sleepq == Unlocked
  }

  lemma {:induction false} WakesAllAlong(ms: seq<Machine>, steps: seq<Step>, c: nat, r: nat, b: nat, k: nat)
    requires IsRun(ms, steps) && b < k < |ms| && steps[b] == WakeAllBegin(c, r)
    requires forall j :: b < j <= k ==> ms[j].sleepq != Unlocked
    ensures WakingAll(ms[k].sleepq, c, r)
  {
    hide Inv, Enabled;
    Reachable(ms, steps, k - 1);
    if k > b + 1 {
      WakesAllAlong(ms, steps, c, r, b, k - 1);
    }
    WakesAllOn(ms[k - 1], steps[k - 1], c, r);
  }

  lemma WakesAllOn(m: Machine, step: Step, c: nat, r: nat)
    requires Inv(m) && Enabled(m, step)
    requires WakingAll(m.sleepq, c, r) || step == WakeAllBegin(c, r)
    ensures WakingAll(Apply(m, step).sleepq, c, r) || (Apply(m, step).sleepq == Unlocked && step == WakeAllNext(c))
  {
    hide QueuesOk, IdleOk, SemOk, ThreadOk;
  }

  /** sleepq_wake_all misses exactly the threads that were on their way into the queue when it
      began, and those that set out before it was over. */
  lemma WakeAllMisses(ms: seq<Machine>, steps: seq<Step>, c: nat, r: nat, b: nat, e: nat, t: Tid)
    requires IsWakeAll(ms, steps, c, r, b, e) && IsThread(ms[e + 1].sys, t)
    ensures ms[e + 1].sys.sleepsOn[t] == r
            <==> OnTheWay(ms[b], r, t) || exists k :: b < k < e && AddsFor(ms[k], steps[k], r, t)
  {
    hide Inv, Apply, Enabled;
    WakesAllAlong(ms, steps, c, r, b, e);
    Reachable(ms, steps, b);
    Reachable(ms, steps, e);
    WakesAllOn(ms[e], steps[e], c, r);
    NoSemaphore(ms, steps, c, r, b);
    OnTheWaySince(ms, steps, r, t, b, e);
    EndsWithNobody(ms[e], c, r, t);
    assert !AddsFor(ms[b], steps[b], r, t);
  }

  lemma NoSemaphore(ms: seq<Machine>, steps: seq<Step>, c: nat, r: nat, b: nat)
    requires IsRun(ms, steps) && b < |steps| && steps[b] == WakeAllBegin(c, r)
    ensures r !in ms[0].sems
  {
    hide Inv, Apply;
    SemsKept(ms, steps, b);
    assert r in ms[0].sems <==> r in ms[0].sems.Keys;
  }

  lemma EndsWithNobody(m: Machine, c: nat, r: nat, t: Tid)
    requires Inv(m) && Enabled(m, WakeAllNext(c)) && Apply(m, WakeAllNext(c)).sleepq == Unlocked
    requires WakingAll(m.sleepq, c, r) && IsThread(Apply(m, WakeAllNext(c)).sys, t)
    ensures Apply(m, WakeAllNext(c)).sys.sleepsOn[t] == r <==> OnTheWay(m, r, t)
  {
    hide QueuesOk, IdleOk, SemOk, ThreadOk, SleepqOk, Queue;
    WakeAllLeavesNone(m, c);
  }

  ghost predicate NobodyNames(m: Machine, r: nat) {
    forall t: Tid :: IsThread(m.sys, t) ==> m.sys.sleepsOn[t] != r
  }

  /** So "nobody's sleeps_on is r once sleepq_wake_all(r) is over" holds exactly if nobody was
      on the way at its start and nobody set out before its end. */
  lemma WakeAllLeavesNobody(ms: seq<Machine>, steps: seq<Step>, c: nat, r: nat, b: nat, e: nat)
    requires IsWakeAll(ms, steps, c, r, b, e)
    ensures NobodyNames(ms[e + 1], r)
            <==> && (forall t: Tid :: !OnTheWay(ms[b], r, t))
                 && (forall k :: b < k < e ==> !AddsTo(steps[k], r))
  {
    hide Inv, Apply, Enabled;
    var n := ms[e + 1];
    forall t: Tid | IsThread(n.sys, t)
      ensures n.sys.sleepsOn[t] == r
              <==> OnTheWay(ms[b], r, t) || exists k :: b < k < e && AddsFor(ms[k], steps[k], r, t)
    {
      WakeAllMisses(ms, steps, c, r, b, e, t);
    }
    forall t: Tid | OnTheWay(ms[b], r, t) ensures IsThread(n.sys, t) {
      WayfarerIsThread(ms, steps, b, e + 1, r, t);
    }
    forall k | b < k < e && AddsTo(steps[k], r)
      ensures exists t: Tid :: IsThread(n.sys, t) && AddsFor(ms[k], steps[k], r, t)
    {
      AdderIsThread(ms, steps, k, e + 1);
    }
  }

  lemma WayfarerIsThread(ms: seq<Machine>, steps: seq<Step>, b: nat, j: nat, r: nat, t: Tid)
    requires IsRun(ms, steps) && b < |ms| && j < |ms| && OnTheWay(ms[b], r, t)
    ensures IsThread(ms[j].sys, t)
  {
    hide Apply, Enabled, QueuesOk, SleepqOk, SemOk, ThreadOk;
    Reachable(ms, steps, b);
    Reachable(ms, steps, j);
    SlotsKept(ms, steps, b);
    SlotsKept(ms, steps, j);
  }

  lemma AdderIsThread(ms: seq<Machine>, steps: seq<Step>, k: nat, j: nat)
    requires IsRun(ms, steps) && k < |steps| && j < |ms| && steps[k].AddPrepare?
    ensures steps[k].cpu < |ms[k].sys.current| && IsThread(ms[j].sys, On(ms[k], steps[k].cpu))
    ensures AddsFor(ms[k], steps[k], steps[k].r, On(ms[k], steps[k].cpu))
  {
    hide Apply, QueuesOk, SleepqOk, SemOk, ThreadOk;
    Reachable(ms, steps, k);
    Reachable(ms, steps, j);
    SlotsKept(ms, steps, k);
    SlotsKept(ms, steps, j);
  }

  /** The thread of a cpu that is inside a wake-up or a V is not on its way into the queue. */
  ghost predicate BusyOk(m: Machine)
    requires Shaped(m)
  {
    forall c: nat :: c < |m.busy| && m.busy[c] ==> !m.calls[On(m, c)].Prepared? && !m.calls[On(m, c)].PTaken?
  }

  predicate InV(m: Machine, r: nat, c: nat) {
    r in m.sems && m.sems[r].lock.HeldByV? && m.sems[r].lock.cpu == c
  }

  /** A cpu is in at most one V, and in no wake-up of its own besides. */
  ghost predicate OneAtATime(m: Machine)
    requires Shaped(m)
  {
    && (forall r: nat, c: nat :: InV(m, r, c) ==> c < |m.busy| && m.busy[c])
    && (forall r: nat, q: nat, c: nat :: InV(m, r, c) && InV(m, q, c) ==> r == q)
    && (m.sleepq != Unlocked ==> m.sleepq.cpu < |m.busy| && m.busy[m.sleepq.cpu])
    && (m.sleepq != Unlocked ==> forall r: nat :: InV(m, r, m.sleepq.cpu) ==> r == m.sleepq.r)
  }

  predicate ChangesCalls(step: Step) {
    step.AddPrepare? || step.AddLink? || step.PBegin? || step.PPrepare? || step.PRelease?
  }

  lemma CallBusy(m: Machine, step: Step)
    requires Inv(m) && BusyOk(m) && Enabled(m, step) && ChangesCalls(step)
    ensures Shaped(Apply(m, step)) && BusyOk(Apply(m, step))
  {
    hide IdleOk, SemOk, ThreadOk, NoDuplicates, SleepqOk;
  }

  lemma GetsBusy(m: Machine, step: Step)
    requires Inv(m) && Enabled(m, step) && !step.Reschedule? && !ChangesCalls(step)
    ensures Shaped(m) && Shaped(Apply(m, step))
    ensures Apply(m, step).calls == m.calls && Apply(m, step).sys.current == m.sys.current
    ensures || Apply(m, step).busy == m.busy
            || (step.cpu < |m.busy| && Apply(m, step).busy == m.busy[step.cpu := false])
            || (InterruptsOn(m, step.cpu) && Apply(m, step).busy == m.busy[step.cpu := true])
  {
    hide IdleOk, SemOk, ThreadOk, QueuesOk, SleepqOk, FirstWaiter;
  }

  lemma StepBusy(m: Machine, step: Step)
    requires Inv(m) && BusyOk(m) && Enabled(m, step) && !step.Reschedule? && !ChangesCalls(step)
    ensures Shaped(Apply(m, step)) && BusyOk(Apply(m, step))
  {
    hide Inv, Enabled, Apply;
    GetsBusy(m, step);
  }

  lemma SwitchBusy(m: Machine, c: nat)
    requires Inv(m) && BusyOk(m) && Enabled(m, Reschedule(c))
    ensures Shaped(Apply(m, Reschedule(c))) && BusyOk(Apply(m, Reschedule(c)))
  {
    hide IdleOk, SemOk, ThreadOk, NoDuplicates, SleepqOk;
  }

  lemma StepsIntoV(m: Machine, step: Step)
    requires Inv(m) && Enabled(m, step)
    ensures forall r: nat, c: nat :: InV(Apply(m, step), r, c) ==>
              InV(m, r, c) || (step == VBegin(c, r) && Apply(m, step).busy[c])
    ensures forall r: nat, c: nat :: step == VRelease(c, r) ==> InV(m, r, c) && !InV(Apply(m, step), r, c)
    ensures forall r: nat, c: nat :: step == VUnlink(c, r) ==> InV(m, r, c)
    ensures m.sleepq.Waking? && m.sleepq.r in m.sems ==> InV(m, m.sleepq.r, m.sleepq.cpu)
    ensures forall r: nat, c: nat :: InV(m, r, c) ==> r in m.sems
  {
    hide IdleOk, SemOk, ThreadOk, QueuesOk;
  }

  lemma VStepOne(m: Machine, step: Step)
    requires Inv(m) && OneAtATime(m) && Enabled(m, step) && (step.VBegin? || step.VUnlink?)
    ensures Shaped(Apply(m, step)) && OneAtATime(Apply(m, step))
  {
    hide IdleOk, SemOk, ThreadOk, QueuesOk, SleepqOk, InV;
    StepsIntoV(m, step);
  }

  lemma VReleaseOne(m: Machine, c: nat, r: nat)
    requires Inv(m) && OneAtATime(m) && Enabled(m, VRelease(c, r))
    ensures Shaped(Apply(m, VRelease(c, r))) && OneAtATime(Apply(m, VRelease(c, r)))
  {
    hide IdleOk, SemOk, ThreadOk, QueuesOk, InV;
    StepsIntoV(m, VRelease(c, r));
  }

  lemma WakeStepOne(m: Machine, step: Step)
    requires Inv(m) && OneAtATime(m) && Enabled(m, step)
    requires step.WakeBegin? || step.WakeEnd? || step.WakeAllBegin? || step.WakeAllNext?
    ensures Shaped(Apply(m, step)) && OneAtATime(Apply(m, step))
  {
    hide IdleOk, SemOk, ThreadOk, QueuesOk, InV;
    StepsIntoV(m, step);
  }

  lemma OtherStep(m: Machine, step: Step)
    requires Inv(m) && Enabled(m, step) && !step.VBegin? && !step.VUnlink? && !step.VRelease?
    requires !step.WakeBegin? && !step.WakeEnd? && !step.WakeAllBegin? && !step.WakeAllNext?
    ensures Shaped(Apply(m, step)) && Apply(m, step).busy == m.busy && Apply(m, step).sleepq == m.sleepq
  {
    hide IdleOk, SemOk, ThreadOk, QueuesOk, SleepqOk;
  }

  lemma StepOne(m: Machine, step: Step)
    requires Inv(m) && OneAtATime(m) && Enabled(m, step)
    ensures Shaped(Apply(m, step)) && OneAtATime(Apply(m, step))
  {
    hide Inv, Apply, Enabled, InV;
    if step.VBegin? || step.VUnlink? {
      VStepOne(m, step);
    } else if step.VRelease? {
      VReleaseOne(m, step.cpu, step.r);
    } else if step.WakeBegin? || step.WakeEnd? || step.WakeAllBegin? || step.WakeAllNext? {
      WakeStepOne(m, step);
    } else {
      StepsIntoV(m, step);
      OtherStep(m, step);
    }
  }

  lemma BootBusy(m: Machine)
    requires Boot(m)
    ensures BusyOk(m) && OneAtATime(m)
  {
  }

  /** A cpu does one thing at a time: in no reachable state is the thread of a cpu that is
      inside a wake-up or a V on its way into the sleep queue. */
  lemma {:induction false} BusyAlways(ms: seq<Machine>, steps: seq<Step>, i: nat)
    requires IsRun(ms, steps) && i < |ms|
    ensures Shaped(ms[i]) && BusyOk(ms[i]) && OneAtATime(ms[i])
  {
    hide Inv, Apply, Enabled, BusyOk, OneAtATime, InV;
    if i == 0 {
      BootBusy(ms[0]);
    } else {
      BusyAlways(ms, steps, i - 1);
      Reachable(ms, steps, i - 1);
      StepOne(ms[i - 1], steps[i - 1]);
      if steps[i - 1].Reschedule? {
        SwitchBusy(ms[i - 1], steps[i - 1].cpu);
      } else if ChangesCalls(steps[i - 1]) {
        CallBusy(ms[i - 1], steps[i - 1]);
      } else {
        StepBusy(ms[i - 1], steps[i - 1]);
      }
    }
  }

  /** holder[i] is the cpu that holds some lock of the callers in the i-th state. Whoever calls
      sleepq_add(r) has it before the call and keeps it until the thread is queued. */
  ghost predicate AddsUnderLock(ms: seq<Machine>, steps: seq<Step>, holder: seq<int>, r: nat) {
    && |holder| == |ms| == |steps| + 1
    && (forall i :: 0 <= i < |steps| ==> AddsHolding(ms[i], ms[i + 1], steps[i], holder[i], holder[i + 1], r))
  }

  ghost predicate AddsHolding(m: Machine, n: Machine, step: Step, before: int, after: int, r: nat) {
    && (AddsTo(step, r) ==> before == after == step.cpu)
    && (before >= 0 && IsOnTheWay(m, r, before) && IsOnTheWay(n, r, before) ==> after == before)
  }

  predicate IsOnTheWay(m: Machine, r: nat, c: nat) {
    c < |m.sys.current| && OnTheWay(m, r, On(m, c))
  }

  lemma StaysOnCpu(m: Machine, step: Step, r: nat, c: nat)
    requires Inv(m) && Enabled(m, step) && IsOnTheWay(m, r, c)
    ensures |Apply(m, step).sys.current| == |m.sys.current| && On(Apply(m, step), c) == On(m, c)
  {
    hide IdleOk, SemOk, ThreadOk, QueuesOk, SleepqOk;
  }

  lemma SetsOutOnCpu(m: Machine, step: Step, r: nat, t: Tid)
    requires Inv(m) && Enabled(m, step) && r !in m.sems && OnTheWay(Apply(m, step), r, t) && !OnTheWay(m, r, t)
    ensures AddsFor(m, step, r, t) && On(Apply(m, step), step.cpu) == t && step.cpu < |Apply(m, step).sys.current|
  {
    hide QueuesOk, IdleOk, SemOk, ThreadOk, SleepqOk;
  }

  /** So a thread on its way into the queue runs on the cpu that holds the lock. */
  lemma {:induction false} AddersHold(ms: seq<Machine>, steps: seq<Step>, holder: seq<int>, r: nat, i: nat, t: Tid)
    requires IsRun(ms, steps) && i < |ms| && AddsUnderLock(ms, steps, holder, r) && r !in ms[0].sems
    requires OnTheWay(ms[i], r, t)
    ensures 0 <= holder[i] < |ms[i].sys.current| && On(ms[i], holder[i]) == t
  {
    hide Inv, Apply, Enabled, OnTheWay;
    if i == 0 {
      BootOnTheWay(ms[0], r, t);
    } else {
      Reachable(ms, steps, i - 1);
      SemsKept(ms, steps, i - 1);
      assert AddsHolding(ms[i - 1], ms[i], steps[i - 1], holder[i - 1], holder[i], r);
      if OnTheWay(ms[i - 1], r, t) {
        AddersHold(ms, steps, holder, r, i - 1, t);
        StaysOnCpu(ms[i - 1], steps[i - 1], r, holder[i - 1]);
      } else {
        SetsOutOnCpu(ms[i - 1], steps[i - 1], r, t);
      }
    }
  }

  lemma BootOnTheWay(m: Machine, r: nat, t: Tid)
    requires Boot(m)
    ensures !OnTheWay(m, r, t)
  {
  }

  /** If the callers of sleepq_add(r) hold a lock, and the caller of sleepq_wake_all(r) still
      holds it when the call is over, then nobody is missed. */
  lemma WakeAllUnderLock(ms: seq<Machine>, steps: seq<Step>, holder: seq<int>, c: nat, r: nat, b: nat, e: nat)
    requires IsWakeAll(ms, steps, c, r, b, e)
    requires AddsUnderLock(ms, steps, holder, r) && holder[e + 1] == c
    ensures NobodyNames(ms[e + 1], r)
  {
    hide Inv, Apply, Enabled, OneAtATime, BusyOk, OnTheWay, AddsFor;
    WakesAllAlong(ms, steps, c, r, b, e);
    NoSemaphore(ms, steps, c, r, b);
    BusyAlways(ms, steps, e);
    Reachable(ms, steps, e);
    WakesAllOn(ms[e], steps[e], c, r);
    SemsKept(ms, steps, e);
    var n := ms[e + 1];
    forall t: Tid | IsThread(n.sys, t) ensures n.sys.sleepsOn[t] != r {
      EndsWithNobody(ms[e], c, r, t);
      SetsOut(ms[e], steps[e], r, t);
      if OnTheWay(n, r, t) {
        AddersHold(ms, steps, holder, r, e + 1, t);
        WakerNotOnTheWay(ms[e], c, r);
      }
    }
  }

  lemma WakerNotOnTheWay(m: Machine, c: nat, r: nat)
    requires Inv(m) && Enabled(m, WakeAllNext(c)) && OneAtATime(m) && BusyOk(m)
    ensures !IsOnTheWay(m, r, c) && Apply(m, WakeAllNext(c)).sys.current == m.sys.current
  {
    hide QueuesOk, IdleOk, SemOk, ThreadOk, SleepqOk;
  }
}
