/** How a thread's slot changes its state: exactly which step of which cpu takes it from one
    state to the next, and what becomes of the slot of a thread that has finished. */
module ThreadStates {
  import opened Threads
  import opened Kernel
  import opened KernelInvariant
  import opened KernelRuns

  /** The step is a switch on the cpu that the thread is on. */
  predicate SwitchesOut(m: Machine, step: Step, t: Tid) {
    step.Reschedule? && step.cpu < |m.sys.current| && On(m, step.cpu) == t
  }

  predicate FinishesIt(m: Machine, step: Step, t: Tid) {
    step.Finish? && step.cpu < |m.sys.current| && On(m, step.cpu) == t
  }

  predicate WakesIt(m: Machine, step: Step, t: Tid) {
    step.WakeEnd? && m.sleepq.Waking? && m.sleepq.w == t
  }

  /** A switch gives the cpu to the first ready thread. */
  predicate TakesFirst(m: Machine, step: Step, t: Tid) {
    step.Reschedule? && m.sys.ready != [] && m.sys.ready[0] == t
  }

  /** Exactly what each step does to the state of each slot but the idle thread's. */
  lemma StateStep(m: Machine, step: Step, t: Tid)
    requires Inv(m) && Enabled(m, step) && IsThread(m.sys, t)
    ensures IsThread(Apply(m, step).sys, t)
    ensures Apply(m, step).sys.state[t] ==
              match m.sys.state[t]
              case FREE => if step == Create(t) then NONREADY else FREE
              case NONREADY => if step == Start(t) then READY else NONREADY
              case READY => if TakesFirst(m, step, t) then RUNNING else READY
              case RUNNING =>
                if FinishesIt(m, step, t) then DYING
                else if !SwitchesOut(m, step, t) then RUNNING
                else if m.sys.sleepsOn[t] != 0 then SLEEPING
                else if m.sys.ready == [] then RUNNING
                else READY
              case SLEEPING => if WakesIt(m, step, t) then READY else SLEEPING
              case DYING => if SwitchesOut(m, step, t) then FREE else DYING
  {
    hide Inv, Apply, Enabled;
    if step.Reschedule? {
      SwitchStep(m, step.cpu, t);
    } else {
      OtherStep(m, step, t);
    }
  }

  lemma SwitchStep(m: Machine, c: nat, t: Tid)
    requires Inv(m) && Enabled(m, Reschedule(c)) && IsThread(m.sys, t)
    ensures IsThread(Apply(m, Reschedule(c)).sys, t) && c < |m.sys.current|
    ensures var s, first := m.sys, m.sys.ready != [] && m.sys.ready[0] == t;
            Apply(m, Reschedule(c)).sys.state[t] ==
              if On(m, c) != t then if first then RUNNING else s.state[t]
              else if s.state[t] == DYING then FREE
              else if s.sleepsOn[t] != 0 then SLEEPING
              else if s.ready == [] then RUNNING
              else READY
    ensures m.sys.state[t] == READY <==> t in m.sys.ready
    ensures On(m, c) == t ==> m.sys.state[t] == RUNNING || m.sys.state[t] == DYING
  {
    hide SemOk, UserOk, CallOk, IdleOk, SleepqOk, QueuesOk;
    assert ThreadOk(m, t);
    assert On(m, c) in m.sys.current;
    assert m.sys.ready != [] ==> m.sys.ready[0] in m.sys.ready;
  }

  lemma OtherStep(m: Machine, step: Step, t: Tid)
    requires Inv(m) && Enabled(m, step) && IsThread(m.sys, t) && !step.Reschedule?
    ensures Shaped(m) && IsThread(Apply(m, step).sys, t)
    ensures Apply(m, step).sys.state[t] ==
              if step == Create(t) then NONREADY
              else if step == Start(t) then READY
              else if FinishesIt(m, step, t) then DYING
              else if WakesIt(m, step, t) && m.sys.state[t] == SLEEPING then READY
              else m.sys.state[t]
    ensures step == Create(t) ==> m.sys.state[t] == FREE
    ensures step == Start(t) ==> m.sys.state[t] == NONREADY
    ensures FinishesIt(m, step, t) ==> m.sys.state[t] == RUNNING
  {
    hide SemOk, ThreadOk, IdleOk, QueuesOk;
  }

  /** The idle thread, which several cpus may run: a cpu that nobody is ready for runs it. */
  lemma IdleStep(m: Machine, c: nat)
    requires Inv(m) && Enabled(m, Reschedule(c))
    ensures var n := Apply(m, Reschedule(c));
            && c < |n.sys.current| && n.sys.current[c] < |n.sys.state| && n.sys.state[n.sys.current[c]] == RUNNING
            && (n.sys.current[c] == IDLE_THREAD_TID <==>
                  m.sys.ready == [] && (On(m, c) == IDLE_THREAD_TID || m.sys.state[On(m, c)] == DYING || m.sys.sleepsOn[On(m, c)] != 0))
            && (n.sys.current[c] != IDLE_THREAD_TID && On(m, c) == IDLE_THREAD_TID ==> n.sys.state[IDLE_THREAD_TID] == READY)
  {
    hide SemOk, ThreadOk, SleepqOk;
    assert m.sys.ready != [] ==> m.sys.ready[0] in m.sys.ready;
  }

  /** The slot of a thread that has finished stays taken until its cpu switches, and is free
      from then on: thread_create can take it again. */
  lemma FinishedIsFreed(ms: seq<Machine>, steps: seq<Step>, c: nat, i: nat, j: nat)
    requires IsRun(ms, steps) && i < j < |steps| && steps[i] == Finish(c) && steps[j] == Reschedule(c)
    requires forall k :: i < k < j ==> steps[k] != Reschedule(c)
    ensures c < |ms[i].sys.current|
    ensures var t, n := On(ms[i], c), ms[j + 1];
            && IsThread(n.sys, t) && n.sys.state[t] == FREE
            && Shaped(n) && Enabled(n, Create(t))
            && t !in n.sys.current && t !in n.sys.ready && t !in n.sys.waiting
  {
    hide Inv, Apply;
    Reachable(ms, steps, i);
    assert Enabled(ms[i], Finish(c));
    RunningIsThread(ms[i], c);
    var t := On(ms[i], c);
    StateStep(ms[i], steps[i], t);
    StaysDying(ms, steps, c, i, j);
    Reachable(ms, steps, j);
    StateStep(ms[j], steps[j], t);
    Reachable(ms, steps, j + 1);
    FreeIsNowhere(ms[j + 1], t);
  }

  lemma RunningIsThread(m: Machine, c: nat)
    requires Inv(m) && Enabled(m, Finish(c))
    ensures c < |m.sys.current| && IsThread(m.sys, On(m, c)) && m.sys.state[On(m, c)] == RUNNING
  {
    hide SemOk, ThreadOk, SleepqOk, IdleOk, QueuesOk;
  }

  lemma {:induction false} StaysDying(ms: seq<Machine>, steps: seq<Step>, c: nat, i: nat, j: nat)
    requires IsRun(ms, steps) && i < j < |ms| && steps[i] == Finish(c)
    requires forall k :: i < k < j ==> steps[k] != Reschedule(c)
    ensures c < |ms[i].sys.current| && c < |ms[j].sys.current| && On(ms[j], c) == On(ms[i], c)
    ensures IsThread(ms[j].sys, On(ms[i], c)) && ms[j].sys.state[On(ms[i], c)] == DYING
    decreases j
  {
    hide Inv, Apply, Enabled;
    Reachable(ms, steps, i);
    RunningIsThread(ms[i], c);
    Reachable(ms, steps, j - 1);
    if i + 1 < j {
      StaysDying(ms, steps, c, i, j - 1);
    }
    CpuKept(ms[j - 1], steps[j - 1], c);
    StateStep(ms[j - 1], steps[j - 1], On(ms[i], c));
    OnOneCpu(ms[j - 1], steps[j - 1], c);
  }

  lemma CpuKept(m: Machine, step: Step, c: nat)
    requires Inv(m) && Enabled(m, step) && c < |m.sys.current| && step != Reschedule(c)
    ensures |Apply(m, step).sys.current| == |m.sys.current| && Apply(m, step).sys.current[c] == m.sys.current[c]
  {
    hide SemOk, ThreadOk, SleepqOk, IdleOk, QueuesOk;
  }

  lemma OnOneCpu(m: Machine, step: Step, c: nat)
    requires Inv(m) && Enabled(m, step) && c < |m.sys.current| && step != Reschedule(c) && On(m, c) != IDLE_THREAD_TID
    ensures !SwitchesOut(m, step, On(m, c))
  {
    hide SemOk, ThreadOk, SleepqOk, IdleOk;
  }

  lemma FreeIsNowhere(m: Machine, t: Tid)
    requires Inv(m) && IsThread(m.sys, t) && m.sys.state[t] == FREE
    ensures t !in m.sys.current && t !in m.sys.ready && t !in m.sys.waiting
    ensures Shaped(m) && Enabled(m, Create(t))
  {
    hide SemOk, SleepqOk, IdleOk, QueuesOk;
    assert ThreadOk(m, t);
  }
}
