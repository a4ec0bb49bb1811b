/** In every state a run can reach, each step meets what the thread table's methods require
    of the state of the threads and queues, so the kernel's own assertions hold. That a thread
    about to be queued has a cleared link is shown where the steps act on the table. */
module KernelCalls {
  import opened Collections
  import opened Threads
  import opened ThreadTables
  import opened Kernel
  import opened KernelInvariant
  import opened KernelRuns

  ghost predicate InNoQueue(s: Sys, t: Tid) {
    0 < t < |s.state| && t !in s.ready && t !in s.waiting
  }

  /** The two kinds of queue share the next field, so they must not share a thread. */
  lemma QueuesStayApart(ms: seq<Machine>, steps: seq<Step>, i: nat)
    requires IsRun(ms, steps) && i < |ms|
    ensures NoDuplicates(ms[i].sys.waiting) && NoDuplicates(ms[i].sys.ready)
    ensures forall t :: t in ms[i].sys.waiting ==> 0 < t < |ms[i].sys.state| && t !in ms[i].sys.ready
  {
    hide Apply, Enabled, SemOk, CallOk, UserOk;
    Reachable(ms, steps, i);
    forall t | t in ms[i].sys.waiting ensures t !in ms[i].sys.ready {
      assert ThreadOk(ms[i], t);
    }
  }

  /** scheduler_schedule finds the first ready thread in state READY, and never puts a
      thread on the ready list that is in a queue already; nor do sleepq_add, sleepq_wake,
      thread_run and thread_create touch the next field of a queued thread. */
  lemma StepsMeetRequires(ms: seq<Machine>, steps: seq<Step>, i: nat)
    requires IsRun(ms, steps) && i < |steps|
    ensures Shaped(ms[i]) && CallMeetsRequires(ms[i], steps[i])
  {
    hide Apply, Enabled, CallMeetsRequires;
    Reachable(ms, steps, i);
    StepMeetsRequires(ms[i], steps[i]);
  }

  /** What a step's call of the thread table needs, apart from the cleared link of a thread
      that has prepared to wait: that is a fact about the table itself. */
  ghost predicate CallMeetsRequires(m: Machine, step: Step)
    requires Shaped(m)
  {
    var s := m.sys;
    match step
    case InitSlot(t) => InNoQueue(s, t)
    case Start(t) => InNoQueue(s, t)
    case Finish(c) => c < |s.current|
    case Reschedule(c) => c < |s.current| && SchedulePre(s, c)
    case AddPrepare(c, r) => c < |s.current| && InNoQueue(s, s.current[c])
    case PPrepare(c) => c < |s.current| && InNoQueue(s, s.current[c])
    case AddLink(c) =>
      && c < |s.current| && InNoQueue(s, s.current[c])
      && m.calls[s.current[c]].Prepared? && s.sleepsOn[s.current[c]] == m.calls[s.current[c]].r
    case WakeEnd(c) => m.sleepq.Waking? && InNoQueue(s, m.sleepq.w)
    case _ => true
  }

  lemma StepMeetsRequires(m: Machine, step: Step)
    requires Inv(m) && Enabled(m, step)
    ensures CallMeetsRequires(m, step)
  {
    hide SemOk, NoDuplicates;
    match step
    case InitSlot(t) => assert ThreadOk(m, t);
    case Start(t) => assert ThreadOk(m, t);
    case Reschedule(c) =>
      assert On(m, c) in m.sys.current;
      assert ThreadOk(m, On(m, c));
      if m.sys.ready != [] {
        assert m.sys.ready[0] in m.sys.ready;
        assert ThreadOk(m, m.sys.ready[0]);
      }
    case WakeEnd(c) => assert ThreadOk(m, m.sleepq.w);
    case AddPrepare(c, r) => assert ThreadOk(m, On(m, c));
    case PPrepare(c) => assert ThreadOk(m, On(m, c));
    case AddLink(c) => assert ThreadOk(m, On(m, c));
    case _ =>
  }
}
