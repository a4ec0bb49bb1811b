/** The step system performed on the thread table: each step of each cpu runs the code that
    the source has for it, and in every interleaving the table stays well formed and holds
    what the step system says. */
module KernelOnTable {
  import opened Threads
  import opened IntrusiveLists
  import opened ThreadTables
  import opened Kernel
  import opened KernelInvariant
  import opened KernelSteps
  import opened KernelRuns
  import opened FifoOrder
  import opened KernelCalls

  /** From the unlocked part of sleepq_add until the thread is queued its link stays cleared. */
  ghost predicate LinksCleared(m: Machine, next: seq<int>) {
    |next| == |m.calls| && forall t: Tid :: t < |m.calls| && m.calls[t].Prepared? ==> next[t] == -1
  }

  /** The locals of the cpu that holds the sleep queue's lock: the thread it is waking, and
      in sleepq_wake_all how far the search of the chain has come. */
  ghost predicate LocalsOk(lock: SleepqLock, waiting: seq<Tid>, sleepsOn: seq<nat>, size: nat,
                           wake: Tid, prev: int, first: int, k: nat)
  {
    && size > 0
    && (lock.Waking? ==> wake == lock.w)
    && (lock.BetweenWakes? || (lock.Waking? && lock.all) ==>
          SearchedTo(ChainOf(waiting, sleepsOn, size, Hash(lock.r, size)), sleepsOn, lock.r, prev, first, k))
  }

  predicate WakesUp(step: Step) {
    step.WakeBegin? || step.VUnlink? || step.WakeEnd? || step.WakeAllBegin? || step.WakeAllNext?
  }

  /** The thread, besides queued ones, whose link a step may write. */
  function Own(m: Machine, step: Step): Tid
    requires Shaped(m)
  {
    match step
    case InitSlot(t) => t
    case Start(t) => t
    case Reschedule(c) => if c < |m.sys.current| then On(m, c) else IDLE_THREAD_TID
    case AddPrepare(c, r) => if c < |m.sys.current| then On(m, c) else IDLE_THREAD_TID
    case PPrepare(c) => if c < |m.sys.current| then On(m, c) else IDLE_THREAD_TID
    case AddLink(c) => if c < |m.sys.current| then On(m, c) else IDLE_THREAD_TID
    case WakeEnd(c) => if m.sleepq.Waking? then m.sleepq.w else IDLE_THREAD_TID
    case _ => IDLE_THREAD_TID
  }

  lemma PreparedAfter(m: Machine, step: Step, t: Tid)
    requires Inv(m) && Enabled(m, step) && t < |Apply(m, step).calls| && Apply(m, step).calls[t].Prepared?
    ensures t < |m.calls| && t !in m.sys.ready && t !in m.sys.waiting
    ensures if (step.AddPrepare? || step.PPrepare?) && t == Own(m, step) then true
            else m.calls[t].Prepared? && t != Own(m, step)
  {
    hide SemOk, QueuesOk, UserOk;
    assert ThreadOk(m, t);
  }

  lemma LinksAfter(m: Machine, step: Step, next: seq<int>, next': seq<int>)
    requires Inv(m) && Enabled(m, step) && LinksCleared(m, next)
    requires LinksKept(next, next', m.sys.ready, m.sys.waiting, Own(m, step))
    requires step.AddPrepare? || step.PPrepare? ==> Own(m, step) < |next'| && next'[Own(m, step)] == -1
    ensures LinksCleared(Apply(m, step), next')
  {
    hide Inv, Enabled, Apply, Own;
    CallsKept(m, step);
    var n := Apply(m, step);
    forall t: Tid | t < |n.calls| && n.calls[t].Prepared? ensures next'[t] == -1 {
      PreparedAfter(m, step, t);
    }
  }

  lemma CallsKept(m: Machine, step: Step)
    requires Inv(m) && Enabled(m, step)
    ensures Shaped(m) && |Apply(m, step).calls| == |m.calls|
    ensures !WakesUp(step) ==> Apply(m, step).sleepq == m.sleepq
  {
    hide QueuesOk, IdleOk, SemOk, ThreadOk, SleepqOk;
  }

  /** What the other cpus do leaves the locals of a wake-up right. */
  lemma LocalsAfter(m: Machine, step: Step, size: nat, wake: Tid, prev: int, first: int, k: nat)
    requires Inv(m) && Enabled(m, step) && !WakesUp(step)
    requires LocalsOk(m.sleepq, m.sys.waiting, m.sys.sleepsOn, size, wake, prev, first, k)
    ensures var n := Apply(m, step);
            LocalsOk(n.sleepq, n.sys.waiting, n.sys.sleepsOn, size, wake, prev, first, k)
  {
    hide Inv, Apply, ChainOf, Hash, SearchedTo;
    CallsKept(m, step);
    var n := Apply(m, step);
    ThreadsKept(m, step);
    SleepsOnKept(m, step);
    if m.sleepq != Unlocked {
      SearchKeptIf(m.sys.waiting, m.sys.sleepsOn, n.sys.sleepsOn, size, Hash(m.sleepq.r, size), m.sleepq.r, prev, first, k);
    }
  }

  lemma SearchKeptIf(waiting: seq<Tid>, s: seq<nat>, s': seq<nat>, size: nat, h: nat, r: nat, prev: int, first: int, k: nat)
    requires size > 0 && |s| == |s'|
    requires forall t :: t in waiting && t < |s| ==> s'[t] == s[t]
    ensures SearchedTo(ChainOf(waiting, s, size, h), s, r, prev, first, k) ==>
              SearchedTo(ChainOf(waiting, s', size, h), s', r, prev, first, k)
  {
    if SearchedTo(ChainOf(waiting, s, size, h), s, r, prev, first, k) {
      SearchKept(waiting, s, s', size, h, r, prev, first, k);
    }
  }

  /** thread_create takes the free slot nearest to next_tid. */
  ghost predicate PicksSlot(m: Machine, step: Step, nextTid: nat) {
    step.Create? && nextTid < |m.sys.state| && step.t < |m.sys.state| ==>
      forall t :: 0 < t < |m.sys.state| && m.sys.state[t] == FREE ==>
        Distance(nextTid, step.t, |m.sys.state|) <= Distance(nextTid, t, |m.sys.state|)
  }

  lemma NearestIsUnique(n: nat, t: nat, u: nat, size: nat)
    requires n < size && t < size && u < size && Distance(n, t, size) == Distance(n, u, size)
    ensures t == u
  {
  }

  class Cpus {
    const table: ThreadTable
    var wake: Tid
    var prev: int
    var first: int
    ghost var k: nat

    ghost predicate Agrees(m: Machine)
      reads this, table, table.state, table.sleepsOn, table.next, table.hashtable, table.current
    {
      && table.Valid() && table.Abs() == m.sys
      && LinksCleared(m, table.next[..])
      && LocalsOk(m.sleepq, m.sys.waiting, m.sys.sleepsOn, table.hashtable.Length, wake, prev, first, k)
    }

    constructor (m: Machine, slots: nat)
      requires Boot(m) && 0 < slots
      ensures Agrees(m) && fresh(table) && table.nextTid == 0
      ensures fresh(table.state) && fresh(table.sleepsOn) && fresh(table.next) && fresh(table.hashtable) && fresh(table.current)
    {
      table := new ThreadTable(|m.sys.state|, |m.sys.current|, slots);
      wake, prev, first, k := IDLE_THREAD_TID, -1, -1, 0;
      new;
      var s := m.sys;
      assert s.state == seq(|s.state|, t => if t == 0 then READY else FREE);
      assert s.sleepsOn == seq(|s.state|, t => 0) && s.current == seq(|s.current|, c => 0);
    }

    /** What is left to show once the code of a step has run. */
    lemma StepDone(m: Machine, step: Step, next0: seq<int>)
      requires Inv(m) && Enabled(m, step) && LinksCleared(m, next0)
      requires table.Valid() && table.Abs() == Apply(m, step).sys
      requires LinksKept(next0, table.next[..], m.sys.ready, m.sys.waiting, Own(m, step))
      requires step.AddPrepare? || step.PPrepare? ==> Own(m, step) < table.next.Length && table.next[Own(m, step)] == -1
      requires if WakesUp(step)
               then LocalsOk(Apply(m, step).sleepq, table.waiting, table.sleepsOn[..], table.hashtable.Length, wake, prev, first, k)
               else LocalsOk(m.sleepq, m.sys.waiting, m.sys.sleepsOn, table.hashtable.Length, wake, prev, first, k)
      ensures Agrees(Apply(m, step))
    {
      hide Inv, Apply, Enabled, Own, ThreadTable.Valid, LinksCleared, LinksKept, LocalsOk;
      LinksAfter(m, step, next0, table.next[..]);
      if !WakesUp(step) {
        LocalsAfter(m, step, table.hashtable.Length, wake, prev, first, k);
      }
    }

    lemma NextTidBound()
      requires table.Valid()
      ensures table.nextTid < table.state.Length
    {
    }

    method PerformCreate(m: Machine, t: Tid)
      requires Agrees(m) && Inv(m) && Enabled(m, Create(t)) && PicksSlot(m, Create(t), table.nextTid)
      modifies table`nextTid, table.state
      ensures Agrees(Apply(m, Create(t))) && table.nextTid == (t + 1) % |m.sys.state|
    {
      hide Inv, ThreadTable.Valid, LinksCleared, LocalsOk, Distance;
      ghost var n0 := table.next[..];
      NextTidBound();
      var tid := table.Create();
      assert old(table.state[..])[t] == FREE && old(table.state[..])[tid] == FREE;
      NearestIsUnique(old(table.nextTid), tid, t, |m.sys.state|);
      StepDone(m, Create(t), n0);
    }

    /** The steps of thread_create after its lock, thread_run, thread_finish and the scheduler. */
    method PerformThread(m: Machine, step: Step)
      requires Agrees(m) && Inv(m) && Enabled(m, step)
      requires step.InitSlot? || step.Start? || step.Finish? || step.Reschedule?
      modifies table`head, table`tail, table`ready, table.state, table.sleepsOn, table.next, table.current
      ensures Agrees(Apply(m, step))
    {
      hide Inv, Enabled, ThreadTable.Valid, LinksCleared, LocalsOk, SchedulePre;
      StepMeetsRequires(m, step);
      ghost var n0 := table.next[..];
      match step {
        case InitSlot(t) => table.InitSlot(t);
        case Start(t) => table.AddReady(t);
        case Finish(c) => table.Finish(c);
        case Reschedule(c) => table.Schedule(c);
      }
      StepDone(m, step, n0);
    }

    /** sleepq_add before its lock, also inside P. */
    method PerformPrepare(m: Machine, step: Step)
      requires Agrees(m) && Inv(m) && Enabled(m, step) && (step.AddPrepare? || step.PPrepare?)
      modifies table.sleepsOn, table.next
      ensures Agrees(Apply(m, step))
    {
      hide Inv, ThreadTable.Valid, LocalsOk;
      CallsKept(m, step);
      StepMeetsRequires(m, step);
      ghost var n0 := table.next[..];
      table.PrepareToSleep(step.cpu, if step.AddPrepare? then step.r else m.calls[On(m, step.cpu)].r);
      StepDone(m, step, n0);
    }

    /** The locked part of sleepq_add. */
    method PerformLink(m: Machine, c: nat)
      requires Agrees(m) && Inv(m) && Enabled(m, AddLink(c))
      modifies table`waiting, table.next, table.hashtable
      ensures Agrees(Apply(m, AddLink(c)))
    {
      hide Inv, ThreadTable.Valid, LocalsOk;
      CallsKept(m, AddLink(c));
      StepMeetsRequires(m, AddLink(c));
      ghost var n0 := table.next[..];
      assert table.sleepsOn[..] == m.sys.sleepsOn;
      assert n0[On(m, c)] == -1;
      table.LinkCurrent(c, m.calls[On(m, c)].r);
      StepDone(m, AddLink(c), n0);
    }

    /** sleepq_wake up to the point where it takes the thread table's lock, also inside V. */
    method PerformWakeBegin(m: Machine, step: Step)
      requires Agrees(m) && Inv(m) && Enabled(m, step) && (step.WakeBegin? || step.VUnlink?)
      modifies this, table`waiting, table.next, table.hashtable
      ensures Agrees(Apply(m, step))
    {
      hide Inv, ThreadTable.Valid, FirstWaiter, LinksCleared;
      ghost var n0 := table.next[..];
      if step.VUnlink? {
        VPicks(m, step.cpu, step.r);
      }
      var t := table.TakeOldest(step.r);
      if t > 0 {
        wake := t;
      }
      StepDone(m, step, n0);
    }

    /** The start of sleepq_wake_all. */
    method PerformWakeAllBegin(m: Machine, c: nat, r: nat)
      requires Agrees(m) && Inv(m) && Enabled(m, WakeAllBegin(c, r))
      modifies this
      ensures Agrees(Apply(m, WakeAllBegin(c, r)))
    {
      hide Inv, ThreadTable.Valid, LinksCleared;
      ghost var n0 := table.next[..];
      var hash := Hash(r, table.hashtable.Length);
      table.ChainStart(hash);
      prev, first, k := -1, table.hashtable[hash], 0;
      StepDone(m, WakeAllBegin(c, r), n0);
    }

    /** One turn of its loop, up to the thread table's lock, or its end. */
    method PerformWakeAllNext(m: Machine, c: nat)
      requires Agrees(m) && Inv(m) && Enabled(m, WakeAllNext(c))
      modifies this, table`waiting, table.next, table.hashtable
      ensures Agrees(Apply(m, WakeAllNext(c)))
    {
      hide Inv, ThreadTable.Valid, FirstWaiter, LinksCleared, SearchedTo;
      ghost var n0 := table.next[..];
      var hash := Hash(m.sleepq.r, table.hashtable.Length);
      prev, first, k := table.Search(hash, m.sleepq.r, prev, first, k);
      if first > 0 {
        wake := first;
        first := table.TakeAt(hash, prev, first, m.sleepq.r, k);
      }
      StepDone(m, WakeAllNext(c), n0);
    }

    /** The part of sleepq_wake and sleepq_wake_all under the thread table's lock. */
    method PerformWakeEnd(m: Machine, c: nat)
      requires Agrees(m) && Inv(m) && Enabled(m, WakeEnd(c))
      modifies table`head, table`tail, table`ready, table.state, table.sleepsOn, table.next
      ensures Agrees(Apply(m, WakeEnd(c)))
    {
      hide Inv, ThreadTable.Valid, LinksCleared, SearchedTo;
      StepMeetsRequires(m, WakeEnd(c));
      ghost var n0, s0 := table.next[..], table.sleepsOn[..];
      table.Awaken(wake);
      SearchKeptIf(table.waiting, s0, table.sleepsOn[..], table.hashtable.Length,
                   Hash(m.sleepq.r, table.hashtable.Length), m.sleepq.r, prev, first, k);
      StepDone(m, WakeEnd(c), n0);
    }

    /** One step of any cpu. */
    method Perform(m: Machine, step: Step)
      requires Agrees(m) && Inv(m) && Enabled(m, step) && PicksSlot(m, step, table.nextTid)
      modifies this, table, table.state, table.sleepsOn, table.next, table.hashtable, table.current
      ensures Agrees(Apply(m, step))
      ensures table.nextTid == if step.Create? then (step.t + 1) % |m.sys.state| else old(table.nextTid)
    {
      hide Inv, Apply, Enabled, Agrees;
      match step {
        case Create(t) => PerformCreate(m, t);
        case InitSlot(t) => PerformThread(m, step);
        case Start(t) => PerformThread(m, step);
        case Finish(c) => PerformThread(m, step);
        case Reschedule(c) => PerformThread(m, step);
        case AddPrepare(c, r) => PerformPrepare(m, step);
        case PPrepare(c) => PerformPrepare(m, step);
        case AddLink(c) => PerformLink(m, c);
        case WakeBegin(c, r) => PerformWakeBegin(m, step);
        case VUnlink(c, r) => PerformWakeBegin(m, step);
        case WakeEnd(c) => PerformWakeEnd(m, c);
        case WakeAllBegin(c, r) => PerformWakeAllBegin(m, c, r);
        case WakeAllNext(c) => PerformWakeAllNext(m, c);
        case _ => Untouched(m, step);
      }
    }

    lemma Untouched(m: Machine, step: Step)
      requires Agrees(m) && Inv(m) && Enabled(m, step)
      requires step.PBegin? || step.PRelease? || step.PReturn? || step.VBegin? || step.VRelease?
      ensures Agrees(Apply(m, step))
    {
      hide Inv, ThreadTable.Valid, LinksCleared, LocalsOk;
      StepDone(m, step, table.next[..]);
    }
  }

  /** next_tid after i steps. */
  function NextTid(steps: seq<Step>, size: nat, i: nat): nat
    requires i <= |steps| && size > 0
  {
    if i == 0 then 0
    else if steps[i - 1].Create? then (steps[i - 1].t + 1) % size
    else NextTid(steps, size, i - 1)
  }

  /** A run in which every thread_create takes the slot its search finds. */
  ghost predicate IsTableRun(ms: seq<Machine>, steps: seq<Step>) {
    && IsRun(ms, steps)
    && (forall i :: 0 <= i < |steps| ==> PicksSlot(ms[i], steps[i], NextTid(steps, |ms[0].sys.state|, i)))
  }

  /** Whatever the order in which the cpus take their steps, the table the steps are performed
      on holds at the end what the step system says; this is so after every step, since each
      beginning of a run is a run. */
  method PerformRun(ms: seq<Machine>, steps: seq<Step>, slots: nat) returns (cpus: Cpus)
    requires IsTableRun(ms, steps) && 0 < slots
    ensures cpus.table.Valid() && cpus.table.Abs() == ms[|steps|].sys
    ensures forall t: Tid :: t < |ms[|steps|].calls| && t < cpus.table.next.Length && ms[|steps|].calls[t].Prepared? ==>
              cpus.table.next[t] == -1
  {
    cpus := new Cpus(ms[0], slots);
    var i := 0;
    while i < |steps|
      invariant i <= |steps| && cpus.Agrees(ms[i])
      invariant cpus.table.nextTid == NextTid(steps, |ms[0].sys.state|, i)
    {
      Reachable(ms, steps, i);
      cpus.Perform(ms[i], steps[i]);
      i := i + 1;
    }
  }
}
