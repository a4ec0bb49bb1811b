/** The kernel's threads as a step system: several cpus interleave, and one step is what
    a cpu does while it holds one spinlock. Raw sleep queue users and semaphores share the
    sleep queue; a resource is a semaphore exactly when it is in sems. */
module Kernel {
  import opened Threads

  /** Where a running thread is on its way into the sleep queue; its interrupts are off. */
  datatype Call =
    | NoCall
    | PTaken(r: nat)               // in semaphore_P, the value is below zero
    | Prepared(r: nat, sem: bool)  // in sleepq_add, before its lock
    | Linked(r: nat)               // in semaphore_P, queued, semaphore still locked
    | Switching                    // queued, all locks released, about to switch

  /** A thread is in P from its call to its return once it has to wait; granted when a V
      has picked it. */
  datatype User = Outside | Blocked(r: nat, granted: bool)

  /** The sleep queue lock. Waking: w has left the queue and is about to be woken; all says
      whether this is sleepq_wake_all, which keeps the lock between two waiters. */
  datatype SleepqLock =
    | Unlocked
    | Waking(cpu: nat, r: nat, w: Tid, all: bool)
    | BetweenWakes(cpu: nat, r: nat)

  datatype Phase = MustWake | InWake | Woke

  datatype SemLock = NotHeld | HeldByP(t: Tid) | HeldByV(cpu: nat, phase: Phase)

  /** value is the semaphore's field; the rest counts history: started P calls, V calls,
      returned P calls, and the threads that are past P and have not yet done their V. */
  datatype Sem = Sem(value: int, lock: SemLock, init: nat, ps: nat, vs: nat, done: nat, inside: set<Tid>)

  /** busy: the cpu is inside a wake-up or a V, with interrupts off. */
  datatype Machine = Machine(
    sys: Sys,
    calls: seq<Call>,
    user: seq<User>,
    sleepq: SleepqLock,
    sems: map<nat, Sem>,
    busy: seq<bool>)

  datatype Step =
    | Create(t: Tid)                 // the locked part of thread_create
    | InitSlot(t: Tid)               // the writes it makes to the new slot afterwards
    | Start(t: Tid)
    | Finish(cpu: nat)
    | Reschedule(cpu: nat)
    | AddPrepare(cpu: nat, r: nat)
    | AddLink(cpu: nat)
    | WakeBegin(cpu: nat, r: nat)
    | WakeEnd(cpu: nat)
    | WakeAllBegin(cpu: nat, r: nat)
    | WakeAllNext(cpu: nat)
    | PBegin(cpu: nat, r: nat)
    | PPrepare(cpu: nat)
    | PRelease(cpu: nat)
    | PReturn(cpu: nat)
    | VBegin(cpu: nat, r: nat)
    | VUnlink(cpu: nat, r: nat)
    | VRelease(cpu: nat, r: nat)

  predicate Shaped(m: Machine) {
    && 0 < |m.sys.state| == |m.sys.sleepsOn| == |m.user| == |m.calls|
    && |m.sys.current| == |m.busy|
    && (forall c :: 0 <= c < |m.sys.current| ==> m.sys.current[c] < |m.sys.state|)
  }

  /** The thread on a cpu. */
  function On(m: Machine, cpu: nat): Tid
    requires cpu < |m.sys.current|
  {
    m.sys.current[cpu]
  }

  /** The cpu takes interrupts: its thread may be switched out, or an interrupt handler may
      wake other threads. */
  predicate InterruptsOn(m: Machine, cpu: nat)
    requires Shaped(m)
  {
    cpu < |m.busy| && !m.busy[cpu] && (m.calls[On(m, cpu)] == NoCall || m.calls[On(m, cpu)] == Switching)
  }

  /** The cpu runs a thread that may start any operation. */
  predicate RunsFreely(m: Machine, cpu: nat)
    requires Shaped(m)
  {
    && InterruptsOn(m, cpu) && m.calls[On(m, cpu)] == NoCall && On(m, cpu) != IDLE_THREAD_TID
    && m.sys.state[On(m, cpu)] == RUNNING && m.user[On(m, cpu)] == Outside
  }

  predicate Enabled(m: Machine, step: Step)
    requires Shaped(m)
  {
    match step
    case Create(t) => IsThread(m.sys, t) && m.sys.state[t] == FREE
    case InitSlot(t) => IsThread(m.sys, t) && m.sys.state[t] == NONREADY
    case Start(t) => IsThread(m.sys, t) && m.sys.state[t] == NONREADY
    case Finish(c) => RunsFreely(m, c)
    case Reschedule(c) =>
      InterruptsOn(m, c) && (m.sys.ready != [] ==> m.sys.ready[0] < |m.sys.state|)
    case AddPrepare(c, r) => RunsFreely(m, c) && r != 0 && r !in m.sems
    case AddLink(c) => c < |m.busy| && m.calls[On(m, c)].Prepared? && m.sleepq == Unlocked
    case WakeBegin(c, r) => InterruptsOn(m, c) && r != 0 && r !in m.sems && m.sleepq == Unlocked
    case WakeEnd(c) => c < |m.busy| && m.sleepq.Waking? && m.sleepq.cpu == c && m.sleepq.w < |m.sys.state|
    case WakeAllBegin(c, r) => InterruptsOn(m, c) && r != 0 && r !in m.sems && m.sleepq == Unlocked
    case WakeAllNext(c) => c < |m.busy| && m.sleepq.BetweenWakes? && m.sleepq.cpu == c
    case PBegin(c, r) => RunsFreely(m, c) && r in m.sems && m.sems[r].lock == NotHeld
    case PPrepare(c) => c < |m.busy| && m.calls[On(m, c)].PTaken?
    case PRelease(c) => c < |m.busy| && m.calls[On(m, c)].Linked? && m.calls[On(m, c)].r in m.sems
    case PReturn(c) =>
      && InterruptsOn(m, c) && m.calls[On(m, c)] == NoCall && On(m, c) != IDLE_THREAD_TID
      && m.user[On(m, c)].Blocked? && m.user[On(m, c)].r in m.sems
    case VBegin(c, r) => InterruptsOn(m, c) && r in m.sems && m.sems[r].lock == NotHeld
    case VUnlink(c, r) =>
      && c < |m.busy| && r in m.sems && m.sems[r].lock == HeldByV(c, MustWake) && m.sleepq == Unlocked
    case VRelease(c, r) => c < |m.busy| && r in m.sems && m.sems[r].lock == HeldByV(c, Woke)
  }

  function WithCall(m: Machine, t: Tid, call: Call): Machine
    requires t < |m.calls|
  {
    m.(calls := m.calls[t := call])
  }

  function WithSem(m: Machine, r: nat, s: Sem): Machine {
    m.(sems := m.sems[r := s])
  }

  /** A P call has returned in thread t. */
  function Entered(s: Sem, t: Tid): Sem {
    s.(done := s.done + 1, inside := s.inside + {t})
  }

  function Apply(m: Machine, step: Step): Machine
    requires Shaped(m) && Enabled(m, step)
  {
    match step
    case Create(t) => m.(sys := m.sys.(state := m.sys.state[t := NONREADY]))
    case InitSlot(t) => m.(sys := m.sys.(sleepsOn := m.sys.sleepsOn[t := 0]))
    case Start(t) => m.(sys := AddReady(m.sys, t))
    case Finish(c) => m.(sys := m.sys.(state := m.sys.state[On(m, c) := DYING]))
    case Reschedule(c) => WithCall(m, On(m, c), NoCall).(sys := Schedule(m.sys, c))
    case AddPrepare(c, r) =>
      WithCall(m, On(m, c), Prepared(r, false)).(sys := Threads.Prepare(m.sys, On(m, c), r))
    case AddLink(c) =>
      var call := m.calls[On(m, c)];
      WithCall(m, On(m, c), if call.sem then Linked(call.r) else Switching).(sys := Link(m.sys, On(m, c)))
    case WakeBegin(c, r) =>
      var i := FirstWaiter(m.sys.waiting, m.sys.sleepsOn, r);
      if i < |m.sys.waiting|
      then m.(sys := Unlink(m.sys, r), sleepq := Waking(c, r, m.sys.waiting[i], false), busy := m.busy[c := true])
      else m
    case WakeEnd(c) =>
      var r := m.sleepq.r;
      var m1 := m.(sys := Awaken(m.sys, m.sleepq.w));
      if m.sleepq.all then m1.(sleepq := BetweenWakes(c, r))
      else if r in m.sems then WithSem(m1.(sleepq := Unlocked), r, m.sems[r].(lock := HeldByV(c, Woke)))
      else m1.(sleepq := Unlocked, busy := m.busy[c := false])
    case WakeAllBegin(c, r) => m.(sleepq := BetweenWakes(c, r), busy := m.busy[c := true])
    case WakeAllNext(c) =>
      var r := m.sleepq.r;
      var i := FirstWaiter(m.sys.waiting, m.sys.sleepsOn, r);
      if i < |m.sys.waiting|
      then m.(sys := Unlink(m.sys, r), sleepq := Waking(c, r, m.sys.waiting[i], true))
      else m.(sleepq := Unlocked, busy := m.busy[c := false])
    case PBegin(c, r) =>
      var t := On(m, c);
      var s := m.sems[r].(value := m.sems[r].value - 1, ps := m.sems[r].ps + 1);
      if s.value < 0
      then WithSem(WithCall(m, t, PTaken(r)), r, s.(lock := HeldByP(t))).(user := m.user[t := Blocked(r, false)])
      else WithSem(m, r, Entered(s, t))
    case PPrepare(c) =>
      var r := m.calls[On(m, c)].r;
      WithCall(m, On(m, c), Prepared(r, true)).(sys := Threads.Prepare(m.sys, On(m, c), r))
    case PRelease(c) =>
      var r := m.calls[On(m, c)].r;
      WithSem(WithCall(m, On(m, c), Switching), r, m.sems[r].(lock := NotHeld))
    case PReturn(c) =>
      var r := m.user[On(m, c)].r;
      WithSem(m, r, Entered(m.sems[r], On(m, c))).(user := m.user[On(m, c) := Outside])
    case VBegin(c, r) =>
      var s := m.sems[r].(value := m.sems[r].value + 1, vs := m.sems[r].vs + 1,
                          inside := m.sems[r].inside - {On(m, c)});
      if s.value <= 0
      then WithSem(m, r, s.(lock := HeldByV(c, MustWake))).(busy := m.busy[c := true])
      else WithSem(m, r, s)
    case VUnlink(c, r) =>
      var i := FirstWaiter(m.sys.waiting, m.sys.sleepsOn, r);
      if i < |m.sys.waiting| && m.sys.waiting[i] < |m.user|
      then
        var t := m.sys.waiting[i];
        WithSem(m, r, m.sems[r].(lock := HeldByV(c, InWake)))
          .(sys := Unlink(m.sys, r), sleepq := Waking(c, r, t, false), user := m.user[t := Blocked(r, true)])
      else WithSem(m, r, m.sems[r].(lock := HeldByV(c, Woke)))
    case VRelease(c, r) => WithSem(m, r, m.sems[r].(lock := NotHeld)).(busy := m.busy[c := false])
  }
}
