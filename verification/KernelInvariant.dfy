/** What holds of the threads, the queues, the locks and the semaphores after every step. */
module KernelInvariant {
  import opened Collections
  import opened Threads
  import opened Kernel

  /** The ready list and the sleep queue hold each thread at most once and never the idle
      thread; no thread is on two cpus, except the idle thread. */
  ghost predicate QueuesOk(s: Sys) {
    && NoDuplicates(s.ready) && NoDuplicates(s.waiting)
    && (forall t :: t in s.ready ==> IsThread(s, t))
    && (forall t :: t in s.waiting ==> IsThread(s, t))
    && (forall c, d :: 0 <= c < d < |s.current| && s.current[c] == s.current[d] ==> s.current[c] == IDLE_THREAD_TID)
  }

  predicate OnCpu(st: ThreadState) {
    st == RUNNING || st == DYING
  }

  predicate MayWait(st: ThreadState) {
    st == RUNNING || st == SLEEPING
  }

  /** Some cpu has taken the thread out of the queue and is about to wake it. */
  predicate BeingWoken(m: Machine, t: Tid) {
    m.sleepq.Waking? && m.sleepq.w == t
  }

  predicate LockedBy(m: Machine, r: nat, t: Tid) {
    r in m.sems && m.sems[r].lock == HeldByP(t)
  }

  /** The state of a thread says which of the lists it is on. */
  ghost predicate PlaceOk(m: Machine, t: Tid)
    requires Shaped(m) && IsThread(m.sys, t)
  {
    var s := m.sys;
    && (t in s.ready <==> s.state[t] == READY)
    && (t in s.current <==> OnCpu(s.state[t]))
    && (t in s.waiting ==> s.sleepsOn[t] != 0)
    && (s.sleepsOn[t] != 0 ==> MayWait(s.state[t]))
    && (s.state[t] == SLEEPING ==> s.sleepsOn[t] != 0)
    && (s.sleepsOn[t] != 0 ==> t in s.waiting || m.calls[t].Prepared? || BeingWoken(m, t))
    && (m.calls[t] != NoCall ==> s.state[t] == RUNNING)
  }

  /** What the position of a thread inside a kernel call says. */
  ghost predicate CallOk(m: Machine, t: Tid)
    requires Shaped(m) && IsThread(m.sys, t)
  {
    var s := m.sys;
    match m.calls[t]
    case NoCall => s.state[t] == RUNNING ==> s.sleepsOn[t] == 0 && (m.user[t].Blocked? ==> m.user[t].granted)
    case PTaken(r) => s.sleepsOn[t] == 0 && m.user[t] == Blocked(r, false) && LockedBy(m, r, t)
    case Prepared(r, sem) =>
      && r != 0 && s.sleepsOn[t] == r && t !in s.waiting && !BeingWoken(m, t) && (sem <==> r in m.sems)
      && if sem then m.user[t] == Blocked(r, false) && LockedBy(m, r, t) else m.user[t] == Outside
    case Linked(r) => s.sleepsOn[t] == r && t in s.waiting && m.user[t] == Blocked(r, false) && LockedBy(m, r, t)
    case Switching => true
  }

  /** How being queued and being inside P go together. */
  ghost predicate UserOk(m: Machine, t: Tid)
    requires Shaped(m) && IsThread(m.sys, t)
  {
    var s := m.sys;
    && (t in s.waiting ==> m.user[t] == if s.sleepsOn[t] in m.sems then Blocked(s.sleepsOn[t], false) else Outside)
    && (m.user[t].Blocked? ==> m.user[t].r in m.sems)
    && (m.user[t].Blocked? && !m.user[t].granted ==>
          || (t in s.waiting && s.sleepsOn[t] == m.user[t].r)
          || m.calls[t] == PTaken(m.user[t].r)
          || m.calls[t] == Prepared(m.user[t].r, true))
    && (s.state[t] == FREE || s.state[t] == NONREADY || s.state[t] == DYING ==> m.user[t] == Outside)
  }

  ghost predicate ThreadOk(m: Machine, t: Tid)
    requires Shaped(m)
  {
    IsThread(m.sys, t) ==> PlaceOk(m, t) && CallOk(m, t) && UserOk(m, t)
  }

  ghost predicate IdleOk(m: Machine)
    requires Shaped(m)
  {
    m.sys.sleepsOn[0] == 0 && m.sys.state[0] != DYING && m.calls[0] == NoCall && m.user[0] == Outside
  }

  /** What holding the sleep queue lock says. */
  ghost predicate SleepqOk(m: Machine)
    requires Shaped(m)
  {
    match m.sleepq
    case Unlocked => true
    case BetweenWakes(c, r) => r !in m.sems && r != 0
    case Waking(c, r, w, all) =>
      && IsThread(m.sys, w) && r != 0 && m.sys.sleepsOn[w] == r && w !in m.sys.waiting
      && MayWait(m.sys.state[w]) && !m.calls[w].Prepared?
      && if r in m.sems then !all && m.user[w] == Blocked(r, true) && m.sems[r].lock == HeldByV(c, InWake)
         else m.user[w] == Outside
  }

  /** The threads inside P on r, and those of them no V has picked yet. */
  ghost function BlockedOn(user: seq<User>, r: nat): set<Tid> {
    set t: nat | t < |user| && user[t].Blocked? && user[t].r == r
  }

  ghost function Ungranted(user: seq<User>, r: nat): set<Tid> {
    set t: nat | t < |user| && user[t] == Blocked(r, false)
  }

  function Deficit(value: int): nat {
    if value < 0 then -value else 0
  }

  /** The books of one semaphore. Between its increment and its wake-up a V leaves one
      waiter more than the value says. */
  ghost predicate BooksOk(s: Sem, user: seq<User>, r: nat) {
    && s.value == s.init + s.vs - s.ps
    && s.done + |BlockedOn(user, r)| == s.ps
    && |Ungranted(user, r)| == (if s.lock.HeldByV? && s.lock.phase == MustWake then 1 - s.value else Deficit(s.value))
    && (s.lock.HeldByV? && s.lock.phase == MustWake ==> s.value <= 0)
  }

  ghost predicate SemOk(m: Machine, r: nat)
    requires Shaped(m) && r in m.sems
  {
    && r != 0
    && BooksOk(m.sems[r], m.user, r)
    && (m.sems[r].lock.HeldByP? ==>
          var t := m.sems[r].lock.t;
          && IsThread(m.sys, t)
          && (m.calls[t] == PTaken(r) || m.calls[t] == Prepared(r, true) || m.calls[t] == Linked(r)))
  }

  ghost predicate Inv(m: Machine) {
    && Shaped(m)
    && QueuesOk(m.sys)
    && (forall t :: ThreadOk(m, t))
    && IdleOk(m)
    && SleepqOk(m)
    && (forall r :: r in m.sems ==> SemOk(m, r))
  }
}
