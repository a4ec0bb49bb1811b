/** The abstract state of the scheduler and the sleep queue, and what each of their
    operations does to it. Threads are numbered; thread 0 is the idle thread. */
module Threads {
  import opened Collections

  type Tid = nat

  const IDLE_THREAD_TID: Tid := 0

  datatype ThreadState = FREE | RUNNING | READY | SLEEPING | NONREADY | DYING

  /** waiting lists the threads in the sleep queue in the order they were linked, whatever
      they wait for; sleepsOn is 0 for a thread that waits for nothing. */
  datatype Sys = Sys(
    state: seq<ThreadState>,
    sleepsOn: seq<nat>,
    waiting: seq<Tid>,
    ready: seq<Tid>,
    current: seq<Tid>)

  predicate IsThread(s: Sys, t: int) {
    0 < t < |s.state| == |s.sleepsOn|
  }

  /** The position of the first waiter for r, or the length of the queue. */
  function FirstWaiter(waiting: seq<Tid>, sleepsOn: seq<nat>, r: nat): (i: nat)
    ensures i <= |waiting|
    ensures i < |waiting| ==> waiting[i] < |sleepsOn| && sleepsOn[waiting[i]] == r
    ensures forall k :: 0 <= k < i && waiting[k] < |sleepsOn| ==> sleepsOn[waiting[k]] != r
  {
    if waiting == [] then 0
    else if waiting[0] < |sleepsOn| && sleepsOn[waiting[0]] == r then 0
    else 1 + FirstWaiter(waiting[1..], sleepsOn, r)
  }

  /** sleepq_add before it takes the lock: the thread notes what it will wait for. */
  function Prepare(s: Sys, t: Tid, r: nat): Sys
    requires t < |s.sleepsOn|
  {
    s.(sleepsOn := s.sleepsOn[t := r])
  }

  /** sleepq_add under the lock: the thread goes to the end of the queue. */
  function Link(s: Sys, t: Tid): Sys {
    s.(waiting := s.waiting + [t])
  }

  /** sleepq_wake before it takes the thread table lock: the oldest waiter leaves the queue. */
  function Unlink(s: Sys, r: nat): Sys
    requires FirstWaiter(s.waiting, s.sleepsOn, r) < |s.waiting|
  {
    s.(waiting := RemoveAt(s.waiting, FirstWaiter(s.waiting, s.sleepsOn, r)))
  }

  /** sleepq_wake under the thread table lock: a thread that is already switched out
      becomes ready, one that is still running only stops waiting. */
  function Awaken(s: Sys, t: Tid): Sys
    requires t < |s.sleepsOn| == |s.state|
  {
    var s1 := s.(sleepsOn := s.sleepsOn[t := 0]);
    if s.state[t] == SLEEPING
    then s1.(state := s.state[t := READY], ready := s.ready + [t])
    else s1
  }

  /** sleepq_wake as a whole. */
  function Wake(s: Sys, r: nat): Sys
    requires |s.sleepsOn| == |s.state|
  {
    var i := FirstWaiter(s.waiting, s.sleepsOn, r);
    if i < |s.waiting| then Awaken(Unlink(s, r), s.waiting[i]) else s
  }

  /** sleepq_wake_all: oldest first, until nobody waits for r. */
  function WakeAll(s: Sys, r: nat): Sys
    requires |s.sleepsOn| == |s.state|
    decreases |s.waiting|
  {
    if FirstWaiter(s.waiting, s.sleepsOn, r) < |s.waiting| then WakeAll(Wake(s, r), r) else s
  }

  function AddReady(s: Sys, t: Tid): Sys
    requires t < |s.state|
  {
    s.(state := s.state[t := READY], ready := s.ready + [t])
  }

  /** scheduler_schedule, first half: the thread on the cpu gives it up. */
  function SwitchOut(s: Sys, cpu: nat): (r: Sys)
    requires cpu < |s.current| && s.current[cpu] < |s.state| == |s.sleepsOn|
    ensures |r.state| == |s.state| && r.current == s.current
  {
    var t := s.current[cpu];
    if s.state[t] == DYING then s.(state := s.state[t := FREE])
    else if s.sleepsOn[t] != 0 then s.(state := s.state[t := SLEEPING])
    else if t != IDLE_THREAD_TID then AddReady(s, t)
    else s.(state := s.state[t := READY])
  }

  /** scheduler_schedule, second half: the first ready thread gets the cpu, or the idle thread. */
  function Dispatch(s: Sys, cpu: nat): Sys
    requires cpu < |s.current| && 0 < |s.state|
    requires s.ready != [] ==> s.ready[0] < |s.state|
  {
    var t := if s.ready == [] then IDLE_THREAD_TID else s.ready[0];
    s.(state := s.state[t := RUNNING],
       ready := if s.ready == [] then [] else s.ready[1..],
       current := s.current[cpu := t])
  }

  function Schedule(s: Sys, cpu: nat): Sys
    requires cpu < |s.current| && s.current[cpu] < |s.state| == |s.sleepsOn|
    requires s.ready != [] ==> s.ready[0] < |s.state|
  {
    Dispatch(SwitchOut(s, cpu), cpu)
  }
}
