/** What semaphores guarantee over whole runs. */
module SemaphoreRuns {
  import opened Collections
  import opened Threads
  import opened Kernel
  import opened KernelInvariant
  import opened KernelSteps
  import opened KernelRuns
  import opened FifoOrder

  /** Whenever a semaphore's lock is free, exactly max(0, -value) threads sleep on it. */
  lemma SleepersMatchValue(ms: seq<Machine>, steps: seq<Step>, i: nat, r: nat)
    requires IsRun(ms, steps) && i < |ms| && r in ms[i].sems && ms[i].sems[r].lock == NotHeld
    ensures ms[i].sems[r].value >= 0 ==> Queue(ms[i], r) == []
    ensures ms[i].sems[r].value < 0 ==> |Queue(ms[i], r)| == -ms[i].sems[r].value
  {
    hide Apply, Enabled;
    var m := ms[i];
    Reachable(ms, steps, i);
    assert SemOk(m, r);
    QueueOfMembers(m.sys.waiting, m.sys.sleepsOn, r);
    QueueOfNoDuplicates(m.sys.waiting, m.sys.sleepsOn, r);
    SizeOfElements(Queue(m, r));
    forall t: Tid ensures t in Queue(m, r) <==> t in Ungranted(m.user, r) {
      assert ThreadOk(m, t);
    }
    assert Elements(Queue(m, r)) == Ungranted(m.user, r);
  }

  lemma {:induction false} SemsKept(ms: seq<Machine>, steps: seq<Step>, i: nat)
    requires IsRun(ms, steps) && i < |ms|
    ensures ms[i].sems.Keys == ms[0].sems.Keys
    ensures forall r :: r in ms[i].sems ==> ms[i].sems[r].init == ms[0].sems[r].init
  {
    hide Apply, Enabled, Inv;
    if i != 0 {
      SemsKept(ms, steps, i - 1);
      Reachable(ms, steps, i - 1);
      InitsKept(ms[i - 1], steps[i - 1]);
      assert forall r :: r in ms[i].sems ==> r in ms[i - 1].sems;
    }
  }

  lemma InitsKept(m: Machine, step: Step)
    requires Inv(m) && Enabled(m, step)
    ensures Apply(m, step).sems.Keys == m.sems.Keys
    ensures forall r :: r in m.sems ==> Apply(m, step).sems[r].init == m.sems[r].init
  {
    hide SemOk, ThreadOk, QueuesOk, IdleOk;
  }

  /** At every moment of every run, completed P calls never exceed the initial value plus
      the V calls, and the started P calls are the completed ones and the blocked threads. */
  lemma CompletedAtMost(ms: seq<Machine>, steps: seq<Step>, i: nat, r: nat)
    requires IsRun(ms, steps) && i < |ms| && r in ms[i].sems
    ensures r in ms[0].sems && ms[i].sems[r].init == ms[0].sems[r].value
    ensures ms[i].sems[r].done <= ms[0].sems[r].value + ms[i].sems[r].vs
    ensures ms[i].sems[r].ps == ms[i].sems[r].done + |BlockedOn(ms[i].user, r)|
  {
    hide Apply, Enabled;
    Reachable(ms, steps, i);
    SemsKept(ms, steps, i);
    assert r in ms[i].sems.Keys;
    var user := ms[i].user;
    assert SemOk(ms[i], r);
    assert Ungranted(user, r) <= BlockedOn(user, r);
    SubsetIsSmaller(Ungranted(user, r), BlockedOn(user, r));
  }

  /** The step is the hand-off in which a V on r picks t. */
  predicate HandsOff(m: Machine, step: Step, r: nat, t: Tid) {
    step.VUnlink? && step.r == r && Queue(m, r) != [] && Queue(m, r)[0] == t
  }

  lemma StepGrants(m: Machine, step: Step, r: nat, t: Tid)
    requires Inv(m) && Enabled(m, step) && t < |m.user| && m.user[t] == Blocked(r, false)
    ensures t < |Apply(m, step).user|
    ensures Apply(m, step).user[t] == if HandsOff(m, step, r, t) then Blocked(r, true) else Blocked(r, false)
  {
    hide QueuesOk, IdleOk, SemOk, SleepqOk, QueueOf, RemoveAt;
    if step.PReturn? {
      assert ThreadOk(m, On(m, step.cpu));
      assert On(m, step.cpu) in m.sys.current;
    }
    if step.VUnlink? {
      VPicks(m, step.cpu, step.r);
      FirstWaiterIsOldest(m.sys.waiting, m.sys.sleepsOn, step.r);
    }
  }

  /** A P call that had to wait returns only after a V has picked its thread as the oldest
      waiter: between the two steps there is the hand-off. */
  lemma {:induction false} ReturnsOnlyByHandOff(ms: seq<Machine>, steps: seq<Step>, r: nat, t: Tid, i: nat, j: nat)
      returns (k: nat)
    requires IsRun(ms, steps) && i <= j < |steps|
    requires t < |ms[i].user| && ms[i].user[t] == Blocked(r, false)
    requires steps[j].PReturn? && steps[j].cpu < |ms[j].sys.current| && On(ms[j], steps[j].cpu) == t
    ensures i <= k < j && HandsOff(ms[k], steps[k], r, t)
    decreases j - i
  {
    hide Apply, Enabled, SemOk, SleepqOk, QueuesOk, HandsOff;
    Reachable(ms, steps, i);
    StepGrants(ms[i], steps[i], r, t);
    if i == j {
      BlockedCannotReturn(ms[j], steps[j].cpu);
    } else if HandsOff(ms[i], steps[i], r, t) {
      k := i;
    } else {
      k := ReturnsOnlyByHandOff(ms, steps, r, t, i + 1, j);
    }
  }

  lemma BlockedCannotReturn(m: Machine, c: nat)
    requires Inv(m) && Enabled(m, PReturn(c))
    ensures m.user[On(m, c)].granted && m.sys.sleepsOn[On(m, c)] == 0 && On(m, c) !in m.sys.waiting
  {
    assert ThreadOk(m, On(m, c));
    assert On(m, c) in m.sys.current;
  }

  /** Every V on r is done by a thread that is inside, between its P and its V. */
  predicate VFollowsP(ms: seq<Machine>, steps: seq<Step>, r: nat)
    requires |ms| == |steps| + 1
  {
    forall i :: 0 <= i < |steps| && steps[i].VBegin? && steps[i].r == r ==>
      Shaped(ms[i]) && Enabled(ms[i], steps[i]) && On(ms[i], steps[i].cpu) in ms[i].sems[r].inside
  }

  lemma InsideStep(m: Machine, step: Step, r: nat)
    requires Inv(m) && Enabled(m, step) && r in m.sems
    requires |m.sems[r].inside| + m.sems[r].vs <= m.sems[r].done
    requires step.VBegin? && step.r == r ==> On(m, step.cpu) in m.sems[r].inside
    ensures r in Apply(m, step).sems
    ensures var s := Apply(m, step).sems[r]; |s.inside| + s.vs <= s.done
  {
    hide SemOk, ThreadOk, QueuesOk, IdleOk;
  }

  lemma {:induction false} InsideCount(ms: seq<Machine>, steps: seq<Step>, i: nat, r: nat)
    requires IsRun(ms, steps) && VFollowsP(ms, steps, r) && i < |ms| && r in ms[0].sems
    ensures r in ms[i].sems && |ms[i].sems[r].inside| + ms[i].sems[r].vs <= ms[i].sems[r].done
  {
    hide Apply, Enabled, Inv;
    if i != 0 {
      InsideCount(ms, steps, i - 1, r);
      Reachable(ms, steps, i - 1);
      InsideStep(ms[i - 1], steps[i - 1], r);
    }
  }

  /** A semaphore created with value n lets at most n threads be between P and V at once. */
  lemma AtMostInitInside(ms: seq<Machine>, steps: seq<Step>, i: nat, r: nat)
    requires IsRun(ms, steps) && VFollowsP(ms, steps, r) && i < |ms| && r in ms[0].sems
    ensures r in ms[i].sems && |ms[i].sems[r].inside| <= ms[0].sems[r].value
  {
    hide Apply, Enabled, Inv, BlockedOn;
    InsideCount(ms, steps, i, r);
    CompletedAtMost(ms, steps, i, r);
  }

  /** Mutual exclusion: a semaphore created with 1 lets only one thread in. */
  lemma MutualExclusion(ms: seq<Machine>, steps: seq<Step>, i: nat, r: nat, t: Tid, u: Tid)
    requires IsRun(ms, steps) && VFollowsP(ms, steps, r) && i < |ms|
    requires r in ms[0].sems && ms[0].sems[r].value == 1
    requires r in ms[i].sems && t in ms[i].sems[r].inside && u in ms[i].sems[r].inside
    ensures t == u
  {
    hide Apply, Enabled, Inv;
    AtMostInitInside(ms, steps, i, r);
    if t != u {
      SubsetIsSmaller({t, u}, ms[i].sems[r].inside);
    }
  }
}
