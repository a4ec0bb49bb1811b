/** Runs of the kernel: every state any interleaving can reach keeps the invariant. */
module KernelRuns {
  import opened Threads
  import opened Kernel
  import opened KernelInvariant
  import opened KernelSteps

  /** The kernel after start-up: every cpu runs the idle thread, and the semaphores have
      their initial values. */
  predicate Boot(m: Machine) {
    && Shaped(m)
    && m.sys.ready == [] && m.sys.waiting == []
    && (forall c :: 0 <= c < |m.sys.current| ==> m.sys.current[c] == IDLE_THREAD_TID)
    && (forall t :: 0 <= t < |m.sys.state| ==>
          && m.sys.state[t] == (if t == IDLE_THREAD_TID then READY else FREE)
          && m.sys.sleepsOn[t] == 0 && m.calls[t] == NoCall && m.user[t] == Outside)
    && m.sleepq == Unlocked
    && (forall r <- m.sems ::
          && r != 0 && m.sems[r].value == m.sems[r].init && m.sems[r].lock == NotHeld
          && m.sems[r].ps == m.sems[r].vs == m.sems[r].done == 0 && m.sems[r].inside == {})
  }

  predicate IsRun(ms: seq<Machine>, steps: seq<Step>) {
    && |ms| == |steps| + 1
    && Boot(ms[0])
    && forall i :: 0 <= i < |steps| ==> Shaped(ms[i]) && Enabled(ms[i], steps[i]) && ms[i + 1] == Apply(ms[i], steps[i])
  }

  lemma BootInv(m: Machine)
    requires Boot(m)
    ensures Inv(m)
  {
    forall r | r in m.sems ensures SemOk(m, r) {
      assert BlockedOn(m.user, r) == {};
      assert Ungranted(m.user, r) == {};
    }
  }

  /** Every state of every run, whatever the order in which the cpus take their steps. */
  lemma {:induction false} Reachable(ms: seq<Machine>, steps: seq<Step>, i: nat)
    requires IsRun(ms, steps) && i < |ms|
    ensures Inv(ms[i])
  {
    hide Inv, Apply, Enabled;
    if i == 0 {
      BootInv(ms[0]);
    } else {
      Reachable(ms, steps, i - 1);
      StepKeeps(ms[i - 1], steps[i - 1]);
    }
  }
}
