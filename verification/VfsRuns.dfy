/** Shutdown and handle safety of the virtual filesystem over whole runs. */
module VfsRuns {
  import opened Vfs

  predicate Boot(s: State) {
    && (forall i :: 0 <= i < |s.rows| ==> s.rows[i] == Row(0, []))
    && (forall i :: 0 <= i < |s.files| ==> s.files[i].filesystem == 0)
    && (forall t :: 0 <= t < |s.threads| ==> s.threads[t] == Idle)
    && s.opsCount == 0 && s.usable && s.pending == 0 && s.raised == 0 && s.halter == NotHalting
  }

  predicate IsRun(ss: seq<State>, steps: seq<Step>) {
    && |ss| == |steps| + 1 && Boot(ss[0])
    && forall i :: 0 <= i < |steps| ==> Enabled(ss[i], steps[i]) && ss[i + 1] == Apply(ss[i], steps[i])
  }

  lemma BootInv(s: State)
    requires Boot(s)
    ensures Inv(s)
  {
    assert InFlight(s.threads) == {};
  }

  lemma {:induction false} Reachable(ss: seq<State>, steps: seq<Step>, i: nat)
    requires IsRun(ss, steps) && i < |ss|
    ensures Inv(ss[i])
  {
    hide Inv, Apply, Enabled;
    BootInv(ss[0]);
    if i > 0 {
      Reachable(ss, steps, i - 1);
      StepKeeps(ss[i - 1], steps[i - 1]);
    }
  }

  /** vfs_ops is the number of operations in flight at every moment, so it is never negative. */
  lemma OpsAreCounted(ss: seq<State>, steps: seq<Step>, i: nat)
    requires IsRun(ss, steps) && i < |ss|
    ensures ss[i].opsCount == |InFlight(ss[i].threads)|
    ensures i < |steps| && steps[i].EndOp? ==> ss[i + 1].opsCount >= 0
  {
    hide Apply, Enabled, HaltOk, OpensApart, SlotsMounted;
    Reachable(ss, steps, i);
    if i < |steps| {
      Reachable(ss, steps, i + 1);
    }
  }

  predicate UnmountsAll(s: State, step: Step)
  {
    (step.Halt? && s.opsCount <= 0) || step.HaltFinish?
  }

  /** vfs_deinit unmounts only when no operation is in flight: its assertion that vfs_ops is
      zero never fails. */
  lemma UnmountedOnlyWhenIdle(ss: seq<State>, steps: seq<Step>, i: nat)
    requires IsRun(ss, steps) && i < |steps| && UnmountsAll(ss[i], steps[i])
    ensures ss[i].opsCount == 0 && InFlight(ss[i].threads) == {}
  {
    hide Apply, OpensApart, SlotsMounted;
    Reachable(ss, steps, i);
  }

  /** No operation starts once the shutdown has begun. */
  lemma {:induction false} NoneStartsAfterHalt(ss: seq<State>, steps: seq<Step>, i: nat, j: nat)
    requires IsRun(ss, steps) && i <= j < |ss| && !ss[i].usable
    ensures !ss[j].usable && InFlight(ss[j].threads) <= InFlight(ss[i].threads)
    decreases j
  {
    hide Inv, Enabled, InFlight, Apply;
    if i < j {
      NoneStartsAfterHalt(ss, steps, i, j - 1);
      UnusableStep(ss[j - 1], steps[j - 1]);
    }
  }

  lemma UnusableStep(s: State, step: Step)
    requires Enabled(s, step) && !s.usable
    ensures !Apply(s, step).usable && InFlight(Apply(s, step).threads) <= InFlight(s.threads)
  {
    hide FreeRow, FreeFile, RowOf;
  }

  /** vfs_unmount_sem is raised at most once in a run, and exactly by the end of the last
      operation that was in flight when the shutdown began. */
  lemma RaisedByLast(ss: seq<State>, steps: seq<Step>, i: nat)
    requires IsRun(ss, steps) && i < |steps|
    ensures ss[i].raised <= ss[i + 1].raised <= 1
    ensures ss[i + 1].raised > ss[i].raised <==>
              steps[i].EndOp? && !ss[i].usable && InFlight(ss[i].threads) == {steps[i].t}
  {
    hide OpensApart, SlotsMounted, FreeRow, FreeFile, RowOf;
    Reachable(ss, steps, i);
    Reachable(ss, steps, i + 1);
    var s, step := ss[i], steps[i];
    if step.EndOp? {
      assert step.t in InFlight(s.threads);
      OnlyOne(InFlight(s.threads), step.t);
    }
  }

  lemma OnlyOne(a: set<nat>, x: nat)
    requires x in a
    ensures |a| == 1 <==> a == {x}
  {
    assert |a - {x}| == |a| - 1;
    if |a| == 1 {
      assert a - {x} == {};
    }
  }

  /** The shutdown never hangs on a wake-up that was lost: if it waits and nothing is in
      flight, the semaphore is up. */
  lemma WaitingEnds(ss: seq<State>, steps: seq<Step>, i: nat)
    requires IsRun(ss, steps) && i < |ss| && ss[i].halter == Waiting && InFlight(ss[i].threads) == {}
    ensures Enabled(ss[i], HaltWoken)
  {
    hide Apply, OpensApart, SlotsMounted;
    Reachable(ss, steps, i);
  }

  /** Until the shutdown is done, every open file's filesystem is mounted. */
  lemma OpenFilesAreMounted(ss: seq<State>, steps: seq<Step>, i: nat, slot: nat)
    requires IsRun(ss, steps) && i < |ss| && ss[i].halter != Done
    requires slot < |ss[i].files| && ss[i].files[slot].filesystem != 0
    ensures Mounted(ss[i].rows, ss[i].files[slot].filesystem)
  {
    hide Apply, Enabled;
    Reachable(ss, steps, i);
  }

  predicate Gives(s: State, step: Step, slot: nat) {
    step.OpenReserve? && OpenResult(s, step.volume) == slot
  }

  /** The slot is given back: by close, or by an open whose driver call failed. */
  predicate GivesBack(s: State, step: Step, slot: nat) {
    || (step.Close? && step.slot == slot)
    || (step.OpenDone? && step.t < |s.threads| && s.threads[step.t] == Opening(slot) && step.fileid < 0)
  }

  lemma HeldStep(s: State, step: Step, slot: nat)
    requires Enabled(s, step) && slot < |s.files| && s.files[slot].filesystem != 0 && !GivesBack(s, step, slot)
    ensures slot < |Apply(s, step).files| && Apply(s, step).files[slot].filesystem != 0
  {
    hide FreeRow, RowOf, UnmountAll;
  }

  lemma GivenFree(s: State, step: Step, slot: nat)
    requires Enabled(s, step) && Gives(s, step, slot)
    ensures slot < |s.files| && s.files[slot].filesystem == 0
    ensures slot < |Apply(s, step).files| && Apply(s, step).files[slot].filesystem != 0
  {
    hide FreeRow, RowOf;
  }

  /** Two opens never share a handle: between two opens that get the same slot the first one
      has given it back. */
  lemma {:induction false} HandlesNotShared(ss: seq<State>, steps: seq<Step>, slot: nat, i: nat, j: nat) returns (k: nat)
    requires IsRun(ss, steps) && i < j < |steps| && Gives(ss[i], steps[i], slot) && Gives(ss[j], steps[j], slot)
    ensures i < k < j && GivesBack(ss[k], steps[k], slot)
  {
    hide Apply, Enabled, Gives, GivesBack;
    GivenFree(ss[i], steps[i], slot);
    GivenFree(ss[j], steps[j], slot);
    k := i + 1;
    while k < j && !GivesBack(ss[k], steps[k], slot)
      invariant i < k <= j && slot < |ss[k].files| && ss[k].files[slot].filesystem != 0
    {
      HeldStep(ss[k], steps[k], slot);
      k := k + 1;
    }
  }

  lemma HeldRowStep(s: State, step: Step, slot: nat, row: nat)
    requires Enabled(s, step) && slot < |s.files| && row < |s.rows|
    requires s.rows[row].filesystem == s.files[slot].filesystem != 0
    requires !GivesBack(s, step, slot) && !UnmountsAll(s, step)
    ensures var n := Apply(s, step);
            && slot < |n.files| && n.files[slot].filesystem == s.files[slot].filesystem
            && row < |n.rows| && n.rows[row] == s.rows[row]
  {
    hide RowOf, UnmountAll;
  }

  /** From the moment an open reserves its slot until the slot is given back, and unless the
      whole system is shut down, no unmount and no mount touches the filesystem's row. */
  lemma {:induction false} HeldStaysMounted(ss: seq<State>, steps: seq<Step>, slot: nat, row: nat, i: nat, j: nat)
    requires IsRun(ss, steps) && i <= j < |ss| && slot < |ss[i].files| && row < |ss[i].rows|
    requires ss[i].rows[row].filesystem == ss[i].files[slot].filesystem != 0
    requires forall k :: i <= k < j ==> !GivesBack(ss[k], steps[k], slot) && !UnmountsAll(ss[k], steps[k])
    ensures slot < |ss[j].files| && ss[j].files[slot].filesystem == ss[i].files[slot].filesystem
    ensures row < |ss[j].rows| && ss[j].rows[row] == ss[i].rows[row]
    decreases j
  {
    hide Apply, Enabled, GivesBack, UnmountsAll;
    if i < j {
      HeldStaysMounted(ss, steps, slot, row, i, j - 1);
      HeldRowStep(ss[j - 1], steps[j - 1], slot, row);
    }
  }
}
