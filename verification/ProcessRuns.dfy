/** What joins return and when slots are freed, over whole runs of the process table. */
module ProcessRuns {
  import opened Processes

  predicate Start(t: Table) {
    |t.zombies| == |t.procs| && forall p :: 0 <= p < |t.procs| ==> t.procs[p] == Free && t.zombies[p] == []
  }

  predicate IsRun(ts: seq<Table>, steps: seq<Step>) {
    && |ts| == |steps| + 1 && Start(ts[0])
    && forall i :: 0 <= i < |steps| ==>
         |ts[i].zombies| == |ts[i].procs| && Enabled(ts[i], steps[i]) && ts[i + 1] == Apply(ts[i], steps[i])
  }

  /** In every run each live process's list holds exactly its exited children, each once, and
      nobody's parent is dead or free. */
  lemma {:induction false} AlwaysOk(ts: seq<Table>, steps: seq<Step>, i: nat)
    requires IsRun(ts, steps) && i < |ts|
    ensures TableOk(ts[i]) && |ts[i].procs| == |ts[0].procs|
  {
    hide Apply, Enabled, ProcOk;
    if i == 0 {
      StartOk(ts[0]);
    } else {
      AlwaysOk(ts, steps, i - 1);
      StepKeeps(ts[i - 1], steps[i - 1]);
    }
  }

  lemma StartOk(t: Table)
    requires Start(t)
    ensures TableOk(t)
  {
  }

  /** Exactly what each step does to each slot. */
  lemma SlotStep(t: Table, s: Step, p: Pid)
    requires TableOk(t) && Enabled(t, s) && p < |t.procs|
    ensures var q := Apply(t, s).procs[p];
            match t.procs[p]
            case Free => if Allocates(t, s, p) then q == Reserved(s.spawner) else q == Free
            case Reserved(spawner) => q == if s == Adopt(spawner, p) then Running(spawner) else t.procs[p]
            case Running(parent) =>
              if Exits(s, p) then q == Zombie(parent, if s.retval < 0 then 0 else s.retval) else q == t.procs[p]
            case Zombie(parent, v) => q == if Joins(s, p) || (s.Exit? && s.pid == parent) then Free else t.procs[p]
  {
    if s.Exit? {
      assert ProcOk(t, s.pid);
    }
  }

  predicate Joins(s: Step, p: Pid) {
    s.Join? && s.pid == p
  }

  predicate Exits(s: Step, p: Pid) {
    s.Exit? && s.pid == p
  }

  predicate Allocates(t: Table, s: Step, p: Pid) {
    s.Reserve? && FreeSlot(t.procs) == p
  }

  predicate Frees(t: Table, s: Step, p: Pid)
    requires |t.zombies| == |t.procs| && Enabled(t, s)
  {
    p < |t.procs| && !t.procs[p].Free? && Apply(t, s).procs[p].Free?
  }

  /** If a slot is free at i and not free at j, a spawn has allocated it in between. */
  lemma {:induction false} AllocatedBetween(ts: seq<Table>, steps: seq<Step>, p: Pid, i: nat, j: nat) returns (k: nat)
    requires IsRun(ts, steps) && i <= j < |ts| && p < |ts[i].procs| && ts[i].procs[p].Free?
    requires p < |ts[j].procs| && !ts[j].procs[p].Free?
    ensures i <= k < j && Allocates(ts[k], steps[k], p)
    decreases j - i
  {
    hide Apply, Enabled, ProcOk;
    AlwaysOk(ts, steps, i);
    AlwaysOk(ts, steps, j);
    AlwaysOk(ts, steps, i + 1);
    SlotStep(ts[i], steps[i], p);
    if ts[i + 1].procs[p].Free? {
      k := AllocatedBetween(ts, steps, p, i + 1, j);
    } else {
      AllocatesIt(ts[i], steps[i], p);
      k := i;
    }
  }

  lemma AllocatesIt(t: Table, s: Step, p: Pid)
    requires TableOk(t) && Enabled(t, s) && p < |t.procs| && t.procs[p].Free? && !Apply(t, s).procs[p].Free?
    ensures Allocates(t, s, p)
  {
  }

  /** A slot is freed once per use: between two frees it was allocated again. */
  lemma FreedOncePerUse(ts: seq<Table>, steps: seq<Step>, p: Pid, i: nat, j: nat) returns (k: nat)
    requires IsRun(ts, steps) && i < j < |steps|
    requires Frees(ts[i], steps[i], p) && Frees(ts[j], steps[j], p)
    ensures i < k < j && Allocates(ts[k], steps[k], p)
  {
    hide Apply, Enabled, ProcOk;
    k := AllocatedBetween(ts, steps, p, i + 1, j);
  }

  /** If a slot is free at i and a zombie at j, its process has exited in between, with the
      value the zombie holds, after the spawn that allocated it. */
  lemma {:induction false} ExitedBetween(ts: seq<Table>, steps: seq<Step>, p: Pid, i: nat, j: nat) returns (k: nat)
    requires IsRun(ts, steps) && i <= j < |ts| && p < |ts[i].procs| && !ts[i].procs[p].Zombie?
    requires p < |ts[j].procs| && ts[j].procs[p].Zombie?
    ensures i <= k < j && Exits(steps[k], p)
    ensures steps[k].retval >= 0 ==> ts[j].procs[p].retval == steps[k].retval
    ensures steps[k].retval < 0 ==> ts[j].procs[p].retval == 0
    ensures forall l :: k < l < j ==> !Exits(steps[l], p)
    decreases j - i
  {
    hide Apply, Enabled, ProcOk;
    AlwaysOk(ts, steps, i);
    AlwaysOk(ts, steps, j);
    AlwaysOk(ts, steps, j - 1);
    SlotStep(ts[j - 1], steps[j - 1], p);
    if ts[j - 1].procs[p].Zombie? {
      NoExitOfZombie(ts[j - 1], steps[j - 1], p);
      k := ExitedBetween(ts, steps, p, i, j - 1);
    } else {
      k := j - 1;
    }
  }

  lemma NoExitOfZombie(t: Table, s: Step, p: Pid)
    requires TableOk(t) && Enabled(t, s) && p < |t.procs| && t.procs[p].Zombie?
    ensures !Exits(s, p)
  {
  }

  /** process_join returns the value given to process_finish at the last exit of that pid,
      but 0 for a negative one. */
  lemma JoinReturnsLastExit(ts: seq<Table>, steps: seq<Step>, p: Pid, j: nat) returns (k: nat)
    requires IsRun(ts, steps) && j < |steps| && Joins(steps[j], p)
    ensures p < |ts[j].procs| && ts[j].procs[p].Zombie?
    ensures k < j && Exits(steps[k], p)
    ensures steps[k].retval >= 0 ==> ts[j].procs[p].retval == steps[k].retval
    ensures steps[k].retval < 0 ==> ts[j].procs[p].retval == 0
    ensures forall l :: k < l < j ==> !Exits(steps[l], p)
  {
    hide Apply, ProcOk;
    AlwaysOk(ts, steps, j);
    AlwaysOk(ts, steps, 0);
    k := ExitedBetween(ts, steps, p, 0, j);
  }

  /** Each exit value is returned by at most one join: between two joins of the same pid the
      slot was allocated anew, and the new process has exited. */
  lemma ValueJoinedOnce(ts: seq<Table>, steps: seq<Step>, p: Pid, i: nat, j: nat) returns (a: nat, e: nat)
    requires IsRun(ts, steps) && i < j < |steps| && Joins(steps[i], p) && Joins(steps[j], p)
    ensures i < a < e < j && Allocates(ts[a], steps[a], p) && Exits(steps[e], p)
    ensures steps[e].retval >= 0 ==> ts[j].procs[p].retval == steps[e].retval
    ensures steps[e].retval < 0 ==> ts[j].procs[p].retval == 0
  {
    hide ProcOk;
    AlwaysOk(ts, steps, i);
    AlwaysOk(ts, steps, i + 1);
    AlwaysOk(ts, steps, j);
    assert ts[i + 1].procs[p] == Free;
    a := AllocatedBetween(ts, steps, p, i + 1, j);
    AlwaysOk(ts, steps, a);
    AlwaysOk(ts, steps, a + 1);
    assert ts[a + 1].procs[p].Reserved?;
    e := ExitedBetween(ts, steps, p, a + 1, j);
  }
}
