/** The process table: which slots hold running and dead processes, whose children they are,
    and in which order a process's dead children hang on its list. */
module Processes {
  import opened Collections

  type Pid = nat

  /** A slot is reserved between its allocation and the moment process_spawn has filled it
      in; spawner and parent are the spawning process, or -1 for the start-up thread. */
  datatype Proc =
    | Free
    | Reserved(spawner: int)
    | Running(parent: int)
    | Zombie(parent: int, retval: int)

  /** zombies[p] lists the dead, not yet joined children of p, the latest first. */
  datatype Table = Table(procs: seq<Proc>, zombies: seq<seq<Pid>>)

  predicate ChildOf(p: Proc, me: int) {
    (p.Running? || p.Zombie?) && p.parent == me
  }

  /** -1 or a running process. */
  predicate Alive(procs: seq<Proc>, p: int) {
    p == -1 || (0 <= p < |procs| && procs[p].Running?)
  }

  ghost predicate ProcOk(t: Table, p: Pid)
    requires |t.zombies| == |t.procs|
  {
    p < |t.procs| ==>
      match t.procs[p]
      case Free => t.zombies[p] == []
      case Reserved(spawner) => t.zombies[p] == [] && Alive(t.procs, spawner)
      case Running(parent) =>
        && Alive(t.procs, parent) && NoDuplicates(t.zombies[p])
        && (forall q: Pid :: q in t.zombies[p] <==> q < |t.procs| && t.procs[q].Zombie? && t.procs[q].parent == p)
      case Zombie(parent, retval) => t.zombies[p] == [] && Alive(t.procs, parent) && retval >= 0
  }

  ghost predicate TableOk(t: Table) {
    |t.zombies| == |t.procs| && forall p :: ProcOk(t, p)
  }

  /** The first free slot, or the size of the table. */
  function FreeSlot(procs: seq<Proc>): (i: nat)
    ensures i <= |procs|
    ensures i < |procs| ==> procs[i].Free?
    ensures forall k :: 0 <= k < i ==> !procs[k].Free?
  {
    if procs == [] || procs[0].Free? then 0 else 1 + FreeSlot(procs[1..])
  }

  function Remove(s: seq<Pid>, p: Pid): seq<Pid> {
    if s == [] then [] else if s[0] == p then s[1..] else [s[0]] + Remove(s[1..], p)
  }

  datatype Step =
    | Reserve(spawner: int)
    | Adopt(spawner: int, pid: Pid)
    | Exit(pid: Pid, retval: int)
    | Join(me: Pid, pid: Pid)

  /** Each process has one thread, and that thread is in one call at a time: it does not
      spawn twice at once, and does not exit inside a spawn. No process exits while it has
      running children. */
  predicate Enabled(t: Table, s: Step)
    requires |t.zombies| == |t.procs|
  {
    match s
    case Reserve(me) =>
      Alive(t.procs, me) && FreeSlot(t.procs) < |t.procs| && forall q | 0 <= q < |t.procs| :: t.procs[q] != Reserved(me)
    case Adopt(me, pid) => pid < |t.procs| && t.procs[pid] == Reserved(me)
    case Exit(pid, retval) =>
      && pid < |t.procs| && t.procs[pid].Running?
      && forall q | 0 <= q < |t.procs| :: t.procs[q] != Running(pid) && t.procs[q] != Reserved(pid)
    case Join(me, pid) => me < |t.procs| && t.procs[me].Running? && Joinable(t.procs, me, pid)
  }

  predicate Joinable(procs: seq<Proc>, me: Pid, pid: Pid) {
    pid < |procs| && procs[pid].Zombie? && procs[pid].parent == me
  }

  /** The exit value as it is kept: negative ones are not permitted. */
  function Clamp(retval: int): (v: nat)
    ensures retval >= 0 ==> v == retval
    ensures retval < 0 ==> v == 0
  {
    if retval < 0 then 0 else retval
  }

  function Freed(procs: seq<Proc>, zs: seq<Pid>): (r: seq<Proc>)
    ensures |r| == |procs|
    ensures forall q :: 0 <= q < |r| ==> r[q] == if q in zs then Free else procs[q]
  {
    seq(|procs|, q requires 0 <= q < |procs| => if q in zs then Free else procs[q])
  }

  function Apply(t: Table, s: Step): (r: Table)
    requires |t.zombies| == |t.procs| && Enabled(t, s)
    ensures |r.procs| == |r.zombies| == |t.procs|
  {
    match s
    case Reserve(me) => t.(procs := t.procs[FreeSlot(t.procs) := Reserved(me)])
    case Adopt(me, pid) => t.(procs := t.procs[pid := Running(me)])
    case Exit(pid, retval) =>
      var parent := t.procs[pid].parent;
      var zombies := t.zombies[pid := []];
      Table(Freed(t.procs, t.zombies[pid])[pid := Zombie(parent, Clamp(retval))],
            if 0 <= parent < |t.procs| then zombies[parent := [pid] + zombies[parent]] else zombies)
    case Join(me, pid) =>
      Table(t.procs[pid := Free], t.zombies[me := Remove(t.zombies[me], pid)])
  }

  lemma {:induction false} RemoveMembers(s: seq<Pid>, p: Pid)
    requires NoDuplicates(s)
    ensures NoDuplicates(Remove(s, p))
    ensures forall q :: q in Remove(s, p) <==> q in s && q != p
  {
    if s != [] {
      assert NoDuplicates(s[1..]) && s[0] !in s[1..];
      RemoveMembers(s[1..], p);
      assert forall q :: q in s <==> q == s[0] || q in s[1..];
    }
  }

  lemma ReserveKeeps(t: Table, me: int)
    requires TableOk(t) && Enabled(t, Reserve(me))
    ensures TableOk(Apply(t, Reserve(me)))
  {
    var r := Apply(t, Reserve(me));
    forall p: Pid ensures ProcOk(r, p) {
      assert ProcOk(t, p);
    }
  }

  lemma AdoptKeeps(t: Table, me: int, pid: Pid)
    requires TableOk(t) && Enabled(t, Adopt(me, pid))
    ensures TableOk(Apply(t, Adopt(me, pid)))
  {
    var r := Apply(t, Adopt(me, pid));
    assert ProcOk(t, pid);
    forall p: Pid ensures ProcOk(r, p) {
      assert ProcOk(t, p);
      if p == pid {
        forall q: Pid ensures !(q < |t.procs| && t.procs[q].Zombie? && t.procs[q].parent == pid) {
          assert ProcOk(t, q);
        }
      }
    }
  }

  lemma ExitKeeps(t: Table, pid: Pid, retval: int)
    requires TableOk(t) && Enabled(t, Exit(pid, retval))
    ensures TableOk(Apply(t, Exit(pid, retval)))
  {
    var r := Apply(t, Exit(pid, retval));
    assert ProcOk(t, pid);
    forall p: Pid ensures ProcOk(r, p) {
      assert ProcOk(t, p);
      if p < |t.procs| && t.procs[p].Running? && p != pid {
        ExitList(t, pid, retval, p);
      }
    }
  }

  lemma ExitList(t: Table, pid: Pid, retval: int, p: Pid)
    requires TableOk(t) && Enabled(t, Exit(pid, retval)) && p < |t.procs| && t.procs[p].Running? && p != pid
    ensures var r := Apply(t, Exit(pid, retval));
            && NoDuplicates(r.zombies[p])
            && (forall q: Pid :: q in r.zombies[p] <==> q < |r.procs| && r.procs[q].Zombie? && r.procs[q].parent == p)
  {
    var r := Apply(t, Exit(pid, retval));
    assert ProcOk(t, pid);
    assert ProcOk(t, p);
    assert pid !in t.zombies[p];
  }

  lemma JoinKeeps(t: Table, me: Pid, pid: Pid)
    requires TableOk(t) && Enabled(t, Join(me, pid))
    ensures TableOk(Apply(t, Join(me, pid)))
  {
    var r := Apply(t, Join(me, pid));
    assert ProcOk(t, me);
    RemoveMembers(t.zombies[me], pid);
    forall p: Pid ensures ProcOk(r, p) {
      assert ProcOk(t, p);
    }
  }

  lemma StepKeeps(t: Table, s: Step)
    requires TableOk(t) && Enabled(t, s)
    ensures TableOk(Apply(t, s))
  {
    match s
    case Reserve(me) => ReserveKeeps(t, me);
    case Adopt(me, pid) => AdoptKeeps(t, me, pid);
    case Exit(pid, retval) => ExitKeeps(t, pid, retval);
    case Join(me, pid) => JoinKeeps(t, me, pid);
  }
}
