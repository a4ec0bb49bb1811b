/** The process table in place: child counts and doubly linked zombie lists threaded through
    the entries by index. */
module ProcessTables {
  import opened Collections
  import opened Processes

  datatype State = PROCESS_FREE | PROCESS_RUNNING | PROCESS_ZOMBIE

  datatype Entry = Entry(
    state: State,
    retval: int,
    parent: int,
    firstZombie: int,
    prevZombie: int,
    nextZombie: int,
    children: int)

  /** From first on, the entries of zs are linked both ways, and end with -1 both ways. */
  ghost predicate DoublyLinked(e: seq<Entry>, first: int, zs: seq<Pid>) {
    && (forall i :: 0 <= i < |zs| ==> zs[i] < |e|)
    && (if zs == [] then first == -1
        else first == zs[0] && e[zs[0]].prevZombie == -1 && e[zs[|zs| - 1]].nextZombie == -1)
    && (forall i, j :: 0 <= i < j == i + 1 < |zs| ==> e[zs[i]].nextZombie == zs[j] && e[zs[j]].prevZombie == zs[i])
  }

  /** The living and dead children of a process. */
  ghost function Children(procs: seq<Proc>, me: int): set<Pid> {
    set q: Pid | q < |procs| && ChildOf(procs[q], me)
  }

  ghost predicate EntryOk(e: seq<Entry>, t: Table, p: Pid)
    requires |e| == |t.procs| == |t.zombies|
  {
    p < |e| ==>
      match t.procs[p]
      case Free => e[p].state == PROCESS_FREE && e[p].parent == -1
      case Reserved(_) => e[p].state == PROCESS_RUNNING && e[p].parent == -1
      case Running(parent) =>
        && e[p].state == PROCESS_RUNNING && e[p].parent == parent && e[p].prevZombie == -1
        && e[p].children == |Children(t.procs, p)| && DoublyLinked(e, e[p].firstZombie, t.zombies[p])
      case Zombie(parent, v) =>
        e[p].state == PROCESS_ZOMBIE && e[p].parent == parent && e[p].retval == v && e[p].children == 0
  }

  ghost predicate Represents(e: seq<Entry>, t: Table) {
    |e| == |t.procs| == |t.zombies| && forall p :: EntryOk(e, t, p)
  }

  /** The entry of a new child of me. */
  function FilledIn(e: Entry, me: int): Entry {
    e.(retval := 0, firstZombie := -1, prevZombie := -1, nextZombie := -1, parent := me, children := 0)
  }

  datatype JoinResult = NoSuchChild | MustWait | Joined(retval: int)

  class ProcessTable {
    const entries: array<Entry>
    ghost var table: Table

    ghost predicate Valid()
      reads this, entries
    {
      TableOk(table) && Represents(entries[..], table)
    }

    /** process_init, with the parent fields of unused slots at -1. */
    constructor (size: nat)
      ensures Valid() && fresh(entries) && entries.Length == size
      ensures table == Table(seq(size, p => Free), seq(size, p => []))
    {
      entries := new Entry[size](p => Entry(PROCESS_FREE, 0, -1, -1, -1, -1, 0));
      table := Table(seq(size, p => Free), seq(size, p => []));
    }

    /** process_reset. */
    method Reset(pid: Pid)
      requires pid < entries.Length
      modifies entries
      ensures entries[..] == old(entries[..])[pid := old(entries[pid]).(state := PROCESS_FREE, retval := 0)]
    {
      entries[pid] := entries[pid].(state := PROCESS_FREE, retval := 0);
    }

    /** alloc_process_id. */
    method Allocate(ghost me: int) returns (pid: int)
      requires Valid() && Alive(table.procs, me)
      requires forall q :: 0 <= q < |table.procs| ==> table.procs[q] != Reserved(me)
      modifies this, entries
      ensures Valid()
      ensures pid == -1 ==> table == old(table) && FreeSlot(table.procs) == |table.procs|
      ensures pid != -1 ==>
                && pid == FreeSlot(old(table.procs)) < entries.Length
                && Enabled(old(table), Reserve(me)) && table == Apply(old(table), Reserve(me))
    {
      ghost var e0 := entries[..];
      var i := 0;
      while i < entries.Length
        invariant 0 <= i <= entries.Length && entries[..] == e0 && Valid() && table == old(table)
        invariant forall k :: 0 <= k < i ==> !table.procs[k].Free?
      {
        assert EntryOk(e0, table, i);
        if entries[i].state == PROCESS_FREE {
          Reset(i);
          entries[i] := entries[i].(state := PROCESS_RUNNING);
          assert entries[..] == e0[i := e0[i].(state := PROCESS_RUNNING, retval := 0)];
          FreeSlotAt(table.procs, i);
          ReserveKeeps(table, me);
          ReserveRepresents(e0, table, i, me);
          table := Apply(table, Reserve(me));
          return i;
        }
        i := i + 1;
      }
      NoFreeSlot(table.procs);
      return -1;
    }

    /** The rest of process_spawn: the new slot is filled in and the parent counts it. */
    method Adopt(me: int, pid: Pid)
      requires Valid() && pid < entries.Length && table.procs[pid] == Reserved(me)
      modifies this, entries
      ensures Valid() && old(Enabled(table, Step.Adopt(me, pid))) && table == Apply(old(table), Step.Adopt(me, pid))
    {
      ghost var e0 := entries[..];
      assert ProcOk(table, pid) && EntryOk(e0, table, pid);
      entries[pid] := FilledIn(entries[pid], me);
      ghost var e1 := entries[..];
      assert e1 == e0[pid := FilledIn(e0[pid], me)];
      if me >= 0 {
        entries[me] := entries[me].(children := entries[me].children + 1);
        assert entries[..] == e1[me := e1[me].(children := e1[me].children + 1)];
      }
      AdoptKeeps(table, me, pid);
      AdoptRepresents(e0, entries[..], table, me, pid);
      table := Apply(table, Step.Adopt(me, pid));
    }

    /** process_spawn, up to the start of the new thread. */
    method Spawn(me: int) returns (pid: int)
      requires Valid() && Alive(table.procs, me)
      requires forall q :: 0 <= q < |table.procs| ==> table.procs[q] != Reserved(me)
      modifies this, entries
      ensures Valid()
      ensures pid == -1 ==> table == old(table) && FreeSlot(table.procs) == |table.procs|
      ensures pid != -1 ==>
                && pid == FreeSlot(old(table.procs)) < entries.Length
                && table == old(table).(procs := old(table.procs)[pid := Running(me)])
    {
      pid := Allocate(me);
      if pid < 0 {
        return -1;
      }
      Adopt(me, pid);
    }

    /** process_join, one turn of its loop under the lock; MustWait is where it sleeps. */
    method TryJoin(me: Pid, pid: int) returns (r: JoinResult)
      requires Valid() && me < entries.Length && table.procs[me].Running?
      modifies this, entries
      ensures Valid()
      ensures r.NoSuchChild? <==> !(0 <= pid < entries.Length && ChildOf(old(table.procs)[pid], me))
      ensures r.MustWait? <==> 0 <= pid < entries.Length && old(table.procs)[pid] == Running(me)
      ensures !r.Joined? ==> table == old(table)
      ensures r.Joined? ==>
                && old(Enabled(table, Join(me, pid))) && table == Apply(old(table), Join(me, pid))
                && r.retval == old(table.procs)[pid].retval == old(entries[pid].retval)
    {
      if pid < 0 || pid >= entries.Length {
        return NoSuchChild;
      }
      ghost var e0 := entries[..];
      assert EntryOk(e0, table, pid) && ProcOk(table, pid) && EntryOk(e0, table, me) && ProcOk(table, me);
      if entries[pid].parent != me {
        return NoSuchChild;
      }
      if entries[pid].state != PROCESS_ZOMBIE {
        return MustWait;
      }
      r := Joined(entries[pid].retval);
      ZombieAt(e0, table, me, pid);
      UnlinkZombie(me, pid, table.zombies[me]);
      JoinKeeps(table, me, pid);
      JoinRepresents(e0, entries[..], table, me, pid);
      table := Apply(table, Join(me, pid));
    }

    /** What process_join does to the entries once the child is a zombie. */
    method UnlinkZombie(me: Pid, pid: Pid, ghost zs: seq<Pid>)
      requires me < entries.Length && pid < entries.Length && pid in zs
      requires Hangs(entries[..], zs, me, pid)
      modifies entries
      ensures Unlinked(old(entries[..]), entries[..], zs, me, pid)
    {
      hide Position;
      entries[pid] := entries[pid].(retval := -1);
      entries[pid] := entries[pid].(parent := -1);
      if entries[pid].children == 0 {
        entries[me] := entries[me].(children := entries[me].children - 1);
        if entries[me].firstZombie == pid {
          var next := entries[pid].nextZombie;
          entries[me] := entries[me].(firstZombie := next);
          if next >= 0 {
            entries[next] := entries[next].(prevZombie := -1);
          }
        } else {
          var prev, next := entries[pid].prevZombie, entries[pid].nextZombie;
          entries[prev] := entries[prev].(nextZombie := next);
          if next >= 0 {
            entries[next] := entries[next].(prevZombie := prev);
          }
        }
        Reset(pid);
      }
    }

    /** process_finish, as far as the table is concerned. */
    method Finish(pid: Pid, retval: int)
      requires Valid() && pid < entries.Length && table.procs[pid].Running?
      requires forall q :: 0 <= q < |table.procs| ==> table.procs[q] != Running(pid) && table.procs[q] != Reserved(pid)
      modifies this, entries
      ensures Valid() && old(Enabled(table, Exit(pid, retval))) && table == Apply(old(table), Exit(pid, retval))
      ensures entries[pid].state == PROCESS_ZOMBIE && entries[pid].retval == if retval < 0 then 0 else retval
    {
      hide Represents, DoublyLinked, Exitable, Finished, ProcOk;
      ghost var e0 := entries[..];
      var value := if retval < 0 then 0 else retval;
      SizesAgree(e0, table);
      assert table.procs[pid] != Running(pid);
      RunningAt(e0, table, pid);
      FinishGiven(pid, value, table.zombies[pid], Head(table, table.procs[pid].parent));
      ExitKeeps(table, pid, retval);
      ExitRepresents(e0, entries[..], table, pid, retval);
      table := Apply(table, Exit(pid, retval));
    }

    /** finish_given_process: its zombies are freed, and it becomes one of its parent's. */
    method FinishGiven(pid: Pid, retval: nat, ghost zs: seq<Pid>, ghost head: int)
      requires pid < entries.Length && Exitable(entries[..], zs, head, pid)
      modifies entries
      ensures Finished(old(entries[..]), entries[..], zs, head, pid, retval)
      ensures entries[pid].state == PROCESS_ZOMBIE && entries[pid].retval == retval
    {
      hide Cleared, DoublyLinked, NoDuplicates;
      ghost var e0 := entries[..];
      var parent := entries[pid].parent;
      entries[pid] := entries[pid].(retval := retval);
      ghost var e1 := entries[..];
      SameLinks(e0, e1, e1[pid].firstZombie, zs);
      FreeZombies(pid, zs);
      AllCleared(e1, zs, pid);
      if parent >= 0 && entries[parent].state == PROCESS_ZOMBIE {
        assert false;
      } else if parent >= 0 {
        entries[pid] := entries[pid].(state := PROCESS_ZOMBIE);
        var zombie := entries[parent].firstZombie;
        entries[pid] := entries[pid].(nextZombie := zombie);
        if zombie >= 0 {
          entries[zombie] := entries[zombie].(prevZombie := pid);
        }
        entries[parent] := entries[parent].(firstZombie := pid);
      } else {
        entries[pid] := entries[pid].(state := PROCESS_ZOMBIE);
      }
    }

    /** The loop of finish_given_process. */
    method FreeZombies(pid: Pid, ghost zs: seq<Pid>)
      requires pid < entries.Length && pid !in zs && NoDuplicates(zs)
      requires DoublyLinked(entries[..], entries[pid].firstZombie, zs)
      modifies entries
      ensures entries[..] == Cleared(old(entries[..]), zs, pid, |zs|)
    {
      hide Cleared, DoublyLinked, NoDuplicates;
      ghost var e1 := entries[..];
      ghost var k := 0;
      ClearedNone(e1, zs, pid);
      while entries[pid].firstZombie >= 0
        invariant k <= |zs| && entries[..] == Cleared(e1, zs, pid, k)
        decreases |zs| - k
      {
        ghost var e := entries[..];
        var zombie := entries[pid].firstZombie;
        ClearedAt(e1, zs, pid, k, pid);
        NextZombie(e1, zs, pid, k);
        ClearedAt(e1, zs, pid, k, zombie);
        entries[zombie] := entries[zombie].(state := PROCESS_FREE, retval := -1, parent := -1);
        entries[pid] := entries[pid].(firstZombie := entries[zombie].nextZombie);
        entries[pid] := entries[pid].(children := entries[pid].children - 1);
        ClearedNext(e1, zs, pid, k);
        k := k + 1;
        assert entries[..] == Cleared(e1, zs, pid, k);
      }
      ClearedAt(e1, zs, pid, k, pid);
    }
  }

  lemma NextZombie(e: seq<Entry>, zs: seq<Pid>, pid: Pid, k: nat)
    requires pid < |e| && pid !in zs && NoDuplicates(zs) && DoublyLinked(e, e[pid].firstZombie, zs) && k < |zs|
    ensures zs[k] < |e| && zs[k] != pid && zs[k] !in zs[..k]
    ensures e[zs[k]].nextZombie == if k + 1 < |zs| then zs[k + 1] else -1
  {
    assert zs[k] in zs;
  }

  lemma ClearedNext(e: seq<Entry>, zs: seq<Pid>, pid: Pid, k: nat)
    requires pid < |e| && pid !in zs && NoDuplicates(zs) && k < |zs| && zs[k] < |e|
    ensures Cleared(e, zs, pid, k + 1) == Cleared(e, zs, pid, k)
              [zs[k] := e[zs[k]].(state := PROCESS_FREE, retval := -1, parent := -1)]
              [pid := e[pid].(firstZombie := if k + 1 < |zs| then zs[k + 1] else -1, children := e[pid].children - (k + 1))]
  {
    assert zs[..k + 1] == zs[..k] + [zs[k]];
  }

  /** The entries after the first k zombies of zs have been freed by their parent pid. */
  ghost function Cleared(e: seq<Entry>, zs: seq<Pid>, pid: Pid, k: nat): (r: seq<Entry>)
    requires k <= |zs| && pid < |e|
    ensures |r| == |e|
  {
    seq(|e|, q requires 0 <= q < |e| =>
      if q in zs[..k] then e[q].(state := PROCESS_FREE, retval := -1, parent := -1)
      else if q == pid then e[q].(firstZombie := if k < |zs| then zs[k] else -1, children := e[q].children - k)
      else e[q])
  }

  ghost function Position(zs: seq<Pid>, p: Pid): (k: nat)
    requires p in zs
    ensures k < |zs| && zs[k] == p
  {
    if zs[0] == p then 0 else 1 + Position(zs[1..], p)
  }

  /** e' is e with pid taken out of its parent's list zs and reset. */
  ghost predicate Unlinked(e: seq<Entry>, e': seq<Entry>, zs: seq<Pid>, me: Pid, pid: Pid)
    requires me < |e| && pid < |e| && pid in zs
  {
    var k := Position(zs, pid);
    var prev := if k > 0 then zs[k - 1] else -1;
    var next := if k < |zs| - 1 then zs[k + 1] else -1;
    && |e'| == |e|
    && e'[pid] == e[pid].(state := PROCESS_FREE, retval := 0, parent := -1)
    && e'[me] == e[me].(children := e[me].children - 1, firstZombie := if k == 0 then next else e[me].firstZombie)
    && (forall q :: 0 <= q < |e| && q != pid && q != me ==>
          e'[q] == Relinked(e[q], if q == prev then next else e[q].nextZombie, if q == next then prev else e[q].prevZombie))
  }

  function Relinked(e: Entry, next: int, prev: int): Entry {
    e.(nextZombie := next, prevZombie := prev)
  }

  /** The first zombie of a process, or -1. */
  function Head(t: Table, p: int): int {
    if 0 <= p < |t.zombies| && t.zombies[p] != [] then t.zombies[p][0] else -1
  }

  /** What a process and its entry's neighbours look like before it exits: zs are its own
      zombies and head is the first zombie of its parent. */
  ghost predicate Exitable(e: seq<Entry>, zs: seq<Pid>, head: int, pid: Pid)
    requires pid < |e|
  {
    var parent := e[pid].parent;
    && pid !in zs && NoDuplicates(zs) && DoublyLinked(e, e[pid].firstZombie, zs) && (forall z :: z in zs ==> z < |e|)
    && parent >= -1
    && (parent >= 0 ==>
          && parent < |e| && e[parent].state == PROCESS_RUNNING && parent != pid && parent !in zs
          && e[parent].firstZombie == head >= -1
          && (head >= 0 ==> head < |e| && head != pid && head != parent && head !in zs))
  }

  /** e' is e after pid has exited with value. */
  ghost predicate Finished(e: seq<Entry>, e': seq<Entry>, zs: seq<Pid>, head: int, pid: Pid, value: nat)
    requires pid < |e|
  {
    var parent := e[pid].parent;
    && |e'| == |e|
    && e'[pid] == e[pid].(state := PROCESS_ZOMBIE, retval := value, firstZombie := -1, children := e[pid].children - |zs|,
                          nextZombie := if 0 <= parent < |e| then head else e[pid].nextZombie)
    && (0 <= parent < |e| ==> e'[parent] == e[parent].(firstZombie := pid))
    && (forall q :: 0 <= q < |e| && q != pid && q != parent ==>
          e'[q] == AfterExit(e[q], q, zs, if parent >= 0 then head else -1, pid))
  }

  function AfterExit(e: Entry, q: Pid, zs: seq<Pid>, head: int, pid: Pid): Entry {
    if q in zs then e.(state := PROCESS_FREE, retval := -1, parent := -1)
    else if q == head then e.(prevZombie := pid)
    else e
  }

  /** How the zombie pid hangs on its parent's list zs. */
  ghost predicate Hangs(e: seq<Entry>, zs: seq<Pid>, me: Pid, pid: Pid)
    requires me < |e| && pid < |e| && pid in zs
  {
    var k := Position(zs, pid);
    && me != pid && e[pid].children == 0
    && (e[me].firstZombie == pid <==> k == 0)
    && e[pid].nextZombie == (if k < |zs| - 1 then zs[k + 1] else -1)
    && (k > 0 ==> e[pid].prevZombie == zs[k - 1] < |e| && zs[k - 1] != pid && zs[k - 1] != me)
    && (k < |zs| - 1 ==> zs[k + 1] < |e| && zs[k + 1] != pid && zs[k + 1] != me && (k > 0 ==> zs[k + 1] != zs[k - 1]))
  }

  lemma ZombieAt(e: seq<Entry>, t: Table, me: Pid, pid: Pid)
    requires TableOk(t) && Represents(e, t) && me < |e| && pid < |e|
    requires t.procs[me].Running? && t.procs[pid].Zombie? && t.procs[pid].parent == me
    ensures pid in t.zombies[me] && Hangs(e, t.zombies[me], me, pid)
  {
    hide Position;
    assert EntryOk(e, t, pid) && ProcOk(t, pid) && EntryOk(e, t, me) && ProcOk(t, me);
    var zs := t.zombies[me];
    var k := Position(zs, pid);
    assert k > 0 ==> zs[k - 1] in zs;
    assert k < |zs| - 1 ==> zs[k + 1] in zs;
  }

  lemma SizesAgree(e: seq<Entry>, t: Table)
    requires Represents(e, t)
    ensures |e| == |t.procs| == |t.zombies|
  {
  }

  lemma RunningAt(e: seq<Entry>, t: Table, pid: Pid)
    requires TableOk(t) && Represents(e, t) && pid < |e| && t.procs[pid].Running? && t.procs[pid].parent != pid
    ensures e[pid].parent == t.procs[pid].parent
    ensures Exitable(e, t.zombies[pid], Head(t, e[pid].parent), pid)
  {
    assert EntryOk(e, t, pid) && ProcOk(t, pid);
    var parent := t.procs[pid].parent;
    if parent >= 0 {
      assert EntryOk(e, t, parent) && ProcOk(t, parent);
      assert t.zombies[parent] != [] ==> t.zombies[parent][0] in t.zombies[parent];
    }
  }

  lemma AllCleared(e: seq<Entry>, zs: seq<Pid>, pid: Pid)
    requires pid < |e| && pid !in zs
    ensures var r := Cleared(e, zs, pid, |zs|);
            && |r| == |e| && r[pid] == e[pid].(firstZombie := -1, children := e[pid].children - |zs|)
            && (forall q :: 0 <= q < |e| && q in zs ==> r[q] == e[q].(state := PROCESS_FREE, retval := -1, parent := -1))
            && (forall q :: 0 <= q < |e| && q !in zs && q != pid ==> r[q] == e[q])
  {
    assert zs[..|zs|] == zs;
  }

  lemma ClearedAt(e: seq<Entry>, zs: seq<Pid>, pid: Pid, k: nat, q: Pid)
    requires pid < |e| && k <= |zs| && q < |e|
    ensures Cleared(e, zs, pid, k)[q] ==
              if q in zs[..k] then e[q].(state := PROCESS_FREE, retval := -1, parent := -1)
              else if q == pid then e[q].(firstZombie := if k < |zs| then zs[k] else -1, children := e[q].children - k)
              else e[q]
  {
  }

  lemma ClearedNone(e: seq<Entry>, zs: seq<Pid>, pid: Pid)
    requires pid < |e| && DoublyLinked(e, e[pid].firstZombie, zs)
    ensures Cleared(e, zs, pid, 0) == e
  {
  }


  lemma FreeSlotAt(procs: seq<Proc>, i: nat)
    requires i < |procs| && procs[i].Free? && forall k :: 0 <= k < i ==> !procs[k].Free?
    ensures FreeSlot(procs) == i
  {
    assert procs[i].Free?;
  }

  lemma NoFreeSlot(procs: seq<Proc>)
    requires forall k :: 0 <= k < |procs| ==> !procs[k].Free?
    ensures FreeSlot(procs) == |procs|
  {
  }

  lemma SameLinks(e: seq<Entry>, e': seq<Entry>, first: int, zs: seq<Pid>)
    requires DoublyLinked(e, first, zs) && |e'| == |e|
    requires forall z :: z in zs ==> e'[z].nextZombie == e[z].nextZombie && e'[z].prevZombie == e[z].prevZombie
    ensures DoublyLinked(e', first, zs)
  {
  }

  lemma ReserveRepresents(e: seq<Entry>, t: Table, i: Pid, me: int)
    requires TableOk(t) && Represents(e, t) && Enabled(t, Reserve(me)) && FreeSlot(t.procs) == i
    ensures Represents(e[i := e[i].(state := PROCESS_RUNNING, retval := 0)], Apply(t, Reserve(me)))
  {
    var r, e' := Apply(t, Reserve(me)), e[i := e[i].(state := PROCESS_RUNNING, retval := 0)];
    forall p: Pid ensures EntryOk(e', r, p) {
      assert EntryOk(e, t, p) && ProcOk(t, p);
      if p < |e| && t.procs[p].Running? {
        assert Children(r.procs, p) == Children(t.procs, p);
        SameLinks(e, e', e[p].firstZombie, t.zombies[p]);
      }
    }
  }

  lemma AdoptRepresents(e: seq<Entry>, e': seq<Entry>, t: Table, me: int, pid: Pid)
    requires TableOk(t) && Represents(e, t) && Enabled(t, Adopt(me, pid))
    requires var e1 := e[pid := FilledIn(e[pid], me)];
             e' == if 0 <= me < |e1| then e1[me := e1[me].(children := e1[me].children + 1)] else e1
    ensures Represents(e', Apply(t, Adopt(me, pid)))
  {
    hide DoublyLinked, NoDuplicates;
    var r := Apply(t, Adopt(me, pid));
    assert ProcOk(t, pid);
    forall p: Pid ensures EntryOk(e', r, p) {
      assert EntryOk(e, t, p) && ProcOk(t, p);
      if p == pid {
        NoChildrenYet(t, pid);
        assert Children(r.procs, pid) == {};
        EmptyLinked(e');
      } else if p < |e| && t.procs[p].Running? {
        ChildrenAfterAdopt(t, me, pid, p);
        SameLinks(e, e', e[p].firstZombie, t.zombies[p]);
      }
    }
  }

  lemma EmptyLinked(e: seq<Entry>)
    ensures DoublyLinked(e, -1, [])
  {
  }

  lemma ChildrenAfterAdopt(t: Table, me: int, pid: Pid, p: Pid)
    requires |t.zombies| == |t.procs| && Enabled(t, Adopt(me, pid)) && p != pid
    ensures |Children(Apply(t, Adopt(me, pid)).procs, p)| == |Children(t.procs, p)| + if p == me then 1 else 0
  {
    var r := Apply(t, Adopt(me, pid));
    assert Children(r.procs, p) == if p == me then Children(t.procs, p) + {pid} else Children(t.procs, p);
    assert pid !in Children(t.procs, p);
  }

  /** Nobody is a child of a process that is not running. */
  lemma NoChildrenYet(t: Table, p: Pid)
    requires TableOk(t) && p < |t.procs| && !t.procs[p].Running?
    ensures Children(t.procs, p) == {}
  {
    forall q: Pid ensures q !in Children(t.procs, p) {
      assert ProcOk(t, q);
    }
  }

  lemma {:induction false} RemoveIs(zs: seq<Pid>, p: Pid)
    requires p in zs
    ensures Remove(zs, p) == zs[..Position(zs, p)] + zs[Position(zs, p) + 1..]
  {
    if zs[0] != p {
      RemoveIs(zs[1..], p);
    }
  }

  /** The parent's list without pid is linked again. */
  lemma UnlinkedList(e: seq<Entry>, e': seq<Entry>, zs: seq<Pid>, me: Pid, pid: Pid)
    requires me < |e| && pid < |e| && pid in zs && me !in zs && NoDuplicates(zs)
    requires DoublyLinked(e, e[me].firstZombie, zs) && Unlinked(e, e', zs, me, pid)
    ensures DoublyLinked(e', e'[me].firstZombie, Remove(zs, pid))
  {
    hide Position, Remove, DoublyLinked;
    var r := Remove(zs, pid);
    forall i | 0 <= i < |r|
      ensures r[i] < |e'|
      ensures e'[r[i]].prevZombie == At(r, i - 1)
      ensures e'[r[i]].nextZombie == At(r, i + 1)
      ensures i == 0 ==> e'[me].firstZombie == r[i]
    {
      UnlinkedAt(e, e', zs, me, pid, i);
    }
    if r == [] {
      UnlinkedLast(e, e', zs, me, pid);
    }
    LinkedAll(e', e'[me].firstZombie, r);
  }

  /** The i-th of a list, or -1 beyond its ends. */
  function At(r: seq<Pid>, i: int): int {
    if 0 <= i < |r| then r[i] else -1
  }

  lemma LinkedAll(e: seq<Entry>, first: int, r: seq<Pid>)
    requires forall i :: 0 <= i < |r| ==> r[i] < |e|
    requires forall i :: 0 <= i < |r| ==> e[r[i]].prevZombie == At(r, i - 1)
    requires forall i :: 0 <= i < |r| ==> e[r[i]].nextZombie == At(r, i + 1)
    requires first == if r == [] then -1 else r[0]
    ensures DoublyLinked(e, first, r)
  {
    if r != [] {
      assert e[r[0]].prevZombie == -1;
      assert e[r[|r| - 1]].nextZombie == -1;
    }
  }

  lemma UnlinkedLast(e: seq<Entry>, e': seq<Entry>, zs: seq<Pid>, me: Pid, pid: Pid)
    requires me < |e| && pid < |e| && pid in zs && Unlinked(e, e', zs, me, pid) && Remove(zs, pid) == []
    ensures e'[me].firstZombie == -1
  {
    RemoveIs(zs, pid);
  }

  lemma UnlinkedAt(e: seq<Entry>, e': seq<Entry>, zs: seq<Pid>, me: Pid, pid: Pid, i: nat)
    requires me < |e| && pid < |e| && pid in zs && me !in zs && NoDuplicates(zs)
    requires DoublyLinked(e, e[me].firstZombie, zs) && Unlinked(e, e', zs, me, pid)
    requires i < |Remove(zs, pid)|
    ensures var r := Remove(zs, pid);
            && r[i] < |e'|
            && e'[r[i]].prevZombie == At(r, i - 1)
            && e'[r[i]].nextZombie == At(r, i + 1)
            && (i == 0 ==> e'[me].firstZombie == r[i])
  {
    hide Position, Remove;
    var k := Position(zs, pid);
    RemoveIs(zs, pid);
    var r := zs[..k] + zs[k + 1..];
    var j := if i < k then i else i + 1;
    assert r[i] == zs[j] && zs[j] in zs;
    if i < |r| - 1 {
      var j' := if i + 1 < k then i + 1 else i + 2;
      assert r[i + 1] == zs[j'];
    }
    if i > 0 {
      var j' := if i - 1 < k then i - 1 else i;
      assert r[i - 1] == zs[j'];
    }
  }

  lemma JoinRepresents(e: seq<Entry>, e': seq<Entry>, t: Table, me: Pid, pid: Pid)
    requires TableOk(t) && Represents(e, t) && Enabled(t, Join(me, pid)) && pid in t.zombies[me]
    requires Unlinked(e, e', t.zombies[me], me, pid)
    ensures Represents(e', Apply(t, Join(me, pid)))
  {
    hide Position, Remove;
    var r, zs := Apply(t, Join(me, pid)), t.zombies[me];
    assert ProcOk(t, me) && EntryOk(e, t, me);
    var k := Position(zs, pid);
    assert k > 0 ==> zs[k - 1] in zs;
    assert k < |zs| - 1 ==> zs[k + 1] in zs;
    forall p: Pid ensures EntryOk(e', r, p) {
      assert EntryOk(e, t, p) && ProcOk(t, p);
      if p == me {
        UnlinkedList(e, e', zs, me, pid);
        assert Children(r.procs, me) == Children(t.procs, me) - {pid};
        assert pid in Children(t.procs, me);
      } else if p < |e| && t.procs[p].Running? {
        assert Children(r.procs, p) == Children(t.procs, p);
        assert forall z :: z in t.zombies[p] ==> z !in zs;
        SameLinks(e, e', e[p].firstZombie, t.zombies[p]);
      }
    }
  }

  /** A process without running children has as many children as zombies. */
  lemma OnlyZombies(t: Table, pid: Pid)
    requires TableOk(t) && pid < |t.procs| && t.procs[pid].Running?
    requires forall q :: 0 <= q < |t.procs| ==> t.procs[q] != Running(pid)
    ensures |Children(t.procs, pid)| == |t.zombies[pid]|
  {
    assert ProcOk(t, pid);
    forall q: Pid ensures q in Children(t.procs, pid) <==> q in t.zombies[pid] {
    }
    SizeOfElements(t.zombies[pid]);
    assert Elements(t.zombies[pid]) == Children(t.procs, pid);
  }

  lemma ExitRepresents(e: seq<Entry>, e': seq<Entry>, t: Table, pid: Pid, retval: int)
    requires TableOk(t) && Represents(e, t) && Enabled(t, Exit(pid, retval))
    requires Exitable(e, t.zombies[pid], Head(t, e[pid].parent), pid)
    requires Finished(e, e', t.zombies[pid], Head(t, e[pid].parent), pid, Clamp(retval))
    ensures Represents(e', Apply(t, Exit(pid, retval)))
  {
    var r := Apply(t, Exit(pid, retval));
    assert ProcOk(t, pid) && EntryOk(e, t, pid);
    OnlyZombies(t, pid);
    forall p: Pid ensures EntryOk(e', r, p) {
      assert EntryOk(e, t, p) && ProcOk(t, p);
      if p < |e| && p != pid && t.procs[p].Running? {
        ExitEntry(e, e', t, pid, retval, p);
      }
    }
  }

  lemma ExitEntry(e: seq<Entry>, e': seq<Entry>, t: Table, pid: Pid, retval: int, p: Pid)
    requires TableOk(t) && Represents(e, t) && Enabled(t, Exit(pid, retval))
    requires Exitable(e, t.zombies[pid], Head(t, e[pid].parent), pid)
    requires Finished(e, e', t.zombies[pid], Head(t, e[pid].parent), pid, Clamp(retval))
    requires p < |e| && p != pid && t.procs[p].Running?
    ensures EntryOk(e', Apply(t, Exit(pid, retval)), p)
  {
    hide DoublyLinked, NoDuplicates;
    var r := Apply(t, Exit(pid, retval));
    assert ProcOk(t, pid) && EntryOk(e, t, pid) && EntryOk(e, t, p) && ProcOk(t, p);
    assert Children(r.procs, p) == Children(t.procs, p);
    var zs0 := t.zombies[p];
    if p == e[pid].parent {
      forall z | z in zs0 ensures e'[z] == if z == zs0[0] then e[z].(prevZombie := pid) else e[z] {
      }
      PushZombie(e, e', e[p].firstZombie, zs0, pid);
    } else {
      var head := Head(t, e[pid].parent);
      if head >= 0 {
        assert ProcOk(t, e[pid].parent) && head in t.zombies[e[pid].parent];
      }
      assert forall z :: z in zs0 ==> z != head && z !in t.zombies[pid];
      SameLinks(e, e', e[p].firstZombie, zs0);
    }
  }

  lemma PushZombie(e: seq<Entry>, e': seq<Entry>, first: int, zs: seq<Pid>, pid: Pid)
    requires DoublyLinked(e, first, zs) && NoDuplicates(zs) && |e| == |e'| && pid < |e|
    requires e'[pid].nextZombie == first && e'[pid].prevZombie == -1
    requires forall z :: z in zs && z < |e| ==> e'[z] == if z == zs[0] then e[z].(prevZombie := pid) else e[z]
    ensures DoublyLinked(e', pid, [pid] + zs)
  {
    var r := [pid] + zs;
    forall i | 0 <= i < |r|
      ensures r[i] < |e'|
      ensures e'[r[i]].prevZombie == At(r, i - 1)
      ensures e'[r[i]].nextZombie == At(r, i + 1)
    {
      if i > 0 {
        assert r[i] == zs[i - 1] && zs[i - 1] in zs;
        assert i < |r| - 1 ==> r[i + 1] == zs[i];
        assert i > 1 ==> r[i - 1] == zs[i - 2];
      }
    }
    LinkedAll(e', pid, r);
  }
}
