/** The semaphore table on top of the thread table. */
module Semaphores {
  import opened Threads
  import opened ThreadTables
  import opened FifoOrder

  class SemaphoreTable {
    const threads: ThreadTable
    const value: array<int>
    const creator: array<int>
    const base: nat
    var nextSem: nat

    /** semaphore_init. */
    constructor (table: ThreadTable, size: nat, address: nat)
      requires table.Valid() && 0 < size && 0 < address
      ensures Valid() && threads == table && base == address && value.Length == size && fresh(value) && fresh(creator)
      ensures forall i :: 0 <= i < size ==> creator[i] == -1
    {
      threads := table;
      base := address;
      value := new int[size](i => 0);
      creator := new int[size](i => -1);
      nextSem := 0;
    }

    ghost predicate Valid()
      reads this, value, creator, threads, threads.state, threads.sleepsOn, threads.next, threads.hashtable, threads.current
    {
      && threads.Valid()
      && value.Length == creator.Length && nextSem < value.Length && base > 0
      && value != creator
      && {value, creator} !! {threads.next, threads.hashtable}
    }

    /** What threads sleep on while they wait for semaphore id: its address. */
    function Resource(id: nat): (r: nat)
      requires base > 0
      ensures r != 0
    {
      base + id
    }

    /** Each semaphore has an address of its own. */
    lemma OwnAddress(i: nat, j: nat)
      requires base > 0
      ensures Resource(i) == Resource(j) <==> i == j
    {
    }

    /** The threads that sleep on semaphore id, oldest first. */
    ghost function Waiters(id: nat): seq<Tid>
      requires base > 0
      reads this, threads, threads.sleepsOn
    {
      QueueOf(threads.waiting, threads.sleepsOn[..], Resource(id))
    }

    lemma TableWaits()
      requires Valid()
      ensures WaitersOk(threads.Abs()) && |threads.Abs().sleepsOn| == |threads.Abs().state|
      ensures forall c :: 0 <= c < threads.current.Length ==> threads.current[c] < |threads.Abs().sleepsOn|
    {
    }

    /** semaphore_create: the first free entry from next on, round the table. */
    method Create(cpu: nat, v: nat) returns (id: int)
      requires Valid() && cpu < threads.current.Length
      modifies this`nextSem, value, creator
      ensures Valid()
      ensures id < 0 <==> forall i :: 0 <= i < value.Length ==> old(creator[i]) != -1
      ensures id < 0 ==> value[..] == old(value[..]) && creator[..] == old(creator[..]) && nextSem == old(nextSem)
      ensures id >= 0 ==>
                && id < value.Length && old(creator[id]) == -1 && nextSem == (id + 1) % value.Length
                && value[..] == old(value[..])[id := v] && creator[..] == old(creator[..])[id := threads.current[cpu]]
                && (forall i :: 0 <= i < value.Length && old(creator[i]) == -1 ==>
                      Distance(old(nextSem), id, value.Length) <= Distance(old(nextSem), i, value.Length))
    {
      hide ThreadTable.Valid, Slot;
      var size := value.Length;
      ghost var n0 := nextSem;
      SlotRound(n0, size);
      id := -1;
      var i := 0;
      ghost var c0 := creator[..];
      while i < size
        invariant 0 <= i <= size && id == -1 && n0 == old(nextSem)
        invariant Valid() && creator[..] == c0 && value[..] == old(value[..])
        invariant nextSem == Slot(i, n0, size)
        invariant forall j :: 0 <= j < size && creator[j] == -1 ==> i <= Distance(n0, j, size)
      {
        var semId := nextSem;
        SlotNext(i, n0, size);
        nextSem := (nextSem + 1) % size;
        SlotDistance(i, n0, size);
        if creator[semId] == -1 {
          creator[semId] := threads.current[cpu];
          id := semId;
          break;
        }
        forall j | 0 <= j < size && creator[j] == -1 ensures i + 1 <= Distance(n0, j, size) {
          DistanceSlot(j, n0, size);
        }
        i := i + 1;
      }
      if id < 0 {
        SlotRound(n0, size);
        return;
      }
      value[id] := v;
    }

    /** semaphore_P up to the switch; blocked says that the thread has to sleep. It then waits
        last in the queue of this semaphore, and in no other. */
    method P(cpu: nat, id: nat) returns (blocked: bool)
      requires Valid() && id < value.Length && cpu < threads.current.Length
      requires threads.current[cpu] != IDLE_THREAD_TID
      requires threads.current[cpu] !in threads.ready && threads.current[cpu] !in threads.waiting
      modifies value, threads`waiting, threads.next, threads.hashtable, threads.sleepsOn
      ensures Valid() && value[..] == old(value[..])[id := old(value[id]) - 1]
      ensures blocked <==> old(value[id]) <= 0
      ensures var t := threads.current[cpu];
              threads.Abs() == if blocked then Threads.Link(Threads.Prepare(old(threads.Abs()), t, Resource(id)), t)
                               else old(threads.Abs())
      ensures forall j: nat :: j < value.Length ==>
                Waiters(j) == old(Waiters(j)) + if blocked && j == id then [threads.current[cpu]] else []
    {
      hide ThreadTable.Valid, QueueOf, Resource;
      ghost var s := threads.Abs();
      TableWaits();
      value[id] := value[id] - 1;
      ghost var v := value[..];
      blocked := value[id] < 0;
      assert threads.Valid();
      if blocked {
        threads.SleepqAdd(cpu, Resource(id));
      }
      assert value[..] == v;
      forall j: nat | j < value.Length
        ensures Waiters(j) == old(Waiters(j)) + if blocked && j == id then [threads.current[cpu]] else []
      {
        OwnAddress(j, id);
        if blocked {
          AddedLast(s, threads.current[cpu], Resource(id), Resource(j));
        }
      }
    }

    /** semaphore_V: if somebody waits for this semaphore, the thread that has waited longest
        does so no more; the waiters of every other semaphore stay. */
    method V(id: nat)
      requires Valid() && id < value.Length
      modifies value, threads`head, threads`tail, threads`ready, threads`waiting
      modifies threads.next, threads.state, threads.sleepsOn, threads.hashtable
      ensures Valid() && value[..] == old(value[..])[id := old(value[id]) + 1]
      ensures threads.Abs() == if old(value[id]) < 0 then Threads.Wake(old(threads.Abs()), Resource(id)) else old(threads.Abs())
      ensures forall j: nat :: j < value.Length ==>
                Waiters(j) == if old(value[id]) < 0 && j == id && old(Waiters(id)) != [] then old(Waiters(id))[1..]
                              else old(Waiters(j))
      ensures old(value[id]) < 0 && old(Waiters(id)) != [] ==>
                var t := old(Waiters(id))[0];
                && t < threads.state.Length && threads.sleepsOn[t] == 0
                && (old(threads.state[..])[t] == SLEEPING ==> threads.state[t] == READY && threads.ready == old(threads.ready) + [t])
    {
      hide ThreadTable.Valid, QueueOf, Resource;
      ghost var s := threads.Abs();
      TableWaits();
      value[id] := value[id] + 1;
      ghost var v := value[..];
      assert threads.Valid();
      if value[id] <= 0 {
        threads.SleepqWake(Resource(id));
        OldestWoken(s, Resource(id), Resource(id));
      }
      assert value[..] == v;
      forall j: nat | j < value.Length
        ensures Waiters(j) == if old(value[id]) < 0 && j == id && old(Waiters(id)) != [] then old(Waiters(id))[1..]
                              else old(Waiters(j))
      {
        OwnAddress(j, id);
        OldestWoken(s, Resource(id), Resource(j));
      }
    }
  }

  lemma SlotNext(i: nat, n: nat, size: nat)
    requires i < size && n < size
    ensures (Slot(i, n, size) + 1) % size == Slot(i + 1, n, size)
  {
    SlotIs(i, n, size);
    SlotIs(i + 1, n, size);
    SlotIs(1, Slot(i, n, size), size);
  }

  lemma SlotIs(i: nat, n: nat, size: nat)
    requires i <= size && n < size
    ensures Slot(i, n, size) == if i + n < size then i + n else i + n - size
  {
    if i + n >= size {
      WrapsOnce(i + n, size);
    } else {
      WrapsNot(i + n, size);
    }
  }

  lemma SlotRound(n: nat, size: nat)
    requires n < size
    ensures Slot(size, n, size) == n && Slot(0, n, size) == n
  {
    SlotIs(size, n, size);
    SlotIs(0, n, size);
  }
}
