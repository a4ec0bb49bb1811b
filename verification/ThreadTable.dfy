/** The thread table with its scheduler and sleep queue: the ready list and all hash chains
    are threaded through the one next field, and every operation does on these arrays what
    the functions of Threads say. */
module ThreadTables {
  import opened Collections
  import opened Threads
  import opened IntrusiveLists

  lemma SearchedAt(c: seq<Tid>, s: seq<nat>, r: nat, k: nat)
    requires k <= |c| && forall t :: t in c ==> t < |s|
    requires forall j :: 0 <= j < k ==> c[j] < |s| && s[c[j]] != r
    requires k < |c| ==> c[k] < |s| && s[c[k]] == r
    ensures FirstWaiter(c, s, r) == k
  {
    var i := FirstWaiter(c, s, r);
    assert i < |c| ==> c[i] in c;
    assert k < |c| ==> c[k] in c;
  }

  /** first is the thread at position k of the chain c, or -1 at its end, and prev the one
      before it; no thread before first waits for r. */
  ghost predicate SearchedTo(c: seq<Tid>, s: seq<nat>, r: nat, prev: int, first: int, k: nat) {
    && k <= |c|
    && first == (if k < |c| then c[k] else -1) && prev == (if k == 0 then -1 else c[k - 1])
    && (forall j :: 0 <= j < k ==> c[j] < |s| && s[c[j]] != r)
  }

  /** The search may go on behind a thread that was taken out. */
  lemma SearchGoesOn(c: seq<Tid>, s: seq<nat>, r: nat, prev: int, k: nat)
    requires k < |c| && c[k] < |s| && s[c[k]] == r && SearchedTo(c, s, r, prev, c[k], k)
    ensures SearchedTo(RemoveAt(c, k), s, r, prev, if k + 1 < |c| then c[k + 1] else -1, k)
  {
  }

  /** Only threads of the two queues, and t itself, may have got another link. */
  ghost predicate LinksKept(next: seq<int>, next': seq<int>, ready: seq<Tid>, waiting: seq<Tid>, t: Tid) {
    && |next'| == |next|
    && forall u: Tid :: u < |next| && u != t && u !in ready && u !in waiting ==> next'[u] == next[u]
  }

  lemma OneLinkSet(next: seq<int>, p: Tid, x: int, ready: seq<Tid>, waiting: seq<Tid>, t: Tid)
    requires p < |next| && (p == t || p in ready || p in waiting)
    ensures LinksKept(next, next[p := x], ready, waiting, t)
  {
  }

  /** A search that lets others act between two of its turns is where it was, as long as the
      chain's threads still wait for what they waited for. */
  lemma SearchKept(waiting: seq<Tid>, s: seq<nat>, s': seq<nat>, size: nat, h: nat, r: nat, prev: int, first: int, k: nat)
    requires size > 0 && |s| == |s'| && SearchedTo(ChainOf(waiting, s, size, h), s, r, prev, first, k)
    requires forall t :: t in waiting && t < |s| ==> s'[t] == s[t]
    ensures SearchedTo(ChainOf(waiting, s', size, h), s', r, prev, first, k)
  {
    hide ChainOf, Hash;
    ChainSame(waiting, s, s', size, h);
    ChainMembers(waiting, s, size, h);
    var c := ChainOf(waiting, s, size, h);
    forall j | 0 <= j < k ensures c[j] < |s'| && s'[c[j]] != r {
      assert c[j] in c;
    }
  }

  lemma PositionOf(c: seq<Tid>, s: seq<nat>, r: nat, prev: int, first: int, k: nat)
    requires SearchedTo(c, s, r, prev, first, k) && FirstWaiter(c, s, r) == k < |c|
    ensures prev == (if k == 0 then -1 else c[k - 1]) && first == c[k] && first < |s| && s[first] == r
  {
  }

  /** The i-th slot thread_create looks at, starting at n. */
  function Slot(i: nat, n: nat, size: nat): (s: nat)
    requires size > 0
    ensures s < size
  {
    SlotBound(i, n, size);
    (i + n) % size
  }

  /** How many slots come before t, going round from n. */
  function Distance(n: nat, t: nat, size: nat): (d: nat)
    requires n < size && t < size
    ensures d < size
  {
    if n <= t then t - n else t + size - n
  }

  lemma WrapsOnce(a: nat, size: nat)
    requires size <= a < size + size
    ensures a % size == a - size
  {
    var q, r := a / size, a % size;
    assert a == q * size + r;
    assert q <= 0 ==> q * size <= 0;
    assert q >= 2 ==> (q - 2) * size >= 0;
  }

  lemma WrapsNot(a: nat, size: nat)
    requires a < size
    ensures a % size == a
  {
    var q, r := a / size, a % size;
    assert a == q * size + r;
    assert q >= 1 ==> (q - 1) * size >= 0;
  }

  lemma SlotDistance(i: nat, n: nat, size: nat)
    requires i < size && n < size
    ensures Distance(n, Slot(i, n, size), size) == i
    ensures Slot(i, n, size) == if i < size - n then n + i else i - (size - n)
  {
    if i + n >= size {
      WrapsOnce(i + n, size);
    } else {
      WrapsNot(i + n, size);
    }
  }

  lemma DistanceSlot(t: nat, n: nat, size: nat)
    requires t < size && n < size
    ensures Slot(Distance(n, t, size), n, size) == t
  {
    if n > t {
      WrapsOnce(t + size, size);
    } else {
      WrapsNot(t, size);
    }
  }

  class ThreadTable {
    const state: array<ThreadState>
    const sleepsOn: array<nat>
    const next: array<int>
    const hashtable: array<int>
    const current: array<Tid>
    var head: int
    var tail: int
    var nextTid: nat
    ghost var waiting: seq<Tid>
    ghost var ready: seq<Tid>

    ghost predicate Shape()
      reads this, current
    {
      && sleepsOn != current && next != hashtable
      && 0 < state.Length == sleepsOn.Length == next.Length
      && 0 < hashtable.Length && nextTid < state.Length
      && (forall c :: 0 <= c < current.Length ==> current[c] < state.Length)
    }

    ghost predicate QueuesApart()
      reads this
    {
      && NoDuplicates(waiting) && NoDuplicates(ready)
      && (forall t :: t in waiting ==> 0 < t < state.Length && t !in ready)
      && (forall t :: t in ready ==> 0 < t < state.Length)
    }

    ghost predicate ReadyOk()
      reads this, next
    {
      && IsList(head, next[..], ready)
      && tail == (if ready == [] then -1 else ready[|ready| - 1])
    }

    ghost predicate Valid()
      reads this, state, sleepsOn, next, hashtable, current
    {
      Shape() && QueuesApart() && ReadyOk() && ChainsOk(hashtable[..], next[..], waiting, sleepsOn[..])
    }

    ghost function Abs(): Sys
      reads this, state, sleepsOn, current
    {
      Sys(state[..], sleepsOn[..], waiting, ready, current[..])
    }

    /** thread_table_init, scheduler_init and sleepq_init. */
    constructor (threads: nat, cpus: nat, slots: nat)
      requires 0 < threads && 0 < slots
      ensures Valid() && fresh(state) && fresh(sleepsOn) && fresh(next) && fresh(hashtable) && fresh(current)
      ensures state.Length == threads && current.Length == cpus && hashtable.Length == slots && nextTid == 0
      ensures Abs() == Sys(seq(threads, t => if t == 0 then READY else FREE), seq(threads, t => 0),
                           [], [], seq(cpus, c => 0))
    {
      state := new ThreadState[threads](t => if t == 0 then READY else FREE);
      sleepsOn := new nat[threads](t => 0);
      next := new int[threads](t => -1);
      hashtable := new int[slots](h => -1);
      current := new Tid[cpus](c => IDLE_THREAD_TID);
      head, tail, nextTid, waiting, ready := -1, -1, 0, [], [];
      new;
      hide Hash;
      assert state[..] == seq(threads, t => if t == 0 then READY else FREE);
      assert sleepsOn[..] == seq(threads, t => 0) && current[..] == seq(cpus, c => 0);
      assert forall h :: 0 <= h < slots ==> ChainOf(waiting, sleepsOn[..], slots, h) == [];
    }

    /** The search of thread_create: the first free slot from next_tid on, round the table,
        but never the idle thread's. */
    method FindFree() returns (tid: int)
      requires 0 < state.Length && nextTid < state.Length
      ensures tid < 0 <==> forall t :: 0 < t < state.Length ==> state[t] != FREE
      ensures tid >= 0 ==> 0 < tid < state.Length && state[tid] == FREE
      ensures tid >= 0 ==> forall t :: 0 < t < state.Length && state[t] == FREE ==>
                Distance(nextTid, tid, state.Length) <= Distance(nextTid, t, state.Length)
    {
      hide Slot;
      tid := -1;
      var i := 0;
      while i < state.Length
        invariant 0 <= i <= state.Length && tid == -1
        invariant forall t :: 0 < t < state.Length && state[t] == FREE ==> i <= Distance(nextTid, t, state.Length)
      {
        var t := Slot(i, nextTid, state.Length);
        if t != IDLE_THREAD_TID && state[t] == FREE {
          SlotDistance(i, nextTid, state.Length);
          return t;
        }
        forall u | 0 < u < state.Length && state[u] == FREE ensures i + 1 <= Distance(nextTid, u, state.Length) {
          DistanceSlot(u, nextTid, state.Length);
        }
        i := i + 1;
      }
    }

    /** thread_create up to the release of the lock. */
    method Create() returns (tid: int)
      requires Valid()
      modifies this`nextTid, state
      ensures Valid()
      ensures tid < 0 <==> forall t :: 0 < t < state.Length ==> old(state[t]) != FREE
      ensures tid < 0 ==> Abs() == old(Abs()) && nextTid == old(nextTid)
      ensures tid >= 0 ==>
                && 0 < tid < state.Length && old(state[tid]) == FREE && nextTid == (tid + 1) % state.Length
                && Abs() == old(Abs()).(state := old(state[..])[tid := NONREADY])
                && (forall t :: 0 < t < state.Length && old(state[t]) == FREE ==>
                      Distance(old(nextTid), tid, state.Length) <= Distance(old(nextTid), t, state.Length))
    {
      hide ChainOf, ChainsOk, IsList, NoDuplicates, Distance;
      tid := FindFree();
      if tid < 0 {
        return;
      }
      SlotBound(1, tid, state.Length);
      nextTid := (tid + 1) % state.Length;
      state[tid] := NONREADY;
    }

    /** The writes of thread_create to the new slot once it has released the lock. */
    method InitSlot(t: Tid)
      requires Valid() && 0 < t < state.Length && t !in ready && t !in waiting
      modifies sleepsOn, next
      ensures Valid() && Abs() == old(Abs()).(sleepsOn := old(sleepsOn[..])[t := 0]) && next[t] == -1
      ensures LinksKept(old(next[..]), next[..], ready, waiting, t)
    {
      hide ChainOf, ChainsOk, IsList, NoDuplicates;
      ghost var n0, s0 := next[..], sleepsOn[..];
      sleepsOn[t] := 0;
      next[t] := -1;
      assert next[..] == n0[t := -1] && sleepsOn[..] == s0[t := 0];
      SameChains(hashtable[..], n0, next[..], waiting, s0, sleepsOn[..]);
      SameList(head, n0, next[..], ready);
    }

    /** thread_finish. */
    method Finish(cpu: nat)
      requires Valid() && cpu < current.Length
      modifies state
      ensures Valid() && Abs() == old(Abs()).(state := old(state[..])[current[cpu] := DYING])
    {
      state[current[cpu]] := DYING;
    }

    /** scheduler_add_to_ready_list. */
    method AddToReadyList(t: Tid)
      requires Valid() && 0 < t < state.Length && t !in ready && t !in waiting
      modifies this`head, this`tail, this`ready, next
      ensures Valid() && Abs() == old(Abs()).(ready := old(ready) + [t])
      ensures LinksKept(old(next[..]), next[..], old(ready), waiting, t)
    {
      hide ChainOf, Hash, ChainsOk, NoDuplicates;
      ghost var n0 := next[..];
      AppendToList(head, n0, ready, t);
      AppendNoDuplicates(ready, t);
      if tail < 0 {
        head := t;
        tail := t;
        next[t] := -1;
      } else {
        assert tail in ready;
        next[tail] := t;
        next[t] := -1;
        tail := t;
      }
      assert next[..] == if ready == [] then n0[t := -1] else n0[t := -1][ready[|ready| - 1] := t];
      SameChains(hashtable[..], n0, next[..], waiting, sleepsOn[..], sleepsOn[..]);
      ready := ready + [t];
    }

    /** scheduler_remove_first_ready; the requires is its assertion on the thread's state. */
    method RemoveFirstReady() returns (t: Tid)
      requires Valid() && (ready != [] ==> state[ready[0]] == READY)
      modifies this`head, this`tail, this`ready
      ensures Valid()
      ensures t == if old(ready) == [] then IDLE_THREAD_TID else old(ready)[0]
      ensures Abs() == old(Abs()).(ready := if old(ready) == [] then [] else old(ready)[1..])
    {
      hide ChainOf, Hash, ChainsOk, NoDuplicates;
      ghost var n0, h0, s0 := next[..], hashtable[..], sleepsOn[..];
      var first := head;
      assert first != IDLE_THREAD_TID;
      if first >= 0 {
        assert state[first] == READY;
        TailOfList(head, n0, ready);
        if tail == first {
          tail := -1;
        }
        head := next[head];
        ready := ready[1..];
      }
      assert next[..] == n0 && hashtable[..] == h0 && sleepsOn[..] == s0;
      t := if first < 0 then IDLE_THREAD_TID else first;
    }

    /** scheduler_add_ready. */
    method AddReady(t: Tid)
      requires Valid() && 0 < t < state.Length && t !in ready && t !in waiting
      modifies this`head, this`tail, this`ready, next, state
      ensures Valid() && Abs() == Threads.AddReady(old(Abs()), t)
      ensures LinksKept(old(next[..]), next[..], old(ready), waiting, t)
    {
      AddToReadyList(t);
      state[t] := READY;
      assert Abs() == Threads.AddReady(old(Abs()), t);
    }

    /** scheduler_schedule, first half: the thread on the cpu gives it up. */
    method SwitchOutCurrent(cpu: nat)
      requires Valid() && cpu < current.Length && SchedulePre(Abs(), cpu)
      modifies this`head, this`tail, this`ready, next, state
      ensures Valid() && Abs() == Threads.SwitchOut(old(Abs()), cpu)
      ensures LinksKept(old(next[..]), next[..], old(ready), waiting, current[cpu])
    {
      hide ChainOf, Hash, ChainsOk, IsList, NoDuplicates;
      var thread := current[cpu];
      if state[thread] == DYING {
        state[thread] := FREE;
      } else if sleepsOn[thread] != 0 {
        state[thread] := SLEEPING;
      } else {
        if thread != IDLE_THREAD_TID {
          AddToReadyList(thread);
        }
        state[thread] := READY;
      }
      assert Abs() == Threads.SwitchOut(old(Abs()), cpu);
    }

    /** scheduler_schedule. */
    method Schedule(cpu: nat)
      requires Valid() && cpu < current.Length && SchedulePre(Abs(), cpu)
      modifies this`head, this`tail, this`ready, next, state, current
      ensures Valid() && Abs() == Threads.Schedule(old(Abs()), cpu)
      ensures LinksKept(old(next[..]), next[..], old(ready), waiting, old(current[cpu]))
    {
      hide ChainOf, Hash, ChainsOk, IsList, NoDuplicates;
      SwitchOutCurrent(cpu);
      var t := RemoveFirstReady();
      state[t] := RUNNING;
      current[cpu] := t;
      assert Abs() == Threads.Schedule(old(Abs()), cpu);
    }

    /** The first part of sleepq_add, before it takes the lock. */
    method PrepareToSleep(cpu: nat, resource: nat)
      requires Valid() && cpu < current.Length && current[cpu] != IDLE_THREAD_TID
      requires current[cpu] !in ready && current[cpu] !in waiting
      modifies next, sleepsOn
      ensures Valid() && next[current[cpu]] == -1 && Abs() == Threads.Prepare(old(Abs()), current[cpu], resource)
      ensures LinksKept(old(next[..]), next[..], ready, waiting, current[cpu])
    {
      ghost var n0, s0 := next[..], sleepsOn[..];
      next[current[cpu]] := -1;
      sleepsOn[current[cpu]] := resource;
      assert next[..] == n0[current[cpu] := -1] && sleepsOn[..] == s0[current[cpu] := resource];
      SameChains(hashtable[..], n0, next[..], waiting, s0, sleepsOn[..]);
      SameList(head, n0, next[..], ready);
    }

    /** The locked part of sleepq_add: to the end of the hash chain. */
    method LinkCurrent(cpu: nat, resource: nat)
      requires Valid() && cpu < current.Length && current[cpu] != IDLE_THREAD_TID
      requires current[cpu] !in ready && current[cpu] !in waiting
      requires sleepsOn[current[cpu]] == resource && next[current[cpu]] == -1
      modifies this`waiting, next, hashtable
      ensures Valid() && Abs() == Threads.Link(old(Abs()), current[cpu])
      ensures LinksKept(old(next[..]), next[..], ready, old(waiting), current[cpu])
    {
      hide ChainOf, Hash;
      var myTid := current[cpu];
      var hash := Hash(resource, hashtable.Length);
      ghost var n0, h0, s0 := next[..], hashtable[..], sleepsOn[..];
      ghost var c := ChainOf(waiting, s0, |h0|, hash);
      assert IsList(h0[hash], n0, c);
      ChainMembers(waiting, s0, |h0|, hash);
      if hashtable[hash] <= 0 {
        assert c == [];
        LinkEmptyChain(h0, n0, waiting, s0, myTid);
        hashtable[hash] := myTid;
        assert hashtable[..] == h0[hash := myTid];
      } else {
        var prev := hashtable[hash];
        ghost var k := 0;
        while next[prev] > 0
          invariant 0 <= k < |c| && prev == c[k]
          decreases |c| - k
        {
          prev := next[prev];
          k := k + 1;
        }
        LastOfList(h0[hash], n0, c, k);
        LinkChain(h0, n0, waiting, s0, myTid);
        assert prev in c;
        next[prev] := myTid;
        assert next[..] == n0[prev := myTid];
        SameList(head, n0, next[..], ready);
      }
      waiting := waiting + [myTid];
    }

    /** sleepq_add. */
    method SleepqAdd(cpu: nat, resource: nat)
      requires Valid() && cpu < current.Length && current[cpu] != IDLE_THREAD_TID
      requires current[cpu] !in ready && current[cpu] !in waiting
      modifies this`waiting, next, hashtable, sleepsOn
      ensures Valid()
      ensures Abs() == Threads.Link(Threads.Prepare(old(Abs()), current[cpu], resource), current[cpu])
      ensures LinksKept(old(next[..]), next[..], ready, old(waiting), current[cpu])
    {
      PrepareToSleep(cpu, resource);
      LinkCurrent(cpu, resource);
    }

    /** The thread at position k of a chain leaves it; prev is the one before it, if any. */
    method UnlinkAt(hash: nat, prev: int, first: Tid, ghost resource: nat, ghost k: nat)
      requires Valid() && hash == Hash(resource, hashtable.Length)
      requires SearchedTo(Chain(hash), sleepsOn[..], resource, prev, first, k)
      requires FirstWaiter(Chain(hash), sleepsOn[..], resource) == k < |Chain(hash)|
      modifies this`waiting, next, hashtable
      ensures Valid() && first < next.Length && first !in waiting && first in old(waiting) && 0 < first
      ensures FirstWaiter(old(waiting), sleepsOn[..], resource) < |old(waiting)|
      ensures first == old(waiting)[FirstWaiter(old(waiting), sleepsOn[..], resource)]
      ensures Abs() == Threads.Unlink(old(Abs()), resource)
      ensures next[first] == old(next[first]) && LinksKept(old(next[..]), next[..], ready, old(waiting), first)
      ensures if k == 0 then hashtable[hash] == old(next[first]) && next[..] == old(next[..])
              else hashtable[hash] == old(hashtable[hash]) && 0 <= prev < next.Length && next[prev] == old(next[first])
    {
      hide ChainOf, Hash, IsList, NoDuplicates, ChainsOk, LinksKept, SearchedTo, FirstWaiter, RemoveAt;
      ghost var n0, h0, s0 := next[..], hashtable[..], sleepsOn[..];
      ghost var i := FirstWaiter(waiting, s0, resource);
      ghost var c := ChainOf(waiting, s0, |h0|, hash);
      PositionOf(c, s0, resource, prev, first, k);
      SearchChain(waiting, s0, |h0|, resource);
      RemoveAtMembers(waiting, i);
      ChainMembers(waiting, s0, |h0|, hash);
      assert k > 0 ==> c[k - 1] in c;
      if prev <= 0 {
        assert k == 0;
        UnlinkHead(h0, n0, waiting, s0, resource);
        OneLinkSet(n0, first, n0[first], ready, waiting, first);
        hashtable[hash] := next[first];
        assert next[..] == n0[first := n0[first]];
        assert hashtable[..] == h0[hash := n0[first]];
      } else {
        UnlinkInside(h0, n0, waiting, s0, resource, k);
        OneLinkSet(n0, prev, n0[first], ready, waiting, first);
        next[prev] := next[first];
        assert next[..] == n0[prev := n0[first]];
        SameList(head, n0, next[..], ready);
      }
      waiting := RemoveAt(waiting, i);
    }

    /** The part of sleepq_wake under the thread table lock. */
    method Awaken(t: Tid)
      requires Valid() && 0 < t < state.Length && t !in ready && t !in waiting
      modifies this`head, this`tail, this`ready, next, state, sleepsOn
      ensures Valid() && Abs() == Threads.Awaken(old(Abs()), t)
      ensures LinksKept(old(next[..]), next[..], old(ready), waiting, t)
    {
      ghost var n0, s0 := next[..], sleepsOn[..];
      sleepsOn[t] := 0;
      next[t] := -1;
      assert next[..] == n0[t := -1] && sleepsOn[..] == s0[t := 0];
      SameChains(hashtable[..], n0, next[..], waiting, s0, sleepsOn[..]);
      SameList(head, n0, next[..], ready);
      if state[t] == SLEEPING {
        state[t] := READY;
        AddToReadyList(t);
      }
      assert Abs() == Threads.Awaken(old(Abs()), t);
    }

    ghost function Chain(hash: nat): seq<Tid>
      requires hashtable.Length > 0
      reads this, sleepsOn
    {
      ChainOf(waiting, sleepsOn[..], hashtable.Length, hash)
    }

    /** The search loop of sleepq_wake and sleepq_wake_all. */
    method Search(hash: nat, resource: nat, prev0: int, first0: int, ghost k0: nat)
      returns (prev: int, first: int, ghost k: nat)
      requires Valid() && hash == Hash(resource, hashtable.Length)
      requires SearchedTo(Chain(hash), sleepsOn[..], resource, prev0, first0, k0)
      ensures SearchedTo(Chain(hash), sleepsOn[..], resource, prev, first, k)
      ensures k == FirstWaiter(Chain(hash), sleepsOn[..], resource)
      ensures first > 0 <==> k < |Chain(hash)|
      ensures first > 0 <==> FirstWaiter(waiting, sleepsOn[..], resource) < |waiting|
      ensures first > 0 ==> first == waiting[FirstWaiter(waiting, sleepsOn[..], resource)]
    {
      hide ChainOf, Hash, ChainsOk, NoDuplicates, IsList, FirstWaiter;
      prev, first, k := prev0, first0, k0;
      ChainStart(hash);
      ghost var c := Chain(hash);
      assert k < |c| ==> c[k] in c;
      while first > 0 && sleepsOn[first] != resource
        invariant SearchedTo(Chain(hash), sleepsOn[..], resource, prev, first, k)
        invariant first < sleepsOn.Length
        decreases |c| - k
      {
        NextInChain(hash, k);
        prev := first;
        first := next[first];
        k := k + 1;
        assert k < |c| ==> c[k] in c;
      }
      SearchEnds(hash, resource, prev, first, k);
    }

    lemma SearchEnds(hash: nat, resource: nat, prev: int, first: int, k: nat)
      requires Valid() && hash == Hash(resource, hashtable.Length)
      requires SearchedTo(Chain(hash), sleepsOn[..], resource, prev, first, k)
      requires first > 0 ==> first < sleepsOn.Length && sleepsOn[first] == resource
      ensures k == FirstWaiter(Chain(hash), sleepsOn[..], resource)
      ensures first > 0 <==> k < |Chain(hash)|
      ensures first > 0 <==> FirstWaiter(waiting, sleepsOn[..], resource) < |waiting|
      ensures first > 0 ==> first == waiting[FirstWaiter(waiting, sleepsOn[..], resource)]
    {
      hide ChainOf, Hash, ChainsOk, NoDuplicates, IsList, FirstWaiter;
      var c := Chain(hash);
      ChainStart(hash);
      if k < |c| {
        assert c[k] in c;
      }
      SearchedAt(c, sleepsOn[..], resource, k);
      SearchChain(waiting, sleepsOn[..], hashtable.Length, resource);
    }

    /** sleepq_wake under the sleep queue's lock alone: the oldest waiter leaves its chain. */
    method TakeOldest(resource: nat) returns (first: int)
      requires Valid()
      modifies this`waiting, next, hashtable
      ensures Valid()
      ensures first > 0 <==> FirstWaiter(old(waiting), sleepsOn[..], resource) < |old(waiting)|
      ensures if first > 0
              then first == old(waiting)[FirstWaiter(old(waiting), sleepsOn[..], resource)] && first !in waiting
                   && Abs() == Threads.Unlink(old(Abs()), resource)
              else Abs() == old(Abs())
      ensures LinksKept(old(next[..]), next[..], ready, old(waiting), IDLE_THREAD_TID)
    {
      hide ChainOf, Hash, ChainsOk, NoDuplicates, IsList, FirstWaiter;
      var hash := Hash(resource, hashtable.Length);
      ChainStart(hash);
      var prev;
      ghost var k;
      prev, first, k := Search(hash, resource, -1, hashtable[hash], 0);
      if first > 0 {
        UnlinkAt(hash, prev, first, resource, k);
      }
    }

    /** sleepq_wake. */
    method SleepqWake(resource: nat)
      requires Valid()
      modifies this`head, this`tail, this`ready, this`waiting, next, state, sleepsOn, hashtable
      ensures Valid() && Abs() == Threads.Wake(old(Abs()), resource)
      ensures LinksKept(old(next[..]), next[..], old(ready), old(waiting), IDLE_THREAD_TID)
    {
      hide ChainOf, Hash, ChainsOk, NoDuplicates, IsList, FirstWaiter;
      var first := TakeOldest(resource);
      if first > 0 {
        assert first in old(waiting);
        Awaken(first);
      }
    }

    /** One waiter of sleepq_wake_all leaves its chain, and the search goes on behind it. */
    method TakeAt(hash: nat, prev: int, first: Tid, ghost resource: nat, ghost k: nat) returns (after: int)
      requires Valid() && hash == Hash(resource, hashtable.Length)
      requires SearchedTo(Chain(hash), sleepsOn[..], resource, prev, first, k)
      requires FirstWaiter(Chain(hash), sleepsOn[..], resource) == k < |Chain(hash)|
      modifies this`waiting, next, hashtable
      ensures Valid() && FirstWaiter(old(waiting), sleepsOn[..], resource) < |old(waiting)|
      ensures first == old(waiting)[FirstWaiter(old(waiting), sleepsOn[..], resource)]
      ensures first in old(waiting) && first !in waiting && 0 < first < next.Length
      ensures Abs() == Threads.Unlink(old(Abs()), resource)
      ensures LinksKept(old(next[..]), next[..], ready, old(waiting), IDLE_THREAD_TID)
      ensures SearchedTo(Chain(hash), sleepsOn[..], resource, prev, after, k)
    {
      hide ChainOf, Hash, ChainsOk, NoDuplicates, IsList, FirstWaiter, SearchedTo;
      ghost var c, s0 := Chain(hash), sleepsOn[..];
      NextInChain(hash, k);
      assert prev == (if k == 0 then -1 else c[k - 1]) && first == c[k] && first < |s0| && s0[first] == resource by {
        PositionOf(c, s0, resource, prev, first, k);
      }
      SearchChain(waiting, s0, hashtable.Length, resource);
      OwnChainWithout(waiting, s0, hashtable.Length, resource);
      UnlinkAt(hash, prev, first, resource, k);
      after := if prev <= 0 then hashtable[hash] else next[prev];
      SearchGoesOn(c, s0, resource, prev, k);
    }

    /** One waiter of sleepq_wake_all: out of its chain, and awake. */
    method WakeAt(hash: nat, prev: int, first: Tid, resource: nat, ghost k: nat) returns (after: int)
      requires Valid() && hash == Hash(resource, hashtable.Length)
      requires SearchedTo(Chain(hash), sleepsOn[..], resource, prev, first, k)
      requires FirstWaiter(Chain(hash), sleepsOn[..], resource) == k < |Chain(hash)|
      modifies this`head, this`tail, this`ready, this`waiting, next, state, sleepsOn, hashtable
      ensures Valid() && Abs() == Threads.Wake(old(Abs()), resource) && |waiting| == |old(waiting)| - 1
      ensures FirstWaiter(old(waiting), old(sleepsOn[..]), resource) < |old(waiting)|
      ensures SearchedTo(Chain(hash), sleepsOn[..], resource, prev, after, k)
      ensures LinksKept(old(next[..]), next[..], old(ready), old(waiting), IDLE_THREAD_TID)
      ensures first in old(waiting)
      ensures forall t :: t in waiting ==> t in old(waiting)
      ensures forall t :: t in ready ==> t in old(ready) || t in old(waiting)
    {
      hide ChainOf, Hash, ChainsOk, NoDuplicates, IsList, FirstWaiter, SearchedTo;
      SearchChain(waiting, sleepsOn[..], hashtable.Length, resource);
      RemoveAtMembers(waiting, FirstWaiter(waiting, sleepsOn[..], resource));
      after := TakeAt(hash, prev, first, resource, k);
      ghost var s1 := sleepsOn[..];
      Awaken(first);
      assert sleepsOn[..] == s1[first := 0];
      SearchKept(waiting, s1, sleepsOn[..], hashtable.Length, hash, resource, prev, after, k);
    }

    lemma NextInChain(hash: nat, k: nat)
      requires Valid() && hash < hashtable.Length && k < |Chain(hash)|
      ensures var c := ChainOf(waiting, sleepsOn[..], hashtable.Length, hash);
              && 0 < c[k] < next.Length && next[c[k]] == (if k + 1 < |c| then c[k + 1] else -1)
              && (k > 0 ==> 0 < c[k - 1])
    {
      hide ChainOf, NoDuplicates;
      var c := ChainOf(waiting, sleepsOn[..], hashtable.Length, hash);
      assert IsList(hashtable[..][hash], next[..], c);
      assert next[..][c[k]] == next[c[k]];
    }

    /** sleepq_wake_all, as one call that nothing interrupts. */
    method SleepqWakeAll(resource: nat)
      requires Valid()
      modifies this`head, this`tail, this`ready, this`waiting, next, state, sleepsOn, hashtable
      ensures Valid() && Abs() == Threads.WakeAll(old(Abs()), resource)
      ensures LinksKept(old(next[..]), next[..], old(ready), old(waiting), IDLE_THREAD_TID)
    {
      hide ChainOf, Hash, ChainsOk, NoDuplicates, IsList, Threads.WakeAll, Threads.Wake, FirstWaiter;
      var hash := Hash(resource, hashtable.Length);
      ChainStart(hash);
      var prev, first := -1, hashtable[hash];
      ghost var k: nat := 0;
      while first > 0
        invariant Valid() && SearchedTo(Chain(hash), sleepsOn[..], resource, prev, first, k)
        invariant Threads.WakeAll(Abs(), resource) == Threads.WakeAll(old(Abs()), resource)
        invariant LinksKept(old(next[..]), next[..], old(ready), old(waiting), IDLE_THREAD_TID)
        invariant forall t :: t in waiting ==> t in old(waiting)
        invariant forall t :: t in ready ==> t in old(ready) || t in old(waiting)
        decreases |waiting|, first > 0
      {
        prev, first, k := Search(hash, resource, prev, first, k);
        if first > 0 {
          WakeAllStep(Abs(), resource);
          first := WakeAt(hash, prev, first, resource, k);
        }
      }
      SearchEnds(hash, resource, prev, first, k);
      WakeAllStep(Abs(), resource);
    }

    lemma ChainStart(hash: nat)
      requires Valid() && hash < hashtable.Length
      ensures var c := ChainOf(waiting, sleepsOn[..], hashtable.Length, hash);
              && hashtable[hash] == (if c == [] then -1 else c[0])
              && (forall t :: t in c ==> 0 < t < sleepsOn.Length && t in waiting)
    {
      hide ChainOf, NoDuplicates;
      ChainMembers(waiting, sleepsOn[..], hashtable.Length, hash);
      assert IsList(hashtable[..][hash], next[..], ChainOf(waiting, sleepsOn[..], hashtable.Length, hash));
    }
  }

  lemma SlotBound(i: nat, n: nat, size: nat)
    requires size > 0
    ensures 0 <= (i + n) % size < size
  {
  }

  lemma WakeAllStep(s: Sys, r: nat)
    requires |s.sleepsOn| == |s.state|
    ensures Threads.WakeAll(s, r)
            == if FirstWaiter(s.waiting, s.sleepsOn, r) < |s.waiting| then Threads.WakeAll(Threads.Wake(s, r), r) else s
  {
  }

  /** What the callers of scheduler_schedule see to: a thread that will go on the ready list
      is in neither queue, and the first ready thread is READY. */
  ghost predicate SchedulePre(s: Sys, cpu: nat) {
    && cpu < |s.current| && s.current[cpu] < |s.state| == |s.sleepsOn|
    && (s.current[cpu] != IDLE_THREAD_TID && s.state[s.current[cpu]] != DYING && s.sleepsOn[s.current[cpu]] == 0 ==>
          s.current[cpu] !in s.ready && s.current[cpu] !in s.waiting)
    && (s.ready != [] ==> s.ready[0] < |s.state| && s.ready[0] != s.current[cpu] && s.state[s.ready[0]] == READY)
  }
}
