/** Every step keeps the invariant. */
module KernelSteps {
  import opened Collections
  import opened Threads
  import opened Kernel
  import opened KernelInvariant

  lemma CurrentMembers(cur: seq<Tid>, cpu: nat, x: Tid)
    requires cpu < |cur|
    requires forall c, d :: 0 <= c < d < |cur| && cur[c] == cur[d] ==> cur[c] == IDLE_THREAD_TID
    ensures forall t :: t != IDLE_THREAD_TID ==> (t in cur[cpu := x] <==> t == x || (t in cur && t != cur[cpu]))
  {
    var cur' := cur[cpu := x];
    forall t | t != IDLE_THREAD_TID
      ensures t in cur' <==> t == x || (t in cur && t != cur[cpu])
    {
      if t in cur' {
        var k :| 0 <= k < |cur'| && cur'[k] == t;
        if k != cpu {
          assert cur[k] == t;
        }
      }
      if t in cur && t != cur[cpu] {
        var k :| 0 <= k < |cur| && cur[k] == t;
        assert cur'[k] == t;
      }
      assert cur'[cpu] == x;
    }
  }

  /** Nothing a thread's part of the invariant looks at has changed. */
  ghost predicate SameFor(m: Machine, n: Machine, t: Tid)
    requires Shaped(m) && Shaped(n) && |m.sys.state| == |n.sys.state|
  {
    t < |m.sys.state| ==>
      && m.sys.state[t] == n.sys.state[t] && m.sys.sleepsOn[t] == n.sys.sleepsOn[t]
      && m.calls[t] == n.calls[t] && m.user[t] == n.user[t]
      && (t in m.sys.ready <==> t in n.sys.ready)
      && (t in m.sys.waiting <==> t in n.sys.waiting)
      && (t in m.sys.current <==> t in n.sys.current)
      && (BeingWoken(m, t) <==> BeingWoken(n, t))
      && m.sems.Keys == n.sems.Keys
      && (forall r :: LockedBy(m, r, t) ==> LockedBy(n, r, t))
  }

  lemma SameThread(m: Machine, n: Machine, t: Tid)
    requires Shaped(m) && Shaped(n) && |m.sys.state| == |n.sys.state|
    requires ThreadOk(m, t) && SameFor(m, n, t)
    ensures ThreadOk(n, t)
  {
    if IsThread(m.sys, t) {
      assert forall r :: r in m.sems <==> r in n.sems;
    }
  }

  /** If one thread is all a step changes, only that thread's part is to be shown. */
  lemma OthersKeep(m: Machine, n: Machine, t: Tid)
    requires Shaped(m) && Shaped(n) && |m.sys.state| == |n.sys.state|
    requires forall u :: ThreadOk(m, u)
    requires forall u: Tid :: u != t && u != IDLE_THREAD_TID ==> SameFor(m, n, u)
    requires ThreadOk(n, t)
    ensures forall u :: ThreadOk(n, u)
  {
    forall u ensures ThreadOk(n, u) {
      if u != t && u != IDLE_THREAD_TID {
        SameThread(m, n, u);
      }
    }
  }

  lemma BooksElsewhere(user: seq<User>, t: Tid, u: User, r: nat)
    requires t < |user|
    requires user[t].Blocked? ==> user[t].r != r
    requires u.Blocked? ==> u.r != r
    ensures BlockedOn(user[t := u], r) == BlockedOn(user, r)
    ensures Ungranted(user[t := u], r) == Ungranted(user, r)
  {
  }

  lemma CreateKeeps(m: Machine, t: Tid)
    requires Inv(m) && Enabled(m, Create(t))
    ensures Inv(Apply(m, Create(t)))
  {
    hide BlockedOn, Ungranted;
    var n := Apply(m, Create(t));
    assert ThreadOk(m, t);
    OthersKeep(m, n, t);
    assert forall r :: r in m.sems ==> SemOk(m, r);
  }

  lemma InitSlotKeeps(m: Machine, t: Tid)
    requires Inv(m) && Enabled(m, InitSlot(t))
    ensures Inv(Apply(m, InitSlot(t)))
  {
    hide BlockedOn, Ungranted;
    var n := Apply(m, InitSlot(t));
    assert ThreadOk(m, t);
    OthersKeep(m, n, t);
    assert forall r :: r in m.sems ==> SemOk(m, r);
  }

  lemma StartKeeps(m: Machine, t: Tid)
    requires Inv(m) && Enabled(m, Start(t))
    ensures Inv(Apply(m, Start(t)))
  {
    hide BlockedOn, Ungranted;
    var n := Apply(m, Start(t));
    assert ThreadOk(m, t);
    OthersKeep(m, n, t);
    assert forall r :: r in m.sems ==> SemOk(m, r);
  }

  lemma FinishKeeps(m: Machine, c: nat)
    requires Inv(m) && Enabled(m, Finish(c))
    ensures Inv(Apply(m, Finish(c)))
  {
    hide BlockedOn, Ungranted;
    var n := Apply(m, Finish(c));
    var t := On(m, c);
    assert ThreadOk(m, t);
    assert t in m.sys.current;
    OthersKeep(m, n, t);
    assert forall r :: r in m.sems ==> SemOk(m, r);
  }

  lemma AddPrepareKeeps(m: Machine, c: nat, r: nat)
    requires Inv(m) && Enabled(m, AddPrepare(c, r))
    ensures Inv(Apply(m, AddPrepare(c, r)))
  {
    hide BlockedOn, Ungranted;
    var n := Apply(m, AddPrepare(c, r));
    var t := On(m, c);
    assert ThreadOk(m, t);
    OthersKeep(m, n, t);
    assert forall q :: q in m.sems ==> SemOk(m, q);
  }

  lemma AddLinkKeeps(m: Machine, c: nat)
    requires Inv(m) && Enabled(m, AddLink(c))
    ensures Inv(Apply(m, AddLink(c)))
  {
    hide BlockedOn, Ungranted;
    var n := Apply(m, AddLink(c));
    var t := On(m, c);
    assert ThreadOk(m, t);
    OthersKeep(m, n, t);
    assert forall q :: q in m.sems ==> SemOk(m, q);
  }

  lemma WakeAllBeginKeeps(m: Machine, c: nat, r: nat)
    requires Inv(m) && Enabled(m, WakeAllBegin(c, r))
    ensures Inv(Apply(m, WakeAllBegin(c, r)))
  {
    hide BlockedOn, Ungranted, NoDuplicates, PlaceOk, CallOk, UserOk;
    var n := Apply(m, WakeAllBegin(c, r));
    OthersKeep(m, n, IDLE_THREAD_TID);
    assert forall q :: q in m.sems ==> SemOk(m, q);
  }

  lemma PPrepareKeeps(m: Machine, c: nat)
    requires Inv(m) && Enabled(m, PPrepare(c))
    ensures Inv(Apply(m, PPrepare(c)))
  {
    hide BlockedOn, Ungranted;
    var n := Apply(m, PPrepare(c));
    var t := On(m, c);
    assert ThreadOk(m, t);
    assert SemOk(m, m.calls[t].r);
    OthersKeep(m, n, t);
    assert forall q :: q in m.sems ==> SemOk(m, q);
  }

  lemma PReleaseKeeps(m: Machine, c: nat)
    requires Inv(m) && Enabled(m, PRelease(c))
    ensures Inv(Apply(m, PRelease(c)))
  {
    hide BlockedOn, Ungranted, NoDuplicates;
    var n := Apply(m, PRelease(c));
    var t := On(m, c);
    assert ThreadOk(m, t);
    OthersKeep(m, n, t);
    assert forall q :: q in m.sems ==> SemOk(m, q);
  }

  lemma VReleaseKeeps(m: Machine, c: nat, r: nat)
    requires Inv(m) && Enabled(m, VRelease(c, r))
    ensures Inv(Apply(m, VRelease(c, r)))
  {
    hide BlockedOn, Ungranted, NoDuplicates, PlaceOk, CallOk, UserOk;
    var n := Apply(m, VRelease(c, r));
    OthersKeep(m, n, IDLE_THREAD_TID);
    assert forall q :: q in m.sems ==> SemOk(m, q);
  }

  lemma FirstWaiterIs(m: Machine, r: nat)
    requires Shaped(m) && QueuesOk(m.sys)
    ensures var i := FirstWaiter(m.sys.waiting, m.sys.sleepsOn, r);
            if i < |m.sys.waiting|
            then IsThread(m.sys, m.sys.waiting[i]) && m.sys.sleepsOn[m.sys.waiting[i]] == r
            else forall t :: t in m.sys.waiting ==> m.sys.sleepsOn[t] != r
  {
    var i := FirstWaiter(m.sys.waiting, m.sys.sleepsOn, r);
    if i < |m.sys.waiting| {
      assert m.sys.waiting[i] in m.sys.waiting;
    } else {
      forall t | t in m.sys.waiting ensures m.sys.sleepsOn[t] != r {
        var k :| 0 <= k < |m.sys.waiting| && m.sys.waiting[k] == t;
      }
    }
  }

  lemma WakeBeginKeeps(m: Machine, c: nat, r: nat)
    requires Inv(m) && Enabled(m, WakeBegin(c, r))
    ensures Inv(Apply(m, WakeBegin(c, r)))
  {
    hide BlockedOn, Ungranted;
    var n := Apply(m, WakeBegin(c, r));
    var i := FirstWaiter(m.sys.waiting, m.sys.sleepsOn, r);
    FirstWaiterIs(m, r);
    if i < |m.sys.waiting| {
      var w := m.sys.waiting[i];
      RemoveAtMembers(m.sys.waiting, i);
      assert ThreadOk(m, w);
      OthersKeep(m, n, w);
      assert forall q :: q in m.sems ==> SemOk(m, q);
    }
  }

  lemma WakeAllNextKeeps(m: Machine, c: nat)
    requires Inv(m) && Enabled(m, WakeAllNext(c))
    ensures Inv(Apply(m, WakeAllNext(c)))
  {
    hide BlockedOn, Ungranted, NoDuplicates;
    var n := Apply(m, WakeAllNext(c));
    var r := m.sleepq.r;
    var i := FirstWaiter(m.sys.waiting, m.sys.sleepsOn, r);
    FirstWaiterIs(m, r);
    if i < |m.sys.waiting| {
      var w := m.sys.waiting[i];
      RemoveAtMembers(m.sys.waiting, i);
      assert ThreadOk(m, w);
      OthersKeep(m, n, w);
    } else {
      OthersKeep(m, n, IDLE_THREAD_TID);
    }
    assert forall q :: q in m.sems ==> SemOk(m, q);
  }

  /** Outside of the moment between a V's increment and its wake-up the books do not
      depend on the lock. */
  lemma RelockedBooks(s: Sem, user: seq<User>, r: nat, lock: SemLock)
    requires BooksOk(s, user, r)
    requires !(s.lock.HeldByV? && s.lock.phase == MustWake) && !(lock.HeldByV? && lock.phase == MustWake)
    ensures BooksOk(s.(lock := lock), user, r)
  {
  }

  lemma WakeEndWoken(m: Machine, c: nat)
    requires Inv(m) && Enabled(m, WakeEnd(c))
    ensures ThreadOk(Apply(m, WakeEnd(c)), m.sleepq.w)
    ensures m.sys.state[m.sleepq.w] == SLEEPING ==> m.sleepq.w !in m.sys.ready
  {
    hide SemOk, NoDuplicates;
    assert ThreadOk(m, m.sleepq.w);
  }

  lemma WakeEndKeeps(m: Machine, c: nat)
    requires Inv(m) && Enabled(m, WakeEnd(c))
    ensures Inv(Apply(m, WakeEnd(c)))
  {
    hide BlockedOn, Ungranted, BooksOk, NoDuplicates, PlaceOk, CallOk, UserOk;
    var n := Apply(m, WakeEnd(c));
    var w := m.sleepq.w;
    if m.sleepq.r in m.sems {
      assert SemOk(m, m.sleepq.r);
      RelockedBooks(m.sems[m.sleepq.r], m.user, m.sleepq.r, HeldByV(c, Woke));
    }
    WakeEndWoken(m, c);
    if m.sys.state[w] == SLEEPING {
      AppendNoDuplicates(m.sys.ready, w);
    }
    OthersKeep(m, n, w);
    assert QueuesOk(n.sys);
    assert IdleOk(n);
    assert SleepqOk(n);
    assert forall q :: q in n.sems ==> SemOk(n, q);
  }

  /** The books after a V's increment, with the wake-up still to come if it is due. */
  lemma IncrementedBooks(s: Sem, user: seq<User>, r: nat, c: nat, inside: set<Tid>)
    requires BooksOk(s, user, r) && s.lock == NotHeld
    ensures BooksOk(s.(value := s.value + 1, vs := s.vs + 1, inside := inside,
                       lock := if s.value + 1 <= 0 then HeldByV(c, MustWake) else NotHeld), user, r)
  {
  }

  lemma VBeginKeeps(m: Machine, c: nat, r: nat)
    requires Inv(m) && Enabled(m, VBegin(c, r))
    ensures Inv(Apply(m, VBegin(c, r)))
  {
    hide BlockedOn, Ungranted, BooksOk, NoDuplicates, PlaceOk, CallOk, UserOk;
    var n := Apply(m, VBegin(c, r));
    assert SemOk(m, r);
    IncrementedBooks(m.sems[r], m.user, r, c, n.sems[r].inside);
    OthersKeep(m, n, IDLE_THREAD_TID);
    assert QueuesOk(n.sys);
    assert IdleOk(n);
    assert SleepqOk(n);
    assert forall q :: q in n.sems ==> SemOk(n, q);
  }

  lemma VPicks(m: Machine, c: nat, r: nat)
    requires Inv(m) && Enabled(m, VUnlink(c, r))
    ensures var i := FirstWaiter(m.sys.waiting, m.sys.sleepsOn, r);
            i < |m.sys.waiting| && m.sys.waiting[i] < |m.user| && m.user[m.sys.waiting[i]] == Blocked(r, false)
  {
    FirstWaiterIs(m, r);
    assert SemOk(m, r);
    var left := Ungranted(m.user, r);
    assert |left| > 0;
    var t :| t in left;
    assert ThreadOk(m, t);
    var i := FirstWaiter(m.sys.waiting, m.sys.sleepsOn, r);
    assert i < |m.sys.waiting|;
    assert ThreadOk(m, m.sys.waiting[i]);
  }

  lemma VUnlinkBooks(m: Machine, c: nat, r: nat)
    requires Inv(m) && Enabled(m, VUnlink(c, r))
    ensures var n := Apply(m, VUnlink(c, r));
            forall q :: q in n.sems ==> SemOk(n, q)
  {
    hide ThreadOk, QueuesOk, IdleOk, SleepqOk;
    var n := Apply(m, VUnlink(c, r));
    var i := FirstWaiter(m.sys.waiting, m.sys.sleepsOn, r);
    VPicks(m, c, r);
    var w := m.sys.waiting[i];
    assert SemOk(m, r);
    assert BlockedOn(n.user, r) == BlockedOn(m.user, r);
    assert Ungranted(n.user, r) == Ungranted(m.user, r) - {w};
    forall q | q in n.sems ensures SemOk(n, q) {
      if q != r {
        assert SemOk(m, q);
        BooksElsewhere(m.user, w, Blocked(r, true), q);
      }
    }
  }

  lemma VUnlinkKeeps(m: Machine, c: nat, r: nat)
    requires Inv(m) && Enabled(m, VUnlink(c, r))
    ensures Inv(Apply(m, VUnlink(c, r)))
  {
    hide BlockedOn, Ungranted, NoDuplicates, BooksOk;
    var n := Apply(m, VUnlink(c, r));
    var i := FirstWaiter(m.sys.waiting, m.sys.sleepsOn, r);
    FirstWaiterIs(m, r);
    VPicks(m, c, r);
    var w := m.sys.waiting[i];
    RemoveAtMembers(m.sys.waiting, i);
    assert ThreadOk(m, w);
    OthersKeep(m, n, w);
    VUnlinkBooks(m, c, r);
  }

  lemma BlockingBooks(s: Sem, user: seq<User>, t: Tid, r: nat)
    requires t < |user| && user[t] == Outside
    requires BooksOk(s, user, r) && s.lock == NotHeld && s.value <= 0
    ensures BooksOk(s.(value := s.value - 1, ps := s.ps + 1, lock := HeldByP(t)), user[t := Blocked(r, false)], r)
  {
    var user' := user[t := Blocked(r, false)];
    assert BlockedOn(user', r) == BlockedOn(user, r) + {t};
    assert Ungranted(user', r) == Ungranted(user, r) + {t};
  }

  lemma PBeginBooks(m: Machine, c: nat, r: nat)
    requires Inv(m) && Enabled(m, PBegin(c, r))
    ensures var n := Apply(m, PBegin(c, r));
            forall q :: q in n.sems ==> SemOk(n, q)
  {
    hide ThreadOk, QueuesOk, SleepqOk, BlockedOn, Ungranted;
    var n := Apply(m, PBegin(c, r));
    var t := On(m, c);
    assert SemOk(m, r);
    if n.user != m.user {
      BlockingBooks(m.sems[r], m.user, t, r);
    }
    forall q | q in n.sems ensures SemOk(n, q) {
      if q != r {
        assert SemOk(m, q);
        BooksElsewhere(m.user, t, Blocked(r, false), q);
      }
    }
  }

  lemma PBeginKeeps(m: Machine, c: nat, r: nat)
    requires Inv(m) && Enabled(m, PBegin(c, r))
    ensures Inv(Apply(m, PBegin(c, r)))
  {
    hide BlockedOn, Ungranted, NoDuplicates, BooksOk;
    var n := Apply(m, PBegin(c, r));
    var t := On(m, c);
    assert ThreadOk(m, t);
    assert t in m.sys.current;
    OthersKeep(m, n, t);
    PBeginBooks(m, c, r);
  }

  lemma PReturnBooks(m: Machine, c: nat)
    requires Inv(m) && Enabled(m, PReturn(c))
    requires m.user[On(m, c)].granted
    ensures var n := Apply(m, PReturn(c));
            forall q :: q in n.sems ==> SemOk(n, q)
  {
    hide ThreadOk, QueuesOk, SleepqOk;
    var n := Apply(m, PReturn(c));
    var t := On(m, c);
    var r := m.user[t].r;
    assert ThreadOk(m, t);
    assert SemOk(m, r);
    assert BlockedOn(n.user, r) == BlockedOn(m.user, r) - {t};
    assert Ungranted(n.user, r) == Ungranted(m.user, r);
    forall q | q in n.sems ensures SemOk(n, q) {
      if q != r {
        assert SemOk(m, q);
        BooksElsewhere(m.user, t, Outside, q);
      }
    }
  }

  lemma PReturnKeeps(m: Machine, c: nat)
    requires Inv(m) && Enabled(m, PReturn(c))
    ensures Inv(Apply(m, PReturn(c)))
  {
    hide BlockedOn, Ungranted, BooksOk;
    var n := Apply(m, PReturn(c));
    var t := On(m, c);
    assert ThreadOk(m, t);
    assert t in m.sys.current;
    OthersKeep(m, n, t);
    PReturnBooks(m, c);
  }

  /** The ready list after the thread t has left its cpu and before the next one is taken. */
  lemma SwitchOutReady(m: Machine, c: nat)
    requires Inv(m) && Enabled(m, Reschedule(c))
    ensures var s, t := SwitchOut(m.sys, c), On(m, c);
            && NoDuplicates(s.ready) && IDLE_THREAD_TID !in s.ready
            && (forall v :: v in s.ready ==> v < |s.state|)
            && (forall v: Tid :: v != IDLE_THREAD_TID ==>
                  (v in s.ready <==> v in m.sys.ready || (v == t && m.sys.state[t] != DYING && m.sys.sleepsOn[t] == 0)))
  {
    hide CallOk, UserOk, SleepqOk, SemOk, IdleOk, NoDuplicates, ThreadOk;
    var t := On(m, c);
    assert t in m.sys.current;
    assert ThreadOk(m, t);
    if t != IDLE_THREAD_TID {
      OnCpuNotReady(m, t);
      AppendNoDuplicates(m.sys.ready, t);
    }
  }

  lemma OnCpuNotReady(m: Machine, t: Tid)
    requires Inv(m) && t != IDLE_THREAD_TID && t in m.sys.current
    ensures t !in m.sys.ready
  {
    assert ThreadOk(m, t);
  }

  /** What scheduler_schedule does to the two queues and the cpus. */
  lemma RescheduleQueues(m: Machine, c: nat)
    requires Inv(m) && Enabled(m, Reschedule(c))
    ensures var t, n := On(m, c), Apply(m, Reschedule(c));
            var u := n.sys.current[c];
            && QueuesOk(n.sys)
            && (u != IDLE_THREAD_TID ==> u in m.sys.ready || (u == t && m.sys.state[t] != DYING && m.sys.sleepsOn[t] == 0))
            && (forall v: Tid :: v != IDLE_THREAD_TID ==>
                  && (v in n.sys.current <==> v == u || (v in m.sys.current && v != t))
                  && (v in n.sys.ready <==>
                        v != u && (v in m.sys.ready || (v == t && m.sys.state[t] != DYING && m.sys.sleepsOn[t] == 0))))
  {
    hide SleepqOk, SemOk, IdleOk, NoDuplicates, ThreadOk;
    var n := Apply(m, Reschedule(c));
    var t := On(m, c);
    var s := SwitchOut(m.sys, c);
    var u := n.sys.current[c];
    SwitchOutReady(m, c);
    if s.ready != [] {
      TailMembers(s.ready);
      assert u in s.ready;
    }
    CurrentMembers(m.sys.current, c, u);
    forall d | 0 <= d < |m.sys.current| && d != c && m.sys.current[d] == u
      ensures u == IDLE_THREAD_TID
    {
      assert u in m.sys.current && t in m.sys.current;
      if u != IDLE_THREAD_TID {
        OnCpuNotReady(m, u);
      }
    }
  }

  lemma RescheduleThread(m: Machine, c: nat, v: Tid)
    requires Inv(m) && Enabled(m, Reschedule(c))
    requires v == On(m, c) || v == Apply(m, Reschedule(c)).sys.current[c]
    ensures ThreadOk(Apply(m, Reschedule(c)), v)
  {
    hide QueuesOk, SleepqOk, SemOk;
    var t := On(m, c);
    RescheduleQueues(m, c);
    assert ThreadOk(m, v);
    assert ThreadOk(m, t);
    assert t in m.sys.current;
  }

  lemma RescheduleKeeps(m: Machine, c: nat)
    requires Inv(m) && Enabled(m, Reschedule(c))
    ensures Inv(Apply(m, Reschedule(c)))
  {
    hide BlockedOn, Ungranted, QueuesOk, CallOk, UserOk;
    var n := Apply(m, Reschedule(c));
    var t := On(m, c);
    var u := n.sys.current[c];
    RescheduleQueues(m, c);
    RescheduleThread(m, c, t);
    RescheduleThread(m, c, u);
    forall v ensures ThreadOk(n, v) {
      if v != t && v != u && v != IDLE_THREAD_TID {
        SameThread(m, n, v);
      }
    }
    assert IdleOk(n);
    assert SleepqOk(n);
    assert forall q :: q in n.sems ==> SemOk(n, q);
  }

  lemma StepKeeps(m: Machine, step: Step)
    requires Inv(m) && Enabled(m, step)
    ensures Inv(Apply(m, step))
  {
    hide Inv, Apply, Enabled;
    match step
    case Create(t) => CreateKeeps(m, t);
    case InitSlot(t) => InitSlotKeeps(m, t);
    case Start(t) => StartKeeps(m, t);
    case Finish(c) => FinishKeeps(m, c);
    case Reschedule(c) => RescheduleKeeps(m, c);
    case AddPrepare(c, r) => AddPrepareKeeps(m, c, r);
    case AddLink(c) => AddLinkKeeps(m, c);
    case WakeBegin(c, r) => WakeBeginKeeps(m, c, r);
    case WakeEnd(c) => WakeEndKeeps(m, c);
    case WakeAllBegin(c, r) => WakeAllBeginKeeps(m, c, r);
    case WakeAllNext(c) => WakeAllNextKeeps(m, c);
    case PBegin(c, r) => PBeginKeeps(m, c, r);
    case PPrepare(c) => PPrepareKeeps(m, c);
    case PRelease(c) => PReleaseKeeps(m, c);
    case PReturn(c) => PReturnKeeps(m, c);
    case VBegin(c, r) => VBeginKeeps(m, c, r);
    case VUnlink(c, r) => VUnlinkKeeps(m, c, r);
    case VRelease(c, r) => VReleaseKeeps(m, c, r);
  }
}
