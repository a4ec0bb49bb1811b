/** The virtual filesystem's mount table, open-file table, operation count and shutdown, as a
    step system: any number of threads interleave, and one step is what a thread does while
    it holds the locks of one region. */
module Vfs {
  import opened Words

  const VFS_OK: int := 0
  const VFS_ERROR: int := -2
  const VFS_NOT_FOUND: int := -5
  const VFS_NO_SUCH_FS: int := -6
  const VFS_LIMIT: int := -7
  const VFS_IN_USE: int := -8
  const VFS_UNUSABLE: int := -9

  type Name = seq<Byte>

  /** filesystem is 0 in a row that mounts nothing; the mount point stays in it. */
  datatype Row = Row(filesystem: nat, mountpoint: Name)

  /** An open-file slot; filesystem is 0 in a slot that is not in use. */
  datatype File = File(filesystem: nat, fileid: int, position: int)

  /** Where a thread is: outside; inside an operation; inside vfs_open, with a slot reserved
      and the driver called; or with its result, before the end of the operation. */
  datatype Phase = Idle | Working | Opening(slot: nat) | Ending(result: int)

  /** The thread that shuts the system down: waiting for the last operation, woken, done. */
  datatype Halter = NotHalting | Waiting | Woken | Done

  /** opsCount is vfs_ops; pending is the value of vfs_unmount_sem; raised counts its V calls. */
  datatype State = State(
    rows: seq<Row>,
    files: seq<File>,
    opsCount: int,
    usable: bool,
    pending: int,
    raised: nat,
    halter: Halter,
    threads: seq<Phase>)

  datatype Step =
    | StartOp(t: nat)
    | EndOp(t: nat)
    | Mount(t: nat, filesystem: nat, name: Name)
    | Unmount(t: nat, name: Name)
    | OpenReserve(t: nat, volume: Name)
    | OpenDone(t: nat, fileid: int)
    | Close(t: nat, slot: nat)
    | Seek(t: nat, slot: nat, position: nat)
    | Transfer(t: nat, slot: nat, moved: int)
    | Other(t: nat, result: int)
    | Halt
    | HaltWoken
    | HaltFinish

  /** The first row or slot with no filesystem, or the size of the table. */
  function FreeRow(rows: seq<Row>): (i: nat)
    ensures i <= |rows|
    ensures i < |rows| ==> rows[i].filesystem == 0
    ensures forall k :: 0 <= k < i ==> rows[k].filesystem != 0
  {
    if rows == [] || rows[0].filesystem == 0 then 0 else 1 + FreeRow(rows[1..])
  }

  function FreeFile(files: seq<File>): (i: nat)
    ensures i <= |files|
    ensures i < |files| ==> files[i].filesystem == 0
    ensures forall k :: 0 <= k < i ==> files[k].filesystem != 0
  {
    if files == [] || files[0].filesystem == 0 then 0 else 1 + FreeFile(files[1..])
  }

  /** The first row with this mount point, or the size of the table. */
  function RowOf(rows: seq<Row>, name: Name): (i: nat)
    ensures i <= |rows|
    ensures i < |rows| ==> rows[i].mountpoint == name
    ensures forall k :: 0 <= k < i ==> rows[k].mountpoint != name
  {
    if rows == [] || rows[0].mountpoint == name then 0 else 1 + RowOf(rows[1..], name)
  }

  /** vfs_get_filesystem: 0 stands for NULL. */
  function FilesystemAt(rows: seq<Row>, name: Name): nat {
    var i := RowOf(rows, name);
    if i < |rows| then rows[i].filesystem else 0
  }

  predicate InUse(files: seq<File>, filesystem: nat) {
    exists i :: 0 <= i < |files| && files[i].filesystem == filesystem
  }

  predicate InOp(p: Phase) {
    p != Idle
  }

  predicate At(s: State, t: nat, p: Phase) {
    t < |s.threads| && s.threads[t] == p
  }

  /** What callers see to: a mounted filesystem is not NULL and its name is short and not
      empty, and only open handles are closed, sought or used. */
  predicate Enabled(s: State, step: Step) {
    match step
    case StartOp(t) => At(s, t, Idle)
    case EndOp(t) => t < |s.threads| && s.threads[t].Ending?
    case Mount(t, filesystem, name) => At(s, t, Working) && filesystem != 0 && 1 <= |name| <= 15
    case Unmount(t, name) => At(s, t, Working)
    case OpenReserve(t, volume) => At(s, t, Working)
    case OpenDone(t, fileid) => t < |s.threads| && s.threads[t].Opening? && s.threads[t].slot < |s.files|
    case Close(t, slot) => At(s, t, Working) && IsOpen(s, slot)
    case Seek(t, slot, position) => At(s, t, Working) && IsOpen(s, slot)
    case Transfer(t, slot, moved) => At(s, t, Working) && IsOpen(s, slot)
    case Other(t, result) => At(s, t, Working)
    case Halt => s.halter == NotHalting
    case HaltWoken => s.halter == Waiting && s.pending > 0
    case HaltFinish => s.halter == Woken
  }

  /** A handle that vfs_open has returned or will return: in use, and no open still works on it. */
  predicate IsOpen(s: State, slot: nat) {
    && slot < |s.files| && s.files[slot].filesystem != 0
    && forall t | 0 <= t < |s.threads| :: s.threads[t] != Opening(slot)
  }

  function With(s: State, t: nat, p: Phase): State
    requires t < |s.threads|
  {
    s.(threads := s.threads[t := p])
  }

  function UnmountAll(rows: seq<Row>): (r: seq<Row>)
    ensures |r| == |rows| && forall i :: 0 <= i < |r| ==> r[i] == rows[i].(filesystem := 0)
  {
    seq(|rows|, i requires 0 <= i < |rows| => rows[i].(filesystem := 0))
  }

  function MountResult(rows: seq<Row>, name: Name): int {
    if FreeRow(rows) == |rows| then VFS_LIMIT
    else if RowOf(rows, name) < |rows| then VFS_ERROR
    else VFS_OK
  }

  function UnmountResult(s: State, name: Name): int {
    var filesystem := FilesystemAt(s.rows, name);
    if filesystem == 0 then VFS_NOT_FOUND else if InUse(s.files, filesystem) then VFS_IN_USE else VFS_OK
  }

  function OpenResult(s: State, volume: Name): int {
    if FreeFile(s.files) == |s.files| then VFS_LIMIT
    else if FilesystemAt(s.rows, volume) == 0 then VFS_NO_SUCH_FS
    else FreeFile(s.files)
  }

  function Apply(s: State, step: Step): State
    requires Enabled(s, step)
  {
    match step
    case StartOp(t) =>
      if s.usable then With(s, t, Working).(opsCount := s.opsCount + 1) else s
    case EndOp(t) =>
      var s1 := With(s, t, Idle).(opsCount := s.opsCount - 1);
      if !s.usable && s1.opsCount == 0 then s1.(pending := s.pending + 1, raised := s.raised + 1) else s1
    case Mount(t, filesystem, name) =>
      var r := MountResult(s.rows, name);
      var s1 := With(s, t, Ending(r));
      if r == VFS_OK then s1.(rows := s.rows[FreeRow(s.rows) := Row(filesystem, name)]) else s1
    case Unmount(t, name) =>
      var r, i := UnmountResult(s, name), RowOf(s.rows, name);
      var s1 := With(s, t, Ending(r));
      if r == VFS_OK then s1.(rows := s.rows[i := s.rows[i].(filesystem := 0)]) else s1
    case OpenReserve(t, volume) =>
      var r := OpenResult(s, volume);
      if r < 0 then With(s, t, Ending(r))
      else With(s, t, Opening(r)).(files := s.files[r := s.files[r].(filesystem := FilesystemAt(s.rows, volume))])
    case OpenDone(t, fileid) =>
      var slot := s.threads[t].slot;
      if fileid < 0
      then With(s, t, Ending(fileid)).(files := s.files[slot := s.files[slot].(filesystem := 0)])
      else With(s, t, Ending(slot)).(files := s.files[slot := s.files[slot].(fileid := fileid, position := 0)])
    case Close(t, slot) =>
      With(s, t, Ending(VFS_OK)).(files := s.files[slot := s.files[slot].(filesystem := 0)])
    case Seek(t, slot, position) =>
      With(s, t, Ending(VFS_OK)).(files := s.files[slot := s.files[slot].(position := position)])
    case Transfer(t, slot, moved) =>
      var s1 := With(s, t, Ending(moved));
      if moved > 0
      then s1.(files := s.files[slot := s.files[slot].(position := s.files[slot].position + moved)])
      else s1
    case Other(t, result) => With(s, t, Ending(result))
    case Halt =>
      if s.opsCount > 0 then s.(usable := false, halter := Waiting)
      else s.(usable := false, halter := Done, rows := UnmountAll(s.rows))
    case HaltWoken => s.(halter := Woken, pending := s.pending - 1)
    case HaltFinish => s.(halter := Done, rows := UnmountAll(s.rows))
  }

  /** The threads inside an operation. */
  ghost function InFlight(threads: seq<Phase>): set<nat> {
    set t | 0 <= t < |threads| && InOp(threads[t])
  }

  ghost predicate CountOk(s: State) {
    s.opsCount == |InFlight(s.threads)|
  }

  /** The shutdown protocol: the semaphore is raised once, when the count reaches zero. */
  predicate HaltOk(s: State) {
    && (s.usable <==> s.halter == NotHalting)
    && match s.halter
       case NotHalting => s.raised == 0 && s.pending == 0
       case Waiting => s.raised == s.pending == (if s.opsCount == 0 then 1 else 0)
       case Woken => s.raised == 1 && s.pending == 0 && s.opsCount == 0
       case Done => s.pending == 0 && s.opsCount == 0 && s.raised <= 1
  }

  predicate Mounted(rows: seq<Row>, filesystem: nat) {
    exists i :: 0 <= i < |rows| && rows[i].filesystem == filesystem
  }

  /** Every slot in use belongs to a mounted filesystem, until the shutdown has unmounted
      them all. */
  ghost predicate SlotsMounted(s: State) {
    s.halter != Done ==>
      forall i :: 0 <= i < |s.files| && s.files[i].filesystem != 0 ==> Mounted(s.rows, s.files[i].filesystem)
  }

  /** Each open that waits for its driver has a slot of its own. */
  ghost predicate OpensApart(s: State) {
    && (forall t :: 0 <= t < |s.threads| && s.threads[t].Opening? ==>
          s.threads[t].slot < |s.files| && s.files[s.threads[t].slot].filesystem != 0)
    && (forall t, u :: 0 <= t < u < |s.threads| && s.threads[t].Opening? && s.threads[u].Opening? ==>
          s.threads[t].slot != s.threads[u].slot)
  }

  ghost predicate Inv(s: State) {
    CountOk(s) && HaltOk(s) && SlotsMounted(s) && OpensApart(s)
  }

  lemma OneEnters(threads: seq<Phase>, t: nat, p: Phase)
    requires t < |threads| && InOp(p) && !InOp(threads[t])
    ensures |InFlight(threads[t := p])| == |InFlight(threads)| + 1
  {
    assert InFlight(threads[t := p]) == InFlight(threads) + {t};
  }

  lemma OneLeaves(threads: seq<Phase>, t: nat, p: Phase)
    requires t < |threads| && !InOp(p) && InOp(threads[t])
    ensures |InFlight(threads[t := p])| == |InFlight(threads)| - 1
  {
    assert InFlight(threads[t := p]) == InFlight(threads) - {t};
  }

  lemma OneStays(threads: seq<Phase>, t: nat, p: Phase)
    requires t < |threads| && InOp(p) == InOp(threads[t])
    ensures |InFlight(threads[t := p])| == |InFlight(threads)|
  {
    assert InFlight(threads[t := p]) == InFlight(threads);
  }

  lemma OneChanges(threads: seq<Phase>, t: nat, p: Phase)
    requires t < |threads|
    ensures |InFlight(threads[t := p])|
            == |InFlight(threads)| + (if InOp(p) then 1 else 0) - (if InOp(threads[t]) then 1 else 0)
  {
    hide InFlight;
    if InOp(p) && !InOp(threads[t]) {
      OneEnters(threads, t, p);
    } else if !InOp(p) && InOp(threads[t]) {
      OneLeaves(threads, t, p);
    } else {
      OneStays(threads, t, p);
    }
  }

  lemma SomeInFlight(threads: seq<Phase>, t: nat)
    requires t < |threads| && InOp(threads[t])
    ensures |InFlight(threads)| > 0
  {
    assert t in InFlight(threads);
  }

  lemma StepCount(s: State, step: Step)
    requires Inv(s) && Enabled(s, step)
    ensures CountOk(Apply(s, step)) && HaltOk(Apply(s, step))
  {
    hide InFlight, SlotsMounted, OpensApart, FreeRow, FreeFile, RowOf, UnmountAll;
    if !step.Halt? && !step.HaltWoken? && !step.HaltFinish? {
      var n := Apply(s, step);
      if n.threads != s.threads {
        OneChanges(s.threads, step.t, n.threads[step.t]);
      }
      if InOp(s.threads[step.t]) {
        SomeInFlight(s.threads, step.t);
      }
    }
  }

  lemma StillMounted(rows: seq<Row>, rows': seq<Row>, i: nat, filesystem: nat)
    requires |rows| == |rows'| && i < |rows| && forall k :: 0 <= k < |rows| && k != i ==> rows'[k] == rows[k]
    requires Mounted(rows, filesystem) && rows[i].filesystem != filesystem
    ensures Mounted(rows', filesystem)
  {
    var k :| 0 <= k < |rows| && rows[k].filesystem == filesystem;
    assert rows'[k].filesystem == filesystem;
  }

  lemma StepMounted(s: State, step: Step)
    requires Inv(s) && Enabled(s, step)
    ensures SlotsMounted(Apply(s, step))
  {
    hide InFlight, UnmountAll, FreeRow, FreeFile, RowOf, OpensApart, CountOk;
    var n := Apply(s, step);
    if step.Mount? && n.rows != s.rows {
      forall f | f != 0 && Mounted(s.rows, f) ensures Mounted(n.rows, f) {
        StillMounted(s.rows, n.rows, FreeRow(s.rows), f);
      }
    }
    if step.Unmount? && n.rows != s.rows {
      var i := RowOf(s.rows, step.name);
      forall f | f != s.rows[i].filesystem && Mounted(s.rows, f) ensures Mounted(n.rows, f) {
        StillMounted(s.rows, n.rows, i, f);
      }
    }
  }

  lemma OpensKept(s: State, n: State)
    requires OpensApart(s) && |n.threads| == |s.threads| && |n.files| == |s.files|
    requires forall u :: 0 <= u < |s.threads| && n.threads[u].Opening? ==> n.threads[u] == s.threads[u]
    requires forall u :: 0 <= u < |s.threads| && n.threads[u].Opening? ==> n.files[s.threads[u].slot].filesystem != 0
    ensures OpensApart(n)
  {
  }

  lemma OpensSame(s: State, n: State, t: nat, p: Phase)
    requires OpensApart(s) && t < |s.threads| && n.threads == s.threads[t := p] && !p.Opening?
    requires |n.files| == |s.files|
    requires forall i :: 0 <= i < |s.files| && s.files[i].filesystem != 0 ==> n.files[i].filesystem != 0 || Free(n.threads, i)
    ensures OpensApart(n)
  {
    OpensKept(s, n);
  }

  /** No open works on this slot. */
  predicate Free(threads: seq<Phase>, slot: nat) {
    forall u | 0 <= u < |threads| :: threads[u] != Opening(slot)
  }

  lemma OpenReserveApart(s: State, t: nat, volume: Name)
    requires OpensApart(s) && Enabled(s, OpenReserve(t, volume))
    ensures OpensApart(Apply(s, OpenReserve(t, volume)))
  {
    hide FreeFile, RowOf;
    if OpenResult(s, volume) >= 0 {
      FreeFileIsFree(s.files);
      NewSlot(s, t, FreeFile(s.files));
    }
  }

  lemma OpenDoneApart(s: State, t: nat, fileid: int)
    requires OpensApart(s) && Enabled(s, OpenDone(t, fileid))
    ensures OpensApart(Apply(s, OpenDone(t, fileid)))
  {
  }

  lemma StepOpens(s: State, step: Step)
    requires Inv(s) && Enabled(s, step)
    ensures OpensApart(Apply(s, step))
  {
    hide InFlight, UnmountAll, FreeRow, RowOf, FreeFile, SlotsMounted, CountOk, HaltOk, OpensApart;
    hide MountResult, UnmountResult, OpenResult, InUse;
    match step
    case OpenReserve(t, volume) => OpenReserveApart(s, t, volume);
    case OpenDone(t, fileid) => OpenDoneApart(s, t, fileid);
    case Halt => HaltApart(s, Apply(s, step));
    case HaltWoken => HaltApart(s, Apply(s, step));
    case HaltFinish => HaltApart(s, Apply(s, step));
    case _ => OpensSame(s, Apply(s, step), step.t, Apply(s, step).threads[step.t]);
  }

  lemma HaltApart(s: State, n: State)
    requires OpensApart(s) && n.threads == s.threads && n.files == s.files
    ensures OpensApart(n)
  {
  }

  lemma FreeFileIsFree(files: seq<File>)
    ensures FreeFile(files) < |files| ==> files[FreeFile(files)].filesystem == 0
  {
  }

  lemma NewSlot(s: State, t: nat, slot: nat)
    requires OpensApart(s) && t < |s.threads| && slot < |s.files| && s.files[slot].filesystem == 0
    ensures forall u :: 0 <= u < |s.threads| && s.threads[u].Opening? ==> s.threads[u].slot != slot
  {
  }

  lemma StepKeeps(s: State, step: Step)
    requires Inv(s) && Enabled(s, step)
    ensures Inv(Apply(s, step))
  {
    hide InFlight, SlotsMounted, OpensApart, CountOk, HaltOk, Apply;
    StepCount(s, step);
    StepMounted(s, step);
    StepOpens(s, step);
  }
}
