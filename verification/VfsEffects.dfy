/** What the steps of the virtual filesystem do to the two tables, said about what a caller can
    see: which filesystem a name leads to, and which file and position a handle stands for. */
module VfsEffects {
  import opened Vfs
  import opened VfsRuns

  /** No two rows have the same mount point, unless it is the empty one of a row never used. */
  predicate NamesOk(rows: seq<Row>) {
    && (forall i, j :: 0 <= i < j < |rows| && rows[i].mountpoint == rows[j].mountpoint ==> rows[i].mountpoint == [])
    && (forall i :: 0 <= i < |rows| && rows[i].mountpoint == [] ==> rows[i].filesystem == 0)
  }

  /** A name leads to a filesystem exactly if a row holds both. */
  lemma LeadsTo(rows: seq<Row>, name: Name, filesystem: nat)
    requires NamesOk(rows) && filesystem != 0
    ensures FilesystemAt(rows, name) == filesystem <==> Row(filesystem, name) in rows
  {
    var i := RowOf(rows, name);
    if FilesystemAt(rows, name) == filesystem {
      assert rows[i] == Row(filesystem, name);
    }
    if Row(filesystem, name) in rows {
      var k :| 0 <= k < |rows| && rows[k] == Row(filesystem, name);
      assert rows[k].mountpoint == name;
      assert rows[i].mountpoint == name;
      assert i == k;
    }
  }

  lemma LeadsNowhere(rows: seq<Row>, name: Name)
    requires NamesOk(rows)
    ensures FilesystemAt(rows, name) == 0 <==> forall r :: r in rows && r.mountpoint == name ==> r.filesystem == 0
  {
    var f := FilesystemAt(rows, name);
    if f != 0 {
      LeadsTo(rows, name, f);
    } else {
      forall r | r in rows && r.mountpoint == name ensures r.filesystem == 0 {
        if r.filesystem != 0 {
          LeadsTo(rows, name, r.filesystem);
        }
      }
    }
  }

  /** A new mount needs a row without a filesystem and a name that no row has, even one whose
      filesystem was unmounted. */
  lemma MountOutcome(rows: seq<Row>, name: Name)
    ensures MountResult(rows, name) == VFS_LIMIT <==> forall r :: r in rows ==> r.filesystem != 0
    ensures MountResult(rows, name) == VFS_OK <==>
              (exists r :: r in rows && r.filesystem == 0) && (forall r :: r in rows ==> r.mountpoint != name)
    ensures MountResult(rows, name) in {VFS_OK, VFS_ERROR, VFS_LIMIT}
  {
    var i, j := FreeRow(rows), RowOf(rows, name);
    if i < |rows| {
      assert rows[i] in rows;
    }
    if j < |rows| {
      assert rows[j] in rows;
    }
  }

  /** A name that was just unmounted is still in its row, so it cannot be mounted again until
      another mount has taken that row. */
  lemma RemountRefused(s: State, t: nat, name: Name)
    requires Enabled(s, Unmount(t, name)) && UnmountResult(s, name) == VFS_OK
    ensures MountResult(Apply(s, Unmount(t, name)).rows, name) == VFS_ERROR
  {
    var i, rows := RowOf(s.rows, name), Apply(s, Unmount(t, name)).rows;
    assert rows[i].mountpoint == name && rows[i] in rows && rows[i].filesystem == 0;
    MountOutcome(rows, name);
  }

  /** An unmount needs a name that leads to a filesystem, and no open file of it. */
  lemma UnmountOutcome(s: State, name: Name)
    ensures var f := FilesystemAt(s.rows, name);
            && (UnmountResult(s, name) == VFS_NOT_FOUND <==> f == 0)
            && (UnmountResult(s, name) == VFS_OK <==> f != 0 && forall file :: file in s.files ==> file.filesystem != f)
            && UnmountResult(s, name) in {VFS_OK, VFS_IN_USE, VFS_NOT_FOUND}
  {
    var f := FilesystemAt(s.rows, name);
    if InUse(s.files, f) {
      var i :| 0 <= i < |s.files| && s.files[i].filesystem == f;
      assert s.files[i] in s.files;
    }
  }

  /** An open needs a slot without a filesystem and a name that leads to one; the handle is the
      lowest such slot. */
  lemma OpenOutcome(s: State, volume: Name)
    ensures var r := OpenResult(s, volume);
            && (r == VFS_LIMIT <==> forall file :: file in s.files ==> file.filesystem != 0)
            && (r == VFS_NO_SUCH_FS <==>
                  (exists file :: file in s.files && file.filesystem == 0) && FilesystemAt(s.rows, volume) == 0)
            && (r >= 0 || r in {VFS_LIMIT, VFS_NO_SUCH_FS})
            && (r >= 0 ==>
                  && r < |s.files| && s.files[r].filesystem == 0
                  && forall k :: 0 <= k < r ==> s.files[k].filesystem != 0)
  {
    var i := FreeFile(s.files);
    if i < |s.files| {
      assert s.files[i] in s.files;
    }
  }

  /** What a name leads to after a step: a successful mount sets it, a successful unmount and
      the end of the shutdown clear it, and nothing else changes it. */
  lemma NameStep(s: State, step: Step, name: Name)
    requires NamesOk(s.rows) && Enabled(s, step)
    ensures var n := Apply(s, step);
            && NamesOk(n.rows)
            && FilesystemAt(n.rows, name) ==
                 if step.Mount? && step.name == name && MountResult(s.rows, name) == VFS_OK then step.filesystem
                 else if step.Unmount? && step.name == name && UnmountResult(s, name) == VFS_OK then 0
                 else if UnmountsAll(s, step) then 0
                 else FilesystemAt(s.rows, name)
  {
    hide FreeFile, InUse;
    match step
    case Mount(t, filesystem, m) =>
      if MountResult(s.rows, m) == VFS_OK {
        Mounted1(s.rows, FreeRow(s.rows), filesystem, m, name);
      }
    case Unmount(t, m) =>
      if UnmountResult(s, m) == VFS_OK {
        Unmounted1(s.rows, m, name);
      }
    case Halt => CleansAll(s.rows, name);
    case HaltFinish => CleansAll(s.rows, name);
    case _ =>
  }

  /** What a step leaves in every row: a mount fills the lowest row without a filesystem, an
      unmount empties the row of that name, the end of the shutdown empties all, and the names
      stay until they are overwritten. */
  lemma RowStep(s: State, step: Step, i: nat)
    requires NamesOk(s.rows) && Enabled(s, step) && i < |s.rows|
    ensures |Apply(s, step).rows| == |s.rows|
    ensures Apply(s, step).rows[i] ==
              if step.Mount? && MountResult(s.rows, step.name) == VFS_OK && s.rows[i].filesystem == 0
                 && (forall k :: 0 <= k < i ==> s.rows[k].filesystem != 0)
              then Row(step.filesystem, step.name)
              else if UnmountsAll(s, step)
                 || (step.Unmount? && UnmountResult(s, step.name) == VFS_OK && s.rows[i].mountpoint == step.name)
              then Row(0, s.rows[i].mountpoint)
              else s.rows[i]
  {
    hide FreeFile, InUse, NamesOk, FreeRow, RowOf, IsOpen;
    if step.Unmount? && UnmountResult(s, step.name) == VFS_OK {
      OnlyRow(s.rows, step.name, i);
    }
  }

  lemma OnlyRow(rows: seq<Row>, name: Name, i: nat)
    requires NamesOk(rows) && i < |rows| && FilesystemAt(rows, name) != 0
    ensures rows[i].mountpoint == name <==> i == RowOf(rows, name)
  {
    assert rows[RowOf(rows, name)].mountpoint == name;
  }

  lemma Mounted1(rows: seq<Row>, i: nat, filesystem: nat, m: Name, name: Name)
    requires NamesOk(rows) && i < |rows| && rows[i].filesystem == 0 && RowOf(rows, m) == |rows|
    requires filesystem != 0 && m != []
    ensures var rows' := rows[i := Row(filesystem, m)];
            NamesOk(rows') && FilesystemAt(rows', name) == if name == m then filesystem else FilesystemAt(rows, name)
  {
    hide RowOf;
    var rows' := rows[i := Row(filesystem, m)];
    assert forall k :: 0 <= k < |rows| ==> rows[k].mountpoint != m;
    assert NamesOk(rows');
    assert rows'[i] == Row(filesystem, m);
    if name == m {
      LeadsTo(rows', name, filesystem);
    } else {
      SameAnswer(rows, rows', i, name);
    }
  }

  /** A row that had no filesystem, or has another name, does not matter. */
  lemma SameAnswer(rows: seq<Row>, rows': seq<Row>, i: nat, name: Name)
    requires NamesOk(rows) && NamesOk(rows') && |rows| == |rows'| && i < |rows|
    requires forall k :: 0 <= k < |rows| && k != i ==> rows'[k] == rows[k]
    requires rows[i].mountpoint == name ==> rows[i].filesystem == 0
    requires rows'[i].mountpoint == name ==> rows'[i].filesystem == 0
    ensures FilesystemAt(rows', name) == FilesystemAt(rows, name)
  {
    hide FilesystemAt, NamesOk, RowOf;
    var f, f' := FilesystemAt(rows, name), FilesystemAt(rows', name);
    if f != 0 {
      LeadsTo(rows, name, f);
      LeadsTo(rows', name, f);
      assert exists k :: 0 <= k < |rows| && rows[k] == Row(f, name) && rows'[k] == rows[k];
    }
    if f' != 0 {
      LeadsTo(rows, name, f');
      LeadsTo(rows', name, f');
      assert exists k :: 0 <= k < |rows| && rows'[k] == Row(f', name) && rows'[k] == rows[k];
    }
  }

  lemma Unmounted1(rows: seq<Row>, m: Name, name: Name)
    requires NamesOk(rows) && FilesystemAt(rows, m) != 0
    ensures var i := RowOf(rows, m);
            var rows' := rows[i := rows[i].(filesystem := 0)];
            NamesOk(rows') && FilesystemAt(rows', name) == if name == m then 0 else FilesystemAt(rows, name)
  {
    hide RowOf;
    var i := RowOf(rows, m);
    var rows' := rows[i := rows[i].(filesystem := 0)];
    assert forall k :: 0 <= k < |rows| ==> rows'[k].mountpoint == rows[k].mountpoint;
    assert NamesOk(rows');
    if name == m {
      LeadsNowhere(rows', name);
    } else {
      SameAnswer(rows, rows', i, name);
    }
  }

  lemma CleansAll(rows: seq<Row>, name: Name)
    requires NamesOk(rows)
    ensures NamesOk(UnmountAll(rows)) && FilesystemAt(UnmountAll(rows), name) == 0
    ensures forall r :: r in UnmountAll(rows) ==> r.filesystem == 0
  {
  }

  lemma {:induction false} NamesStayOk(ss: seq<State>, steps: seq<Step>, i: nat)
    requires IsRun(ss, steps) && i < |ss|
    ensures NamesOk(ss[i].rows)
  {
    hide Apply, Enabled, NamesOk;
    if i > 0 {
      NamesStayOk(ss, steps, i - 1);
      NameStep(ss[i - 1], steps[i - 1], []);
    } else {
      BootNames(ss[0]);
    }
  }

  lemma BootNames(s: State)
    requires Boot(s)
    ensures NamesOk(s.rows)
  {
  }

  /** A step that takes away what the name leads to. */
  predicate TakesName(s: State, step: Step, name: Name) {
    (step.Unmount? && step.name == name && UnmountResult(s, name) == VFS_OK) || UnmountsAll(s, step)
  }

  /** From a successful mount until the name is unmounted or the system is shut down, the name
      leads to that filesystem, and an open of a file on it takes its slot for that filesystem. */
  lemma {:induction false} MountedUntilTaken(ss: seq<State>, steps: seq<Step>, i: nat, j: nat)
    requires IsRun(ss, steps) && i < j < |ss| && steps[i].Mount?
    requires MountResult(ss[i].rows, steps[i].name) == VFS_OK
    requires forall k :: i < k < j ==> !TakesName(ss[k], steps[k], steps[i].name)
    ensures FilesystemAt(ss[j].rows, steps[i].name) == steps[i].filesystem
    decreases j
  {
    hide Apply, NamesOk, FilesystemAt, MountResult, UnmountResult, UnmountsAll;
    var name := steps[i].name;
    NamesStayOk(ss, steps, j - 1);
    NameStep(ss[j - 1], steps[j - 1], name);
    if i < j - 1 {
      MountedUntilTaken(ss, steps, i, j - 1);
      assert !TakesName(ss[j - 1], steps[j - 1], name);
      if steps[j - 1].Mount? && steps[j - 1].name == name {
        TakenName(ss[j - 1].rows, name);
      }
    }
  }

  /** A name in the table cannot be mounted again. */
  lemma TakenName(rows: seq<Row>, name: Name)
    requires FilesystemAt(rows, name) != 0
    ensures MountResult(rows, name) != VFS_OK
  {
  }

  /** The driver call of an open on this slot has succeeded. */
  predicate Opens(s: State, step: Step, slot: nat) {
    step.OpenDone? && step.t < |s.threads| && s.threads[step.t] == Opening(slot) && step.fileid >= 0
  }

  /** What a step leaves in every slot: an open takes it for the volume's filesystem, its end
      stores the driver's file and the position 0, a close or a failed open frees it, a seek and
      a transfer move the position, and nothing else changes. */
  lemma SlotStep(s: State, step: Step, slot: nat)
    requires Enabled(s, step) && slot < |s.files|
    ensures |Apply(s, step).files| == |s.files|
    ensures Apply(s, step).files[slot].filesystem ==
              if Gives(s, step, slot) then FilesystemAt(s.rows, step.volume)
              else if GivesBack(s, step, slot) then 0
              else s.files[slot].filesystem
    ensures Apply(s, step).files[slot].fileid == if Opens(s, step, slot) then step.fileid else s.files[slot].fileid
    ensures Apply(s, step).files[slot].position ==
              if Opens(s, step, slot) then 0
              else if step.Seek? && step.slot == slot then step.position
              else if step.Transfer? && step.slot == slot && step.moved > 0 then s.files[slot].position + step.moved
              else s.files[slot].position
  {
    hide UnmountAll, RowOf, FreeRow, FilesystemAt, InUse, MountResult, UnmountResult;
  }

  /** Only the thread that takes the step goes on, and only in this way. The shutdown moves
      no thread. */
  lemma PhaseStep(s: State, step: Step, u: nat)
    requires Enabled(s, step) && u < |s.threads|
    ensures |Apply(s, step).threads| == |s.threads|
    ensures Apply(s, step).threads[u] ==
              match step
              case StartOp(t) => if t == u && s.usable then Working else s.threads[u]
              case EndOp(t) => if t == u then Idle else s.threads[u]
              case Mount(t, filesystem, name) => if t == u then Ending(MountResult(s.rows, name)) else s.threads[u]
              case Unmount(t, name) => if t == u then Ending(UnmountResult(s, name)) else s.threads[u]
              case OpenReserve(t, volume) =>
                if t != u then s.threads[u]
                else if OpenResult(s, volume) < 0 then Ending(OpenResult(s, volume))
                else Opening(OpenResult(s, volume))
              case OpenDone(t, fileid) =>
                if t != u then s.threads[u] else Ending(if fileid < 0 then fileid else s.threads[t].slot)
              case Close(t, slot) => if t == u then Ending(VFS_OK) else s.threads[u]
              case Seek(t, slot, position) => if t == u then Ending(VFS_OK) else s.threads[u]
              case Transfer(t, slot, moved) => if t == u then Ending(moved) else s.threads[u]
              case Other(t, result) => if t == u then Ending(result) else s.threads[u]
              case _ => s.threads[u]
  {
    hide UnmountAll, RowOf, FreeRow, FreeFile, FilesystemAt, InUse, IsOpen, MountResult, UnmountResult, OpenResult;
  }

  /** The operations in flight go up by one with every start while the tables are usable and down
      by one with every end; only the shutdown makes them unusable. */
  lemma CountStep(s: State, step: Step)
    requires Inv(s) && Enabled(s, step)
    ensures |InFlight(Apply(s, step).threads)| == |InFlight(s.threads)|
              + (if step.StartOp? && s.usable then 1 else 0) - (if step.EndOp? then 1 else 0)
    ensures Apply(s, step).usable <==> s.usable && !step.Halt?
    ensures Apply(s, step).opsCount == |InFlight(Apply(s, step).threads)|
  {
    hide InFlight, SlotsMounted, OpensApart, HaltOk, RowOf, FreeRow, FreeFile, UnmountAll, IsOpen;
    hide MountResult, UnmountResult, OpenResult;
    StepKeeps(s, step);
    var n := Apply(s, step);
    if !step.Halt? && !step.HaltWoken? && !step.HaltFinish? {
      OneChanges(s.threads, step.t, n.threads[step.t]);
    }
  }

  /** The end of a successful open makes the slot an open handle. */
  lemma OpensHandle(s: State, step: Step, slot: nat)
    requires OpensApart(s) && Enabled(s, step) && Opens(s, step, slot)
    ensures IsOpen(Apply(s, step), slot)
  {
  }

  /** An open handle stays open until it is given back, and until then no open ends on it. */
  lemma HandleStep(s: State, step: Step, slot: nat)
    requires Enabled(s, step) && IsOpen(s, slot) && !GivesBack(s, step, slot)
    ensures IsOpen(Apply(s, step), slot) && !Opens(s, step, slot) && !Gives(s, step, slot)
  {
    hide UnmountAll, RowOf, FreeRow, FilesystemAt, InUse, MountResult, UnmountResult;
    var n := Apply(s, step);
    HeldStep(s, step, slot);
    if Gives(s, step, slot) {
      GivenFree(s, step, slot);
    }
    forall u | 0 <= u < |n.threads| ensures n.threads[u] != Opening(slot) {
      PhaseStep(s, step, u);
    }
  }

  /** Where seeks and transfers on a slot move the position, from 0. */
  function PositionAfter(steps: seq<Step>, slot: nat): int {
    if steps == [] then 0
    else
      var before, step := PositionAfter(steps[..|steps| - 1], slot), steps[|steps| - 1];
      if step.Seek? && step.slot == slot then step.position
      else if step.Transfer? && step.slot == slot && step.moved > 0 then before + step.moved
      else before
  }

  /** From the successful end of an open until the slot is given back, the handle stands for the
      file that the driver returned, at the position that the seeks and transfers on this handle
      alone have moved it to. */
  lemma {:induction false} HandleIsItsFile(ss: seq<State>, steps: seq<Step>, slot: nat, i: nat, j: nat)
    requires IsRun(ss, steps) && i < j < |ss| && Opens(ss[i], steps[i], slot)
    requires forall k :: i < k < j ==> !GivesBack(ss[k], steps[k], slot)
    ensures IsOpen(ss[j], slot)
    ensures ss[j].files[slot].filesystem == ss[i].files[slot].filesystem
    ensures ss[j].files[slot].fileid == steps[i].fileid
    ensures ss[j].files[slot].position == PositionAfter(steps[i + 1..j], slot)
    decreases j
  {
    hide Apply, Enabled, Inv, Opens, Gives, GivesBack, IsOpen;
    if i == j - 1 {
      OpeningIsHeld(ss, steps, slot, i);
      assert steps[i + 1..j] == [];
    } else {
      HandleIsItsFile(ss, steps, slot, i, j - 1);
      OpenSlot(ss[j - 1], slot);
      HandleStep(ss[j - 1], steps[j - 1], slot);
      SlotStep(ss[j - 1], steps[j - 1], slot);
      assert steps[i + 1..j][..j - i - 2] == steps[i + 1..j - 1];
    }
    OpenSlot(ss[j], slot);
  }

  lemma OpenSlot(s: State, slot: nat)
    requires IsOpen(s, slot)
    ensures slot < |s.files|
  {
  }

  lemma OpeningIsHeld(ss: seq<State>, steps: seq<Step>, slot: nat, i: nat)
    requires IsRun(ss, steps) && i < |steps| && Opens(ss[i], steps[i], slot)
    ensures slot < |ss[i].files| && IsOpen(ss[i + 1], slot)
    ensures ss[i + 1].files[slot].filesystem == ss[i].files[slot].filesystem
    ensures ss[i + 1].files[slot].fileid == steps[i].fileid && ss[i + 1].files[slot].position == 0
  {
    hide Apply, CountOk, HaltOk, SlotsMounted;
    Reachable(ss, steps, i);
    OpensHandle(ss[i], steps[i], slot);
    SlotStep(ss[i], steps[i], slot);
  }

  /** The slot that an open takes keeps the filesystem its volume led to then, until the slot is
      given back: the driver call and every later use of the handle go to that filesystem. */
  lemma {:induction false} HandleOnItsVolume(ss: seq<State>, steps: seq<Step>, slot: nat, i: nat, j: nat)
    requires IsRun(ss, steps) && i < j < |ss| && Gives(ss[i], steps[i], slot)
    requires forall k :: i < k < j ==> !GivesBack(ss[k], steps[k], slot)
    ensures slot < |ss[j].files| && FilesystemAt(ss[i].rows, steps[i].volume) != 0
    ensures ss[j].files[slot].filesystem == FilesystemAt(ss[i].rows, steps[i].volume)
    decreases j
  {
    hide Apply, Enabled, FilesystemAt, Gives, GivesBack;
    if i == j - 1 {
      GivenFree(ss[i], steps[i], slot);
      SlotStep(ss[i], steps[i], slot);
    } else {
      HandleOnItsVolume(ss, steps, slot, i, j - 1);
      if Gives(ss[j - 1], steps[j - 1], slot) {
        GivenFree(ss[j - 1], steps[j - 1], slot);
      }
      SlotStep(ss[j - 1], steps[j - 1], slot);
    }
  }
}
