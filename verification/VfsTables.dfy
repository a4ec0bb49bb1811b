/** The tables of the virtual filesystem in place. Each method is one region under the
    locks, and does what the step of the same name says. */
module VfsTables {
  import opened Vfs

  class Tables {
    const rows: array<Row>
    const files: array<File>
    var opsCount: int
    var usable: bool
    var pending: int
    ghost var raised: nat
    ghost var halter: Halter
    ghost var threads: seq<Phase>

    ghost function Abs(): State
      reads this, rows, files
    {
      State(rows[..], files[..], opsCount, usable, pending, raised, halter, threads)
    }

    /** vfs_init. */
    constructor (mounts: nat, open: nat, ghost count: nat)
      ensures fresh(rows) && fresh(files)
      ensures Abs() == State(seq(mounts, i => Row(0, [])), seq(open, i => File(0, 0, 0)), 0, true, 0, 0, NotHalting,
                             seq(count, i => Idle))
    {
      rows := new Row[mounts](i => Row(0, []));
      files := new File[open](i => File(0, 0, 0));
      opsCount, usable, pending := 0, true, 0;
      raised, halter, threads := 0, NotHalting, seq(count, i => Idle);
    }

    /** vfs_start_op. */
    method StartOp(ghost t: nat) returns (result: int)
      requires Enabled(Abs(), Step.StartOp(t))
      modifies this
      ensures old(Enabled(Abs(), Step.StartOp(t))) && Abs() == Apply(old(Abs()), Step.StartOp(t))
      ensures result == if old(usable) then VFS_OK else VFS_UNUSABLE
    {
      result := VFS_OK;
      if usable {
        opsCount := opsCount + 1;
        threads := threads[t := Working];
      } else {
        result := VFS_UNUSABLE;
      }
    }

    /** vfs_end_op. The requires is what its assertion needs; Inv gives it. */
    method EndOp(ghost t: nat)
      requires Enabled(Abs(), Step.EndOp(t)) && opsCount > 0
      modifies this
      ensures old(Enabled(Abs(), Step.EndOp(t))) && Abs() == Apply(old(Abs()), Step.EndOp(t))
    {
      opsCount := opsCount - 1;
      assert opsCount >= 0;
      if !usable && opsCount == 0 {
        pending := pending + 1;
        raised := raised + 1;
      }
      threads := threads[t := Idle];
    }

    /** The locked region of vfs_mount. */
    method Mount(ghost t: nat, filesystem: nat, name: Name) returns (result: int)
      requires Enabled(Abs(), Step.Mount(t, filesystem, name))
      modifies this`threads, rows
      ensures old(Enabled(Abs(), Step.Mount(t, filesystem, name)))
      ensures Abs() == Apply(old(Abs()), Step.Mount(t, filesystem, name))
      ensures result == MountResult(old(rows[..]), name)
    {
      var row := 0;
      while row < rows.Length && rows[row].filesystem != 0
        invariant 0 <= row <= rows.Length
        invariant forall k :: 0 <= k < row ==> rows[k].filesystem != 0
      {
        row := row + 1;
      }
      FreeRowIs(rows[..], row);
      if row >= rows.Length {
        threads := threads[t := Ending(VFS_LIMIT)];
        return VFS_LIMIT;
      }
      var i := 0;
      while i < rows.Length
        invariant 0 <= i <= rows.Length
        invariant forall k :: 0 <= k < i ==> rows[k].mountpoint != name
      {
        if rows[i].mountpoint == name {
          RowOfIs(rows[..], name, i);
          threads := threads[t := Ending(VFS_ERROR)];
          return VFS_ERROR;
        }
        i := i + 1;
      }
      RowOfIs(rows[..], name, i);
      rows[row] := Row(filesystem, name);
      threads := threads[t := Ending(VFS_OK)];
      return VFS_OK;
    }

    /** The locked region of vfs_unmount. */
    method Unmount(ghost t: nat, name: Name) returns (result: int)
      requires Enabled(Abs(), Step.Unmount(t, name))
      modifies this`threads, rows
      ensures old(Enabled(Abs(), Step.Unmount(t, name)))
      ensures Abs() == Apply(old(Abs()), Step.Unmount(t, name))
      ensures result == UnmountResult(old(Abs()), name)
    {
      var row := FindRow(name);
      var filesystem := if row < rows.Length then rows[row].filesystem else 0;
      if filesystem == 0 {
        threads := threads[t := Ending(VFS_NOT_FOUND)];
        return VFS_NOT_FOUND;
      }
      var i := 0;
      while i < files.Length
        invariant 0 <= i <= files.Length
        invariant forall k :: 0 <= k < i ==> files[k].filesystem != filesystem
      {
        if files[i].filesystem == filesystem {
          assert files[..][i].filesystem == filesystem;
          threads := threads[t := Ending(VFS_IN_USE)];
          return VFS_IN_USE;
        }
        i := i + 1;
      }
      rows[row] := rows[row].(filesystem := 0);
      threads := threads[t := Ending(VFS_OK)];
      return VFS_OK;
    }

    /** The search loop of vfs_unmount and vfs_get_filesystem. */
    method FindRow(name: Name) returns (row: nat)
      ensures row == RowOf(rows[..], name)
    {
      row := 0;
      while row < rows.Length && rows[row].mountpoint != name
        invariant 0 <= row <= rows.Length
        invariant forall k :: 0 <= k < row ==> rows[k].mountpoint != name
      {
        row := row + 1;
      }
      RowOfIs(rows[..], name, row);
    }

    /** The locked region of vfs_open, on the volume its path names. */
    method OpenReserve(ghost t: nat, volume: Name) returns (result: int)
      requires Enabled(Abs(), Step.OpenReserve(t, volume))
      modifies this`threads, files
      ensures old(Enabled(Abs(), Step.OpenReserve(t, volume)))
      ensures Abs() == Apply(old(Abs()), Step.OpenReserve(t, volume))
      ensures result == OpenResult(old(Abs()), volume)
    {
      var file := 0;
      while file < files.Length && files[file].filesystem != 0
        invariant 0 <= file <= files.Length
        invariant forall k :: 0 <= k < file ==> files[k].filesystem != 0
      {
        file := file + 1;
      }
      FreeFileIs(files[..], file);
      if file >= files.Length {
        threads := threads[t := Ending(VFS_LIMIT)];
        return VFS_LIMIT;
      }
      var row := FindRow(volume);
      var filesystem := if row < rows.Length then rows[row].filesystem else 0;
      if filesystem == 0 {
        threads := threads[t := Ending(VFS_NO_SUCH_FS)];
        return VFS_NO_SUCH_FS;
      }
      files[file] := files[file].(filesystem := filesystem);
      threads := threads[t := Opening(file)];
      return file;
    }

    /** The end of vfs_open, with what the driver returned. */
    method OpenDone(ghost t: nat, file: nat, fileid: int) returns (result: int)
      requires Enabled(Abs(), Step.OpenDone(t, fileid)) && threads[t].slot == file
      modifies this`threads, files
      ensures old(Enabled(Abs(), Step.OpenDone(t, fileid)))
      ensures Abs() == Apply(old(Abs()), Step.OpenDone(t, fileid))
      ensures result == if fileid < 0 then fileid else file
    {
      if fileid < 0 {
        files[file] := files[file].(filesystem := 0);
        threads := threads[t := Ending(fileid)];
        return fileid;
      }
      files[file] := files[file].(fileid := fileid);
      files[file] := files[file].(position := 0);
      threads := threads[t := Ending(file)];
      return file;
    }

    /** The locked region of vfs_close. */
    method Close(ghost t: nat, file: nat)
      requires Enabled(Abs(), Step.Close(t, file))
      modifies this`threads, files
      ensures old(Enabled(Abs(), Step.Close(t, file))) && Abs() == Apply(old(Abs()), Step.Close(t, file))
    {
      assert files[file].filesystem != 0;
      files[file] := files[file].(filesystem := 0);
      threads := threads[t := Ending(VFS_OK)];
    }

    /** The locked regions of vfs_seek, and of vfs_read and vfs_write after the driver call. */
    method Seek(ghost t: nat, file: nat, position: nat)
      requires Enabled(Abs(), Step.Seek(t, file, position))
      modifies this`threads, files
      ensures old(Enabled(Abs(), Step.Seek(t, file, position)))
      ensures Abs() == Apply(old(Abs()), Step.Seek(t, file, position))
    {
      files[file] := files[file].(position := position);
      threads := threads[t := Ending(VFS_OK)];
    }

    method Transfer(ghost t: nat, file: nat, moved: int)
      requires Enabled(Abs(), Step.Transfer(t, file, moved))
      modifies this`threads, files
      ensures old(Enabled(Abs(), Step.Transfer(t, file, moved)))
      ensures Abs() == Apply(old(Abs()), Step.Transfer(t, file, moved))
    {
      if moved > 0 {
        files[file] := files[file].(position := files[file].position + moved);
      }
      threads := threads[t := Ending(moved)];
    }

    /** vfs_deinit up to its wait, or to its end if there is nothing to wait for. */
    method Halt() returns (mustWait: bool)
      requires Enabled(Abs(), Step.Halt)
      modifies this`usable, this`halter, rows
      ensures old(Enabled(Abs(), Step.Halt)) && Abs() == Apply(old(Abs()), Step.Halt)
      ensures mustWait <==> opsCount > 0
    {
      usable := false;
      if opsCount > 0 {
        halter := Waiting;
        return true;
      }
      UnmountRows();
      halter := Done;
      return false;
    }

    /** vfs_deinit after its wait; the requires is its assertion. */
    method HaltFinish()
      requires Enabled(Abs(), Step.HaltFinish) && opsCount == 0
      modifies this`halter, rows
      ensures old(Enabled(Abs(), Step.HaltFinish)) && Abs() == Apply(old(Abs()), Step.HaltFinish)
    {
      UnmountRows();
      halter := Done;
    }

    method UnmountRows()
      modifies rows
      ensures rows[..] == UnmountAll(old(rows[..]))
    {
      var row := 0;
      while row < rows.Length
        invariant 0 <= row <= rows.Length
        invariant forall k :: 0 <= k < row ==> rows[k] == old(rows[k]).(filesystem := 0)
        invariant forall k :: row <= k < rows.Length ==> rows[k] == old(rows[k])
      {
        if rows[row].filesystem != 0 {
          rows[row] := rows[row].(filesystem := 0);
        }
        row := row + 1;
      }
    }
  }

  lemma FreeRowIs(rows: seq<Row>, i: nat)
    requires i <= |rows| && (i < |rows| ==> rows[i].filesystem == 0)
    requires forall k :: 0 <= k < i ==> rows[k].filesystem != 0
    ensures FreeRow(rows) == i
  {
    assert i < |rows| ==> rows[i].filesystem == 0;
  }

  lemma FreeFileIs(files: seq<File>, i: nat)
    requires i <= |files| && (i < |files| ==> files[i].filesystem == 0)
    requires forall k :: 0 <= k < i ==> files[k].filesystem != 0
    ensures FreeFile(files) == i
  {
    assert i < |files| ==> files[i].filesystem == 0;
  }

  lemma RowOfIs(rows: seq<Row>, name: Name, i: nat)
    requires i <= |rows| && (i < |rows| ==> rows[i].mountpoint == name)
    requires forall k :: 0 <= k < i ==> rows[k].mountpoint != name
    ensures RowOf(rows, name) == i
  {
    assert i < |rows| ==> rows[i].mountpoint == name;
  }
}
