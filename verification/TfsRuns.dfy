/** Whole runs of the filesystem: any sequence of operations does to the image what it does
    to a finite map from names to byte strings. */
module TfsRuns {
  import opened Words
  import opened DiskFormat
  import opened TfsImage
  import opened TfsEffects
  import opened ImageDecoding
  import opened TfsOperations
  import opened TfsDriver
  import opened TfsRoundTrips
  import opened TfsSpace

  datatype Op =
    | CreateFile(name: Name, size: nat)
    | RemoveFile(name: Name)
    | WriteFile(name: Name, offset: nat, data: seq<Byte>)

  predicate Writable(files: Files, op: Op)
    requires op.WriteFile?
  {
    op.name in files && op.offset <= |files[op.name]|
  }

  /** What an operation that succeeded does to the map; a write stops at the end of the file. */
  function After(files: Files, op: Op, ok: bool): Files {
    if !ok then files
    else match op
      case CreateFile(name, size) => files[name := Zeros(size)]
      case RemoveFile(name) => files - {name}
      case WriteFile(name, offset, data) =>
        if Writable(files, op)
        then files[name := Splice(files[name], offset, data[..Min(|data|, |files[name]| - offset)])]
        else files
  }

  function AfterAll(files: Files, ops: seq<Op>, oks: seq<bool>): Files
    requires |ops| == |oks|
  {
    if ops == [] then files
    else After(AfterAll(files, ops[..|ops| - 1], oks[..|ops| - 1]), ops[|ops| - 1], oks[|ops| - 1])
  }

  /** Which operations succeed. A create needs room besides a new name, which the map alone
      does not tell if files were stored by other means; it never succeeds for a name that
      exists. */
  predicate Outcome(files: Files, op: Op, ok: bool) {
    match op
    case CreateFile(name, size) => ok ==> name !in files && size <= TFS_MAX_FILESIZE
    case RemoveFile(name) => ok <==> name in files
    case WriteFile(name, offset, data) => ok <==> Writable(files, op)
  }

  /** A create succeeds exactly if the files so far leave room for it. */
  ghost predicate FitsExactly(files: Files, total: nat, op: Op, ok: bool) {
    op.CreateFile? ==> (ok <==> HasRoom(files, total, op.name, op.size))
  }

  lemma NewAndSmall(f: Fs, total: nat, name: Name, size: nat)
    requires total <= |f.bits| && CanCreate(f, total, name, size)
    ensures name !in Names(f) && size <= TFS_MAX_FILESIZE
  {
  }

  method Perform(tfs: Tfs, op: Op) returns (ok: bool)
    requires tfs.Valid() && IsName(op.name)
    modifies tfs.disk, tfs.bufferInode, tfs.bufferBat, tfs.bufferMd
    ensures tfs.Valid()
    ensures View(tfs.Image()) == After(old(View(tfs.Image())), op, ok)
    ensures Outcome(old(View(tfs.Image())), op, ok)
    ensures op.CreateFile? ==> (ok <==> CanCreate(old(tfs.Image()), tfs.totalblocks, op.name, op.size))
    ensures old(Accounted(tfs.Image(), tfs.totalblocks)) ==>
              && Accounted(tfs.Image(), tfs.totalblocks)
              && FitsExactly(old(View(tfs.Image())), tfs.totalblocks, op, ok)
  {
    hide TfsImage.Valid, View, Splice, Accounted, CanCreate, HasRoom;
    match op
    case CreateFile(name, size) =>
      ok := CreateNew(tfs, name, size);
    case RemoveFile(name) =>
      ok := RemoveOld(tfs, name);
    case WriteFile(name, offset, data) =>
      ok := WriteAt(tfs, name, offset, data);
  }

  method CreateNew(tfs: Tfs, name: Name, size: nat) returns (ok: bool)
    requires tfs.Valid() && IsName(name)
    modifies tfs.disk, tfs.bufferInode, tfs.bufferBat, tfs.bufferMd
    ensures tfs.Valid()
    ensures View(tfs.Image()) == if ok then old(View(tfs.Image()))[name := Zeros(size)] else old(View(tfs.Image()))
    ensures ok <==> CanCreate(old(tfs.Image()), tfs.totalblocks, name, size)
    ensures ok ==> name !in old(View(tfs.Image())) && size <= TFS_MAX_FILESIZE
    ensures old(Accounted(tfs.Image(), tfs.totalblocks)) ==>
              && Accounted(tfs.Image(), tfs.totalblocks)
              && (ok <==> HasRoom(old(View(tfs.Image())), tfs.totalblocks, name, size))
  {
    hide TfsImage.Valid, View, Accounted, CanCreate, KeepsNames, HasRoom;
    ghost var f, accounted := tfs.Image(), Accounted(tfs.Image(), tfs.totalblocks);
    NamesOfView(f);
    if accounted {
      CanCreateIfRoom(f, tfs.totalblocks, name, size);
    }
    var r := tfs.Create(name, size);
    ok := r == VFS_OK;
    if ok {
      NewAndSmall(f, tfs.totalblocks, name, size);
      if accounted {
        CreatedAccounted(f, tfs.Image(), tfs.totalblocks, name, size);
      }
    }
  }

  method RemoveOld(tfs: Tfs, name: Name) returns (ok: bool)
    requires tfs.Valid() && IsName(name)
    modifies tfs.disk, tfs.bufferInode, tfs.bufferBat, tfs.bufferMd
    ensures tfs.Valid()
    ensures View(tfs.Image()) == if ok then old(View(tfs.Image())) - {name} else old(View(tfs.Image()))
    ensures ok <==> name in old(View(tfs.Image()))
    ensures old(Accounted(tfs.Image(), tfs.totalblocks)) ==> Accounted(tfs.Image(), tfs.totalblocks)
  {
    hide TfsImage.Valid, View, Accounted, KeepsNames;
    ghost var f, accounted := tfs.Image(), Accounted(tfs.Image(), tfs.totalblocks);
    NamesOfView(f);
    var r := tfs.Remove(name);
    ok := r == VFS_OK;
    if accounted && ok {
      RemovedAccounted(f, tfs.Image(), tfs.totalblocks, name);
    }
  }

  /** Opens a file and writes to it. */
  method WriteAt(tfs: Tfs, name: Name, offset: nat, data: seq<Byte>) returns (ok: bool)
    requires tfs.Valid() && IsName(name)
    modifies tfs.disk, tfs.bufferInode, tfs.bufferBat, tfs.bufferMd
    ensures tfs.Valid()
    ensures var files, op := old(View(tfs.Image())), WriteFile(name, offset, data);
            (ok <==> Writable(files, op)) && View(tfs.Image()) == After(files, op, ok)
    ensures old(Accounted(tfs.Image(), tfs.totalblocks)) ==> Accounted(tfs.Image(), tfs.totalblocks)
  {
    hide TfsImage.Valid, View, Splice, FileBytes, Decode, Lookup, Live, Names, ReadInode, Accounted, NodeOf;
    NamesOfView(tfs.Image());
    var id := tfs.Open(name);
    if id < 0 {
      return false;
    }
    var buffer := new Byte[|data|](i requires 0 <= i < |data| => data[i]);
    assert buffer[..] == data;
    ghost var before := tfs.Image();
    NamesOfView(before);
    var r := tfs.Write(id, buffer, |data|, offset);
    ok := r >= 0;
    if ok {
      assert buffer[..r] == data[..r];
      ghost var contents := Splice(View(before)[name], offset, data[..r]);
      Rewritten(before, tfs.Image(), tfs.totalblocks, name, id, contents);
      if Accounted(before, tfs.totalblocks) {
        SpliceSlice(View(before)[name], offset, data[..r]);
        WrittenAccounted(before, tfs.Image(), tfs.totalblocks, name, contents);
      }
    }
  }

  lemma Rewritten(f: Fs, g: Fs, total: nat, name: Name, id: int, contents: seq<Byte>)
    requires Valid(f, total) && g.dir == f.dir && name in Names(f) && IsName(name) && Lookup(f, name).inode == id
    requires forall n :: n in Names(g) ==> View(g)[n] == if Lookup(g, n).inode == id then contents else View(f)[n]
    ensures View(g) == View(f)[name := contents]
  {
    hide TfsImage.Valid, Contents, Names, Lookup, SlotOf;
    NamesOfView(f);
    NamesOfView(g);
    SameNames(f, g);
    NameFound(f, total, name);
    var slot := SlotOf(f.dir, name);
    SlotHolds(f, total, name);
    forall n | n in Names(g) ensures Lookup(g, n).inode == id <==> n == name {
      OneNamePerFile(f, total, slot, n);
    }
  }

  lemma SameNames(f: Fs, g: Fs)
    requires f.dir == g.dir
    ensures Names(f) == Names(g) && forall n :: n in Names(f) ==> Lookup(f, n) == Lookup(g, n)
  {
  }

  lemma SlotHolds(f: Fs, total: nat, name: Name)
    requires Valid(f, total) && name in Names(f) && IsName(name)
    ensures 0 <= SlotOf(f.dir, name) < |f.dir| && Used(f.dir[SlotOf(f.dir, name)])
    ensures f.dir[SlotOf(f.dir, name)] == Lookup(f, name) && Lookup(f, name).name == name
  {
    NameFound(f, total, name);
  }

  /** Every operation succeeds or fails as its outcome on the map so far says. */
  predicate AllOutcomes(files: Files, ops: seq<Op>, oks: seq<bool>)
    requires |ops| == |oks|
  {
    forall i :: 0 <= i < |ops| ==> Outcome(AfterAll(files, ops[..i], oks[..i]), ops[i], oks[i])
  }

  ghost predicate AllFitExactly(files: Files, total: nat, ops: seq<Op>, oks: seq<bool>)
    requires |ops| == |oks|
  {
    forall i :: 0 <= i < |ops| ==> FitsExactly(AfterAll(files, ops[..i], oks[..i]), total, ops[i], oks[i])
  }

  /** After any operations, the image holds the files that the successful ones, applied in
      order to the map, leave. On a volume that was empty at first, or was filled by these
      operations only, the map alone decides which of them succeed. */
  method Run(tfs: Tfs, ops: seq<Op>) returns (oks: seq<bool>)
    requires tfs.Valid() && forall i :: 0 <= i < |ops| ==> IsName(ops[i].name)
    modifies tfs.disk, tfs.bufferInode, tfs.bufferBat, tfs.bufferMd
    ensures tfs.Valid() && |oks| == |ops|
    ensures View(tfs.Image()) == AfterAll(old(View(tfs.Image())), ops, oks)
    ensures AllOutcomes(old(View(tfs.Image())), ops, oks)
    ensures old(Accounted(tfs.Image(), tfs.totalblocks)) ==>
              && Accounted(tfs.Image(), tfs.totalblocks)
              && AllFitExactly(old(View(tfs.Image())), tfs.totalblocks, ops, oks)
    ensures old(View(tfs.Image())) == map[] ==> AllFitExactly(map[], tfs.totalblocks, ops, oks)
  {
    hide TfsImage.Valid, View, After, AfterAll, Outcome, AllOutcomes, Accounted, FitsExactly, AllFitExactly;
    ghost var files := View(tfs.Image());
    if files == map[] {
      EmptyAccounted(tfs.Image(), tfs.totalblocks);
    }
    ghost var accounted := Accounted(tfs.Image(), tfs.totalblocks);
    oks := [];
    var i := 0;
    assert ops[..0] == [];
    NothingDone(files, tfs.totalblocks);
    while i < |ops|
      invariant 0 <= i == |oks| <= |ops| && tfs.Valid()
      invariant View(tfs.Image()) == AfterAll(files, ops[..i], oks) && AllOutcomes(files, ops[..i], oks)
      invariant accounted ==>
                  Accounted(tfs.Image(), tfs.totalblocks) && AllFitExactly(files, tfs.totalblocks, ops[..i], oks)
    {
      var ok := Perform(tfs, ops[i]);
      Extended(files, ops[..i], oks, ops[i], ok);
      if accounted {
        FitsExtended(files, tfs.totalblocks, ops[..i], oks, ops[i], ok);
      }
      assert ops[..i + 1] == ops[..i] + [ops[i]];
      oks := oks + [ok];
      i := i + 1;
    }
    assert ops[..i] == ops;
  }

  lemma NothingDone(files: Files, total: nat)
    ensures AfterAll(files, [], []) == files && AllOutcomes(files, [], []) && AllFitExactly(files, total, [], [])
  {
  }

  lemma Extended(files: Files, ops: seq<Op>, oks: seq<bool>, op: Op, ok: bool)
    requires |ops| == |oks| && AllOutcomes(files, ops, oks) && Outcome(AfterAll(files, ops, oks), op, ok)
    ensures AfterAll(files, ops + [op], oks + [ok]) == After(AfterAll(files, ops, oks), op, ok)
    ensures AllOutcomes(files, ops + [op], oks + [ok])
  {
    hide After, Outcome;
    var ops', oks' := ops + [op], oks + [ok];
    assert ops'[..|ops|] == ops && oks'[..|ops|] == oks;
    forall i | 0 <= i < |ops'| ensures Outcome(AfterAll(files, ops'[..i], oks'[..i]), ops'[i], oks'[i]) {
      if i < |ops| {
        assert ops'[..i] == ops[..i] && oks'[..i] == oks[..i];
      }
    }
  }

  lemma FitsExtended(files: Files, total: nat, ops: seq<Op>, oks: seq<bool>, op: Op, ok: bool)
    requires |ops| == |oks| && AllFitExactly(files, total, ops, oks)
    requires FitsExactly(AfterAll(files, ops, oks), total, op, ok)
    ensures AllFitExactly(files, total, ops + [op], oks + [ok])
  {
    hide AfterAll, FitsExactly;
    var ops', oks' := ops + [op], oks + [ok];
    assert ops'[..|ops|] == ops && oks'[..|ops|] == oks;
    forall i | 0 <= i < |ops'| ensures FitsExactly(AfterAll(files, ops'[..i], oks'[..i]), total, ops'[i], oks'[i]) {
      if i < |ops| {
        assert ops'[..i] == ops[..i] && oks'[..i] == oks[..i];
      }
    }
  }
}
