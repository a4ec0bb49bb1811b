/** How much room the files of an image take, told from the map of the files alone. */
module TfsSpace {
  import opened Words
  import opened DiskFormat
  import opened TfsImage
  import opened TfsEffects
  import opened Allocation
  import opened TfsOperations
  import opened TfsDriver
  import opened TfsRoundTrips
  import Bitmap
  import TfsTool

  type Files = map<Name, seq<Byte>>

  /** The blocks of all files: for each its data blocks and one for its inode. */
  ghost function Cost(files: Files): nat
    decreases |files.Keys|
  {
    if files == map[] then 0
    else
      var name :| name in files;
      FewerKeys(files, name);
      Cost(files - {name}) + NumBlocks(|files[name]|) + 1
  }

  lemma FewerKeys(files: Files, name: Name)
    requires name in files
    ensures |(files - {name}).Keys| < |files.Keys|
  {
    assert (files - {name}).Keys == files.Keys - {name};
  }

  /** The cost does not depend on the order in which the names are taken. */
  lemma {:induction false} CostWithout(files: Files, name: Name)
    requires name in files
    ensures Cost(files) == Cost(files - {name}) + NumBlocks(|files[name]|) + 1
    decreases |files.Keys|
  {
    var x :| x in files && Cost(files) == Cost(files - {x}) + NumBlocks(|files[x]|) + 1;
    if x != name {
      FewerKeys(files, x);
      FewerKeys(files, name);
      CostWithout(files - {x}, name);
      CostWithout(files - {name}, x);
      assert files - {x} - {name} == files - {name} - {x};
    }
  }

  lemma CostWith(files: Files, name: Name, contents: seq<Byte>)
    requires name !in files
    ensures Cost(files[name := contents]) == Cost(files) + NumBlocks(|contents|) + 1
  {
    CostWithout(files[name := contents], name);
    assert files[name := contents] - {name} == files;
  }

  lemma CostSameSize(files: Files, name: Name, contents: seq<Byte>)
    requires name in files && |contents| == |files[name]|
    ensures Cost(files[name := contents]) == Cost(files)
  {
    CostWithout(files, name);
    CostWithout(files[name := contents], name);
    assert files[name := contents] - {name} == files - {name};
  }

  /** Each file lists as many blocks as its size needs, and no other block is taken. */
  ghost predicate Accounted(f: Fs, total: nat)
    requires total <= |f.bits|
  {
    && (forall name :: name in Names(f) ==> |NodeOf(f, Lookup(f, name)).blocks| == NumBlocks(|Contents(f, name)|))
    && Bitmap.FreeCount(f.bits, total) + 3 + Cost(View(f)) == total
  }

  lemma EmptyAccounted(f: Fs, total: nat)
    requires TfsImage.Valid(f, total) && View(f) == map[]
    ensures Accounted(f, total)
  {
    NamesOfView(f);
    forall i | 0 <= i < |f.dir| ensures Owned(f, i) == [] {
      UsedIsNamed(f, i);
    }
    TfsTool.NothingOwned(f, |f.dir|);
    SpaceAccounting(f, total);
  }

  /** The names in the first n slots. */
  function NamesIn(dir: seq<DirEntry>, n: nat): set<Name>
    requires n <= |dir|
  {
    if n == 0 then {} else NamesIn(dir, n - 1) + if Used(dir[n - 1]) then {dir[n - 1].name} else {}
  }

  lemma {:induction false} NamesInAre(dir: seq<DirEntry>, n: nat)
    requires n <= |dir|
    ensures forall name :: name in NamesIn(dir, n) <==> exists i :: 0 <= i < n && Used(dir[i]) && dir[i].name == name
  {
    if n > 0 {
      NamesInAre(dir, n - 1);
    }
  }

  lemma NamesInStep(dir: seq<DirEntry>, n: nat)
    requires n <= |dir|
    ensures n == 0 ==> NamesIn(dir, n) == {}
    ensures n > 0 ==>
              NamesIn(dir, n) == NamesIn(dir, n - 1) + if Used(dir[n - 1]) then {dir[n - 1].name} else {}
  {
  }

  lemma NewInSlot(dir: seq<DirEntry>, total: nat, n: nat)
    requires DirectoryOk(dir, total) && n < |dir| && Used(dir[n])
    ensures dir[n].name !in NamesIn(dir, n)
  {
    hide NamesIn;
    NamesInAre(dir, n);
  }

  lemma {:induction false} NamesInCount(dir: seq<DirEntry>, total: nat, n: nat)
    requires DirectoryOk(dir, total) && n <= |dir|
    ensures |NamesIn(dir, n)| <= n
    ensures |NamesIn(dir, n)| == n <==> forall i :: 0 <= i < n ==> Used(dir[i])
  {
    hide NamesIn;
    NamesInStep(dir, n);
    if n > 0 {
      NamesInCount(dir, total, n - 1);
      if Used(dir[n - 1]) {
        NewInSlot(dir, total, n - 1);
      }
    }
  }

  /** There is an unused slot exactly if there are fewer names than slots. */
  lemma SlotsLeft(f: Fs, total: nat)
    requires TfsImage.Valid(f, total)
    ensures |View(f)| <= TFS_MAX_FILES
    ensures (exists i :: 0 <= i < |f.dir| && !Used(f.dir[i])) <==> |View(f)| < TFS_MAX_FILES
  {
    NamesOfView(f);
    NamesInAre(f.dir, |f.dir|);
    assert NamesIn(f.dir, |f.dir|) == Names(f);
    NamesInCount(f.dir, total, |f.dir|);
    assert |View(f)| == |View(f).Keys|;
  }

  /** The map of the files says whether one more fits. */
  ghost predicate HasRoom(files: Files, total: nat, name: Name, size: nat) {
    && name !in files && |files| < TFS_MAX_FILES && size <= TFS_MAX_FILESIZE
    && Cost(files) + NumBlocks(size) + 1 <= total - 3
  }

  lemma CanCreateIfRoom(f: Fs, total: nat, name: Name, size: nat)
    requires TfsImage.Valid(f, total) && Accounted(f, total)
    ensures CanCreate(f, total, name, size) <==> HasRoom(View(f), total, name, size)
  {
    hide TfsImage.Valid, View;
    NamesOfView(f);
    SlotsLeft(f, total);
  }

  lemma CreatedAccounted(f: Fs, g: Fs, total: nat, name: Name, size: nat)
    requires TfsImage.Valid(f, total) && TfsImage.Valid(g, total) && Accounted(f, total)
    requires name !in Names(f) && View(g) == View(f)[name := Zeros(size)] && KeepsNames(f, g, name)
    requires Bitmap.FreeCount(g.bits, total) + NumBlocks(size) + 1 == Bitmap.FreeCount(f.bits, total)
    requires name in Names(g) && |NodeOf(g, Lookup(g, name)).blocks| == NumBlocks(size)
    ensures Accounted(g, total)
  {
    hide TfsImage.Valid, Contents, Lookup, Names;
    NamesOfView(f);
    NamesOfView(g);
    CostWith(View(f), name, Zeros(size));
    assert Contents(g, name) == View(g)[name];
  }

  lemma RemovedAccounted(f: Fs, g: Fs, total: nat, name: Name)
    requires TfsImage.Valid(f, total) && TfsImage.Valid(g, total) && Accounted(f, total)
    requires name in Names(f) && View(g) == View(f) - {name} && KeepsNames(f, g, name)
    requires Bitmap.FreeCount(g.bits, total) == Bitmap.FreeCount(f.bits, total) + 1 + |NodeOf(f, Lookup(f, name)).blocks|
    ensures Accounted(g, total)
  {
    hide TfsImage.Valid, Contents, Lookup, Names;
    NamesOfView(f);
    NamesOfView(g);
    CostWithout(View(f), name);
    assert Contents(f, name) == View(f)[name];
  }

  lemma WrittenAccounted(f: Fs, g: Fs, total: nat, name: Name, contents: seq<Byte>)
    requires TfsImage.Valid(f, total) && TfsImage.Valid(g, total) && Accounted(f, total)
    requires g.dir == f.dir && g.bits == f.bits
    requires forall i :: 0 <= i < TFS_MAX_FILES && Used(f.dir[i]) ==> NodeOf(g, f.dir[i]) == NodeOf(f, f.dir[i])
    requires name in View(f) && View(g) == View(f)[name := contents] && |contents| == |View(f)[name]|
    ensures Accounted(g, total)
  {
    NamesOfView(f);
    CostSameSize(View(f), name, contents);
    forall n | n in Names(g) ensures |NodeOf(g, Lookup(g, n)).blocks| == NumBlocks(|Contents(g, n)|) {
      var i :| 0 <= i < |f.dir| && Used(f.dir[i]) && f.dir[i].name == n;
      FoundAt(f, total, i);
      FoundAt(g, total, i);
    }
  }
}
