/** Whole-filesystem round trips: what one operation writes another one reads back, on
    the kernel side, on the tool side, and across the two. */
module TfsRoundTrips {
  import opened Words
  import opened DiskFormat
  import opened TfsImage
  import opened TfsEffects
  import opened ImageDecoding
  import opened TfsOperations
  import opened TfsDriver
  import TfsTool

  /** A new file reads as zeros of the requested size. */
  method CreateThenRead(tfs: Tfs, name: Name, size: nat, buffer: array<Byte>) returns (r: int)
    requires tfs.Valid() && IsName(name)
    requires CanCreate(tfs.Image(), tfs.totalblocks, name, size)
    requires buffer !in {tfs.bufferInode, tfs.bufferBat, tfs.bufferMd} && size <= buffer.Length
    modifies tfs.disk, tfs.bufferInode, tfs.bufferBat, tfs.bufferMd, buffer
    ensures r == size && forall k :: 0 <= k < size ==> buffer[k] == 0
  {
    var c := tfs.Create(name, size);
    r := ReadAll(tfs, name, buffer, size);
    assert buffer[..size] == Zeros(size);
    assert forall k :: 0 <= k < size ==> buffer[k] == buffer[..size][k];
  }

  /** Opens a file and reads it from the start. */
  method ReadAll(tfs: Tfs, name: Name, buffer: array<Byte>, size: nat) returns (r: int)
    requires tfs.Valid() && IsName(name) && name in View(tfs.Image())
    requires buffer !in {tfs.bufferInode, tfs.bufferBat, tfs.bufferMd}
    requires |View(tfs.Image())[name]| == size <= buffer.Length
    modifies tfs.bufferInode, tfs.bufferBat, tfs.bufferMd, buffer
    ensures r == size && buffer[..size] == View(tfs.Image())[name]
  {
    hide TfsImage.Valid, View, Live;
    NamesOfView(tfs.Image());
    var id := tfs.Open(name);
    r := tfs.Read(id, buffer, size, 0);
  }

  lemma NamesOfView(f: Fs)
    ensures View(f).Keys == Names(f)
  {
  }

  /** Creating a file and removing it restores every file and all of the free space. */
  method CreateThenRemove(tfs: Tfs, name: Name, size: nat)
    requires tfs.Valid() && IsName(name)
    requires CanCreate(tfs.Image(), tfs.totalblocks, name, size)
    modifies tfs.disk, tfs.bufferInode, tfs.bufferBat, tfs.bufferMd
    ensures tfs.Valid()
    ensures View(tfs.Image()) == View(old(tfs.Image()))
    ensures forall b: nat :: b < tfs.totalblocks ==> tfs.Image().bits[b] == old(tfs.Image().bits)[b]
  {
    hide View;
    ghost var f := tfs.Image();
    NamesOfView(f);
    var c := tfs.Create(name, size);
    ghost var g := tfs.Image();
    NamesOfView(g);
    var r := tfs.Remove(name);
    CreateUndone(f, g, tfs.Image(), tfs.totalblocks, name, Zeros(size));
  }

  lemma NamesRestored(f: Fs, g: Fs, h: Fs, name: Name, contents: seq<Byte>)
    requires name !in Names(f)
    requires View(g) == View(f)[name := contents] && KeepsNames(f, g, name)
    requires View(h) == View(g) - {name} && KeepsNames(g, h, name)
    ensures View(h) == View(f)
    ensures KeepsAllNames(f, h) && KeepsAllNames(h, f)
  {
    NamesOfView(f);
    NamesOfView(g);
    NamesOfView(h);
    hide View, Names, Lookup;
    NamesRestoredByView(f, g, h, name);
  }

  lemma NamesRestoredByView(f: Fs, g: Fs, h: Fs, name: Name)
    requires name !in Names(f) && Names(g) == Names(f) + {name} && Names(h) == Names(g) - {name}
    requires KeepsNames(f, g, name) && KeepsNames(g, h, name)
    ensures KeepsAllNames(f, h) && KeepsAllNames(h, f)
  {
    assert Names(h) == Names(f);
    AddedAndRemoved(f, g, h, name);
  }

  lemma CreateUndone(f: Fs, g: Fs, h: Fs, total: nat, name: Name, contents: seq<Byte>)
    requires TfsImage.Valid(f, total) && TfsImage.Valid(h, total)
    requires name !in Names(f)
    requires View(g) == View(f)[name := contents] && KeepsNames(f, g, name)
    requires View(h) == View(g) - {name} && KeepsNames(g, h, name)
    ensures View(h) == View(f)
    ensures forall b: nat :: b < total ==> h.bits[b] == f.bits[b]
  {
    NamesRestored(f, g, h, name, contents);
    SameFilesSameBits(f, h, total);
  }

  /** What is written is read back. */
  method WriteThenRead(tfs: Tfs, name: Name, data: array<Byte>, size: nat, offset: nat, buffer: array<Byte>)
    returns (w: int, r: int)
    requires tfs.Valid() && IsName(name) && name in View(tfs.Image())
    requires {data, buffer} !! {tfs.bufferInode, tfs.bufferBat, tfs.bufferMd} && data != buffer
    requires size <= data.Length && size <= buffer.Length
    requires offset + size <= |View(tfs.Image())[name]|
    modifies tfs.disk, tfs.bufferInode, tfs.bufferBat, tfs.bufferMd, buffer
    ensures tfs.Valid()
    ensures w == r == size && buffer[..size] == data[..size]
  {
    hide TfsImage.Valid, View, Splice, FileBytes;
    NamesOfView(tfs.Image());
    var id := tfs.Open(name);
    ghost var before := tfs.Content(id);
    w := tfs.Write(id, data, size, offset);
    SpliceSlice(before, offset, data[..w]);
    r := tfs.Read(id, buffer, size, offset);
  }

  /** A splice puts the data in place and keeps every other byte. */
  lemma SpliceSlice(s: seq<Byte>, offset: nat, data: seq<Byte>)
    requires offset + |data| <= |s|
    ensures |Splice(s, offset, data)| == |s|
    ensures Splice(s, offset, data)[offset..offset + |data|] == data
    ensures forall k :: 0 <= k < |s| && !(offset <= k < offset + |data|) ==> Splice(s, offset, data)[k] == s[k]
  {
  }

  /** A file stored by the tool is returned byte for byte by the tool. */
  method StoreThenReadByTool(disk: array<Block>, numBlocks: nat, name: Name, source: seq<Byte>, littleEndian: bool)
    returns (ok: bool, out: TfsTool.Output)
    requires 3 <= disk.Length == numBlocks && TfsImage.Valid(Decode(disk[..]), numBlocks) && IsName(name)
    modifies disk
    ensures ok <==> TfsTool.CanStore(old(Decode(disk[..])), numBlocks, name, |source|)
    ensures ok ==> out == TfsTool.Found(source)
  {
    ok := TfsTool.Write(disk, numBlocks, name, source, littleEndian);
    out := TfsTool.Read(disk, numBlocks, name, littleEndian);
    NamesOfView(Decode(disk[..]));
  }

  /** A file stored by the tool on a volume with the magic number is returned byte for byte
      by the kernel, which mounts the volume, opens the file and reads it. */
  method StoreThenReadByKernel(disk: array<Block>, numBlocks: nat, name: Name, source: seq<Byte>, littleEndian: bool)
    returns (ok: bool, out: seq<Byte>)
    requires 3 <= disk.Length == numBlocks && TfsImage.Valid(Decode(disk[..]), numBlocks) && IsName(name)
    requires WordAt(disk[TFS_HEADER_BLOCK], 0) == TFS_MAGIC
    modifies disk
    ensures ok <==> TfsTool.CanStore(old(Decode(disk[..])), numBlocks, name, |source|)
    ensures ok ==> out == source
  {
    out := [];
    ok := TfsTool.Write(disk, numBlocks, name, source, littleEndian);
    if ok {
      out := ReadByKernel(disk, name, source);
    }
  }

  method ReadByKernel(disk: array<Block>, name: Name, ghost source: seq<Byte>) returns (out: seq<Byte>)
    requires 3 <= disk.Length <= TFS_MAX_BLOCKS && TfsImage.Valid(Decode(disk[..]), disk.Length) && IsName(name)
    requires WordAt(disk[TFS_HEADER_BLOCK], 0) == TFS_MAGIC
    requires name in View(Decode(disk[..])) && View(Decode(disk[..]))[name] == source
    ensures out == source
  {
    hide TfsImage.Valid, View, Live;
    NamesOfView(Decode(disk[..]));
    var tfs, sem, page := Init(disk, TFS_BLOCK_SIZE, true, true);
    var id := tfs.Open(name);
    var size := WordAt(disk[id], 0);
    var buffer := new Byte[size];
    var r := tfs.Read(id, buffer, size, 0);
    out := buffer[..];
  }

  /** The kernel mounts a volume made by the tool, finds it empty, and can fill it. */
  method CreateVolumeThenMount(size: nat, volumeName: seq<Byte>, littleEndian: bool) returns (tfs: Tfs?)
    requires |volumeName| == 16 && size >= 3
    ensures tfs != null && tfs.Valid() && tfs.disk.Length == size
    ensures View(tfs.Image()) == map[]
  {
    var disk := TfsTool.CreateVolume(size, volumeName, littleEndian);
    var sem, page;
    tfs, sem, page := Init(disk, TFS_BLOCK_SIZE, true, true);
  }

  /** From nothing: the tool makes a volume and stores a file in it, the kernel mounts the
      volume and reads the file. It works exactly if the volume has room for the file. */
  method MakeStoreMountRead(size: nat, volumeName: seq<Byte>, name: Name, source: seq<Byte>, littleEndian: bool)
    returns (ok: bool, out: seq<Byte>)
    requires |volumeName| == 16 && 3 <= size <= TFS_MAX_BLOCKS && IsName(name)
    ensures ok <==> |source| <= TFS_MAX_FILESIZE && TfsTool.ToolBlocks(|source|) + 4 <= size
    ensures ok ==> out == source
  {
    var disk := TfsTool.CreateVolume(size, volumeName, littleEndian);
    EmptyTakesAny(Decode(disk[..]), size, name);
    ok, out := StoreThenReadByKernel(disk, size, name, source, littleEndian);
  }

  /** In an empty image every name is new and every slot unused. */
  lemma EmptyTakesAny(f: Fs, total: nat, name: Name)
    requires TfsImage.Valid(f, total) && View(f) == map[] && IsName(name)
    ensures SlotOf(f.dir, name) == -1 && forall i :: 0 <= i < |f.dir| ==> !Used(f.dir[i])
  {
    NamesOfView(f);
    forall i | 0 <= i < |f.dir| ensures !Used(f.dir[i]) {
      UsedIsNamed(f, i);
    }
    NameFound(f, total, name);
  }

  lemma UsedIsNamed(f: Fs, i: nat)
    requires i < |f.dir|
    ensures Used(f.dir[i]) ==> f.dir[i].name in Names(f)
  {
  }
}
