/** What a TFS disk image means: the map from file names to file contents that its
    blocks encode, and the invariant that makes the encoding unambiguous. */
module TfsImage {
  import opened Words
  import opened DiskFormat

  type Image = seq<Block>
  type Name = seq<Byte>

  /** A decoded image: the directory, the allocation bits, and each block of the disk
      both as an inode block and as bytes. */
  datatype Fs = Fs(dir: seq<DirEntry>, bits: seq<bool>, nodes: seq<Inode>, data: Image)

  predicate WellFormed(f: Fs) {
    && |f.dir| == TFS_MAX_FILES && |f.bits| == TFS_MAX_BLOCKS
    && |f.nodes| == |f.data|
  }

  predicate Used(e: DirEntry) {
    e.inode != 0
  }

  /** The inode of a directory entry. */
  function NodeOf(f: Fs, e: DirEntry): Inode {
    if e.inode < |f.nodes| then f.nodes[e.inode] else Inode(0, [])
  }

  /** The blocks of the file in directory slot i: its inode block, then its listed blocks. */
  function Owned(f: Fs, i: nat): seq<nat>
    requires i < |f.dir|
  {
    var e := f.dir[i];
    if Used(e) then [e.inode] + NodeOf(f, e).blocks else []
  }

  /** Byte k of the file with inode n: where the block list puts it. */
  function FileByte(data: Image, n: Inode, k: nat): Byte {
    var j := k / TFS_BLOCK_SIZE;
    if j < |n.blocks| && n.blocks[j] < |data| then data[n.blocks[j]][k % TFS_BLOCK_SIZE] else 0
  }

  function FileBytesUpTo(data: Image, n: Inode, k: nat): (r: seq<Byte>)
    ensures |r| == k
    ensures forall i :: 0 <= i < k ==> r[i] == FileByte(data, n, i)
  {
    if k == 0 then [] else FileBytesUpTo(data, n, k - 1) + [FileByte(data, n, k - 1)]
  }

  /** The contents of the file with inode n. */
  function FileBytes(data: Image, n: Inode): (r: seq<Byte>)
    ensures |r| == n.filesize
    ensures forall i :: 0 <= i < |r| ==> r[i] == FileByte(data, n, i)
  {
    FileBytesUpTo(data, n, n.filesize)
  }

  ghost predicate DirectoryOk(dir: seq<DirEntry>, total: nat) {
    && (forall i :: 0 <= i < |dir| ==>
          if Used(dir[i]) then IsName(dir[i].name) && 3 <= dir[i].inode < total
          else dir[i].name == [])
    && (forall i, j :: 0 <= i < j < |dir| && Used(dir[i]) && Used(dir[j]) ==> dir[i].name != dir[j].name)
  }

  /** At least ceil(filesize / 512) blocks are listed, all of them data blocks of the disk. */
  ghost predicate InodeOk(n: Inode, total: nat) {
    && n.filesize <= TFS_BLOCK_SIZE * |n.blocks|
    && (forall k :: 0 <= k < |n.blocks| ==> 3 <= n.blocks[k] < total)
  }

  /** No block is owned twice, by two files or by two places of one file. */
  ghost predicate NoSharing(f: Fs) {
    forall i, j, a, b :: 0 <= i < |f.dir| && 0 <= j < |f.dir|
                         && 0 <= a < |Owned(f, i)| && 0 <= b < |Owned(f, j)|
                         && Owned(f, i)[a] == Owned(f, j)[b]
                         ==> i == j && a == b
  }

  ghost predicate Claimed(f: Fs, k: nat) {
    exists i :: 0 <= i < |f.dir| && k in Owned(f, i)
  }

  /** The allocation invariant: the set bits are exactly the system blocks and the owned blocks. */
  ghost predicate BitmapExact(f: Fs, total: nat)
    requires total <= |f.bits|
  {
    forall k: nat :: k < total ==> (f.bits[k] <==> k < 3 || Claimed(f, k))
  }

  ghost predicate Valid(f: Fs, total: nat) {
    && WellFormed(f)
    && 3 <= total <= TFS_MAX_BLOCKS && total <= |f.data|
    && DirectoryOk(f.dir, total)
    && (forall i :: 0 <= i < |f.dir| && Used(f.dir[i]) ==> InodeOk(NodeOf(f, f.dir[i]), total))
    && NoSharing(f)
    && BitmapExact(f, total)
  }

  /** The first slot from i on that holds the name, as the kernel's search finds it. */
  function SlotFrom(dir: seq<DirEntry>, name: Name, i: nat): (r: int)
    requires i <= |dir|
    ensures r == -1 || i <= r < |dir|
    ensures r >= 0 ==> dir[r].name == name
    ensures r == -1 ==> forall k :: i <= k < |dir| ==> dir[k].name != name
    ensures r >= 0 ==> forall k :: i <= k < r ==> dir[k].name != name
    decreases |dir| - i
  {
    if i == |dir| then -1
    else if dir[i].name == name then i
    else SlotFrom(dir, name, i + 1)
  }

  function SlotOf(dir: seq<DirEntry>, name: Name): (r: int)
    ensures r == -1 || 0 <= r < |dir|
    ensures r >= 0 ==> dir[r].name == name
    ensures r == -1 ==> forall k :: 0 <= k < |dir| ==> dir[k].name != name
  {
    SlotFrom(dir, name, 0)
  }

  function Names(f: Fs): set<Name> {
    set i | 0 <= i < |f.dir| && Used(f.dir[i]) :: f.dir[i].name
  }

  /** The entry the kernel's search finds for a name. */
  function Lookup(f: Fs, name: Name): DirEntry
    requires name in Names(f)
  {
    f.dir[SlotOf(f.dir, name)]
  }

  /** The contents of the file with a name. */
  function Contents(f: Fs, name: Name): seq<Byte>
    requires name in Names(f)
  {
    FileBytes(f.data, NodeOf(f, Lookup(f, name)))
  }

  /** The abstract value of an image: the contents of every file by name. */
  function View(f: Fs): map<Name, seq<Byte>> {
    map name | name in Names(f) :: Contents(f, name)
  }

  /** Where a slot's file shows up by name. */
  lemma FoundAt(f: Fs, total: nat, i: nat)
    requires Valid(f, total) && i < |f.dir| && Used(f.dir[i])
    ensures f.dir[i].name in Names(f)
    ensures SlotOf(f.dir, f.dir[i].name) == i
    ensures Lookup(f, f.dir[i].name) == f.dir[i]
    ensures Contents(f, f.dir[i].name) == FileBytes(f.data, NodeOf(f, f.dir[i]))
  {
    var name := f.dir[i].name;
    assert name in Names(f);
    var k := SlotOf(f.dir, name);
    assert Used(f.dir[k]);
  }

  /** A name is in the view exactly when the search finds it. */
  lemma NameFound(f: Fs, total: nat, name: Name)
    requires Valid(f, total) && IsName(name)
    ensures name in Names(f) <==> SlotOf(f.dir, name) >= 0
    ensures SlotOf(f.dir, name) >= 0 ==> Used(f.dir[SlotOf(f.dir, name)])
  {
  }

  /** Block k is the same in both images, as an inode and as bytes. */
  predicate SameBlock(f: Fs, f': Fs, k: nat)
    requires |f.data| == |f.nodes| == |f'.data| == |f'.nodes|
  {
    k < |f.data| ==> f'.data[k] == f.data[k] && f'.nodes[k] == f.nodes[k]
  }

  /** A file whose own blocks and directory entry are the same in two images is the same file. */
  lemma SameFile(f: Fs, f': Fs, i: nat)
    requires WellFormed(f) && WellFormed(f') && |f.data| == |f'.data| && i < |f.dir|
    requires f.dir[i] == f'.dir[i]
    requires forall k :: k in Owned(f, i) ==> SameBlock(f, f', k)
    ensures Owned(f', i) == Owned(f, i)
    ensures Used(f.dir[i]) ==> NodeOf(f', f.dir[i]) == NodeOf(f, f.dir[i])
    ensures Used(f.dir[i]) ==> FileBytes(f'.data, NodeOf(f', f.dir[i])) == FileBytes(f.data, NodeOf(f, f.dir[i]))
  {
    var e := f.dir[i];
    if Used(e) {
      var o := Owned(f, i);
      assert o[0] == e.inode;
      assert SameBlock(f, f', e.inode);
      var n := NodeOf(f, e);
      assert NodeOf(f', e) == n;
      forall k | 0 <= k < n.filesize ensures FileByte(f'.data, n, k) == FileByte(f.data, n, k) {
        var j := k / TFS_BLOCK_SIZE;
        if j < |n.blocks| {
          assert o[j + 1] == n.blocks[j];
          assert SameBlock(f, f', n.blocks[j]);
        }
      }
    }
  }
}
