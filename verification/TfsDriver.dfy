/** fs/tfs.c: the TFS driver. Every operation runs under the filesystem lock, so each
    method is one atomic operation on the disk. */
module TfsDriver {
  import opened Collections
  import opened Words
  import opened Memory
  import opened DiskFormat
  import opened TfsImage
  import opened TfsEffects
  import opened Allocation
  import opened ImageDecoding
  import opened TfsOperations
  import Bitmap

  const VFS_OK := 0
  const VFS_ERROR := -2
  const VFS_NOT_FOUND := -5
  const TFS_MAGIC := 3745

  /** The data blocks of a file: enough for its bytes, and with one block less not enough. */
  function NumBlocks(size: nat): (n: nat)
    ensures size <= TFS_BLOCK_SIZE * n
    ensures n > 0 ==> TFS_BLOCK_SIZE * (n - 1) < size
  {
    (size + TFS_BLOCK_SIZE - 1) / TFS_BLOCK_SIZE
  }

  /** The least cover: n blocks hold size bytes exactly if there are at least as many. */
  lemma LeastCover(size: nat, n: nat)
    ensures size <= TFS_BLOCK_SIZE * n <==> NumBlocks(size) <= n
  {
  }

  lemma CoverIs(size: nat, free: nat)
    ensures NumBlocks(size) == (size + TFS_BLOCK_SIZE - 1) / TFS_BLOCK_SIZE
    ensures NumBlocks(size) <= TFS_BLOCKS_MAX <==> size <= TFS_MAX_FILESIZE
    ensures NumBlocks(size) + 1 <= free <==> 0 < free && size <= TFS_BLOCK_SIZE * (free - 1)
  {
  }

  /** When a file of the given size can be created: it is not too long for an inode, the
      name is new, the directory has an unused entry, and the free blocks but one, which
      the inode takes, hold the bytes. */
  ghost predicate CanCreate(f: Fs, total: nat, name: Name, size: nat)
    requires total <= |f.bits|
  {
    && size <= TFS_MAX_FILESIZE
    && name !in Names(f)
    && (exists i :: 0 <= i < |f.dir| && !Used(f.dir[i]))
    && 0 < Bitmap.FreeCount(f.bits, total)
    && size <= TFS_BLOCK_SIZE * (Bitmap.FreeCount(f.bits, total) - 1)
  }

  class Tfs {
    const disk: array<Block>
    const totalblocks: nat
    const bufferInode: array<Byte>
    const bufferBat: array<Byte>
    const bufferMd: array<Byte>

    /** The driver state that tfs_init sets up for a disk: three buffers of one block. */
    constructor (disk: array<Block>)
      requires 3 <= disk.Length
      ensures Buffers() && this.disk == disk
      ensures fresh(bufferInode) && fresh(bufferBat) && fresh(bufferMd)
    {
      this.disk := disk;
      totalblocks := Min(disk.Length, TFS_MAX_BLOCKS);
      bufferInode := new Byte[TFS_BLOCK_SIZE];
      bufferBat := new Byte[TFS_BLOCK_SIZE];
      bufferMd := new Byte[TFS_BLOCK_SIZE];
    }

    ghost predicate Buffers() {
      && bufferInode.Length == bufferBat.Length == bufferMd.Length == TFS_BLOCK_SIZE
      && bufferInode != bufferBat && bufferInode != bufferMd && bufferBat != bufferMd
      && 3 <= disk.Length
      && totalblocks == Min(disk.Length, TFS_MAX_BLOCKS)
    }

    ghost function Image(): Fs
      requires Buffers()
      reads disk
    {
      Decode(disk[..])
    }

    ghost predicate Valid()
      reads disk
    {
      Buffers() && TfsImage.Valid(Image(), totalblocks)
    }

    /** The contents of the file whose identifier is ino. */
    ghost function Content(ino: int): seq<Byte>
      requires Buffers() && 0 <= ino < disk.Length
      reads disk
    {
      FileBytes(disk[..], ReadInode(disk[ino]))
    }

    /** A block read: the device's bytes end up in the buffer. */
    method ReadBlock(block: nat, buf: array<Byte>)
      requires block < disk.Length && buf.Length == TFS_BLOCK_SIZE
      modifies buf
      ensures buf[..] == disk[block]
    {
      var data := disk[block];
      forall k | 0 <= k < TFS_BLOCK_SIZE {
        buf[k] := data[k];
      }
    }

    method WriteBlock(block: nat, buf: array<Byte>)
      requires block < disk.Length && buf.Length == TFS_BLOCK_SIZE
      modifies disk
      ensures disk[..] == old(disk[..])[block := buf[..]]
    {
      disk[block] := buf[..];
    }

    /** The first entry with the name, or -1. */
    method FindName(filename: Name) returns (index: int)
      requires bufferMd.Length == TFS_BLOCK_SIZE
      ensures index == SlotOf(Directory(bufferMd[..]), filename)
    {
      ghost var dir := Directory(bufferMd[..]);
      for i := 0 to TFS_MAX_FILES
        invariant forall k :: 0 <= k < i ==> dir[k].name != filename
      {
        DirectoryAt(bufferMd[..], i);
        if Entry(bufferMd[..], i).name == filename {
          return i;
        }
      }
      return -1;
    }

    /** Returns the inode block number of the file as its identifier. */
    method Open(filename: Name) returns (r: int)
      requires Valid() && IsName(filename)
      modifies bufferMd
      ensures filename in Names(Image()) ==>
                && r == Lookup(Image(), filename).inode
                && 3 <= r < totalblocks && Live(Image(), r)
                && Content(r) == View(Image())[filename]
      ensures filename !in Names(Image()) ==> r == VFS_NOT_FOUND
    {
      ReadBlock(TFS_DIRECTORY_BLOCK, bufferMd);
      NameFound(Image(), totalblocks, filename);
      var i := FindName(filename);
      if i == -1 {
        return VFS_NOT_FOUND;
      }
      FileOfName(disk[..], totalblocks, filename);
      DirectoryAt(bufferMd[..], i);
      return Entry(bufferMd[..], i).inode;
    }

    method GetFree() returns (r: int)
      requires Valid()
      modifies bufferBat
      ensures r == Bitmap.FreeCount(Image().bits, totalblocks) * TFS_BLOCK_SIZE
    {
      ReadBlock(TFS_ALLOCATION_BLOCK, bufferBat);
      var inUse := 0;
      for i := 0 to totalblocks
        invariant bufferBat[..] == disk[TFS_ALLOCATION_BLOCK]
        invariant inUse + Bitmap.FreeCount(Image().bits, i) == i
      {
        var v := Bitmap.Get(bufferBat, i);
        inUse := inUse + v;
      }
      return (totalblocks - inUse) * TFS_BLOCK_SIZE;
    }

    /** The inode block under construction lists exactly these blocks so far. */
    ghost predicate InodeLists(size: Word, blocks: seq<nat>)
      requires bufferInode.Length == TFS_BLOCK_SIZE && |blocks| <= TFS_BLOCKS_MAX
      reads bufferInode
    {
      && WordAt(bufferInode[..], 0) == size
      && forall k :: 0 <= k < |blocks| ==> WordAt(bufferInode[..], 1 + k) == blocks[k]
    }

    method StoreInodeWord(i: nat, w: Word)
      requires bufferInode.Length == TFS_BLOCK_SIZE && i <= TFS_BLOCKS_MAX
      modifies bufferInode
      ensures WordAt(bufferInode[..], i) == w
      ensures forall k: nat :: k <= TFS_BLOCKS_MAX && k != i ==>
                WordAt(bufferInode[..], k) == WordAt(old(bufferInode[..]), k)
    {
      ghost var before := bufferInode[..];
      StoreWord32(bufferInode, i, w);
      assert bufferInode[..] == StoreWord(before, i, w);
      StoredWord(before, i, w);
    }

    /** The block search of create: takes numblocks free blocks after the inode block and
        lists them in the inode, or runs out of space. */
    method AllocateBlocks(size: Word, numblocks: nat, ino: nat, ghost b0: seq<bool>)
      returns (ok: bool, ghost blocks: seq<nat>)
      requires Buffers() && numblocks <= TFS_BLOCKS_MAX && |b0| == TFS_MAX_BLOCKS
      requires Takes(b0, Bitmap.Bits(bufferBat[..]), totalblocks, [ino])
      modifies bufferInode, bufferBat
      ensures ok ==> |blocks| == numblocks && InodeLists(size, blocks)
                     && Takes(b0, Bitmap.Bits(bufferBat[..]), totalblocks, [ino] + blocks)
      ensures !ok ==> Bitmap.FreeCount(b0, totalblocks) < numblocks + 1
    {
      StoreInodeWord(0, size);
      blocks := [];
      assert [ino] + blocks == [ino];
      for i := 0 to numblocks
        invariant |blocks| == i && InodeLists(size, blocks)
        invariant Takes(b0, Bitmap.Bits(bufferBat[..]), totalblocks, [ino] + blocks)
      {
        ghost var b := Bitmap.Bits(bufferBat[..]);
        var found := Bitmap.FindAndSet(bufferBat, totalblocks);
        if found == -1 {
          Bitmap.FreeCountZero(b, totalblocks);
          TakesCount(b0, b, totalblocks, [ino] + blocks);
          return false, blocks;
        }
        TakesOneMore(b0, b, totalblocks, [ino] + blocks, found);
        assert [ino] + blocks + [found] == [ino] + (blocks + [found]);
        StoreInodeWord(1 + i, found);
        blocks := blocks + [found];
      }
      return true, blocks;
    }

    /** Marks the rest of the inode's slots as unused. */
    method ClearUnlisted(size: Word, numblocks: nat, ghost blocks: seq<nat>)
      requires bufferInode.Length == TFS_BLOCK_SIZE && |blocks| == numblocks <= TFS_BLOCKS_MAX
      requires InodeLists(size, blocks)
      modifies bufferInode
      ensures InodeLists(size, blocks)
      ensures numblocks < TFS_BLOCKS_MAX ==> WordAt(bufferInode[..], 1 + numblocks) == 0
    {
      var i := numblocks;
      while i < TFS_BLOCKS_MAX
        invariant numblocks <= i <= TFS_BLOCKS_MAX
        invariant InodeLists(size, blocks)
        invariant numblocks < i ==> WordAt(bufferInode[..], 1 + numblocks) == 0
      {
        StoreInodeWord(1 + i, 0);
        i := i + 1;
      }
    }

    /** Writes the zeroed allocation buffer to every block listed in the inode. */
    method WriteZeros(numblocks: nat, ghost blocks: seq<nat>)
      requires Buffers() && |blocks| == numblocks <= TFS_BLOCKS_MAX
      requires ReadInode(bufferInode[..]).blocks == blocks
      requires forall k :: 0 <= k < numblocks ==> blocks[k] < disk.Length
      modifies disk, bufferBat
      ensures forall k :: 0 <= k < disk.Length ==>
                disk[k] == if k in blocks then ZERO_BLOCK else old(disk[k])
    {
      hide ReadInode;
      InodeWords(bufferInode[..]);
      MemorySet(bufferBat, 0);
      assert bufferBat[..] == ZERO_BLOCK;
      for i := 0 to numblocks
        invariant bufferBat[..] == ZERO_BLOCK
        invariant forall k :: 0 <= k < disk.Length ==>
                    disk[k] == if k in blocks[..i] then ZERO_BLOCK else old(disk[k])
      {
        assert blocks[..i + 1] == blocks[..i] + [blocks[i]];
        WriteBlock(WordAt(bufferInode[..], 1 + i), bufferBat);
      }
      assert blocks[..numblocks] == blocks;
    }

    /** Finds the name or an unused entry: the last unused entry, if the name is new. */
    method FindUnused(filename: Name) returns (exists_: bool, index: int)
      requires bufferMd.Length == TFS_BLOCK_SIZE
      ensures exists_ <==> SlotOf(Directory(bufferMd[..]), filename) >= 0
      ensures !exists_ ==>
                if index == -1 then forall k :: 0 <= k < TFS_MAX_FILES ==> Used(Directory(bufferMd[..])[k])
                else 0 <= index < TFS_MAX_FILES && !Used(Directory(bufferMd[..])[index])
    {
      ghost var dir := Directory(bufferMd[..]);
      index := -1;
      for i := 0 to TFS_MAX_FILES
        invariant forall k :: 0 <= k < i ==> dir[k].name != filename
        invariant if index == -1 then forall k :: 0 <= k < i ==> Used(dir[k])
                  else 0 <= index < i && !Used(dir[index])
      {
        DirectoryAt(bufferMd[..], i);
        if Entry(bufferMd[..], i).name == filename {
          return true, index;
        }
        if Entry(bufferMd[..], i).inode == 0 {
          index := i;
        }
      }
      return false, index;
    }

    /** The part of create before its first disk write: fills the directory, allocation
        and inode buffers, or finds out that the file cannot be created. */
    method PrepareCreate(filename: Name, size: nat, numblocks: nat)
      returns (ok: bool, index: nat, ghost ino: nat, ghost blocks: seq<nat>)
      requires Buffers() && IsName(filename) && numblocks == NumBlocks(size) <= TFS_BLOCKS_MAX
      modifies bufferInode, bufferBat, bufferMd
      ensures ok <==>
                && SlotOf(Directory(disk[2]), filename) == -1
                && (exists i :: 0 <= i < TFS_MAX_FILES && !Used(Directory(disk[2])[i]))
                && numblocks + 1 <= Bitmap.FreeCount(Bitmap.Bits(disk[1]), totalblocks)
      ensures ok ==>
                && index < TFS_MAX_FILES && !Used(Directory(disk[2])[index])
                && |blocks| == numblocks
                && Directory(bufferMd[..]) == Directory(disk[2])[index := DirEntry(ino, filename)]
                && Takes(Bitmap.Bits(disk[1]), Bitmap.Bits(bufferBat[..]), totalblocks, [ino] + blocks)
                && InodeListed(bufferInode[..], size, blocks)
    {
      ghost var bits := Bitmap.Bits(disk[1]);
      index, ino, blocks := 0, 0, [];
      var room, unused := EnterName(filename);
      if !room {
        return false, index, ino, blocks;
      }
      index := unused;

      ReadBlock(TFS_ALLOCATION_BLOCK, bufferBat);
      ok, ino, blocks := Reserve(index, filename, size, numblocks, disk[2]);
    }

    /** Takes a block for the inode and numblocks blocks for the data. */
    method Reserve(index: nat, ghost filename: Name, size: nat, numblocks: nat, ghost md: Block)
      returns (ok: bool, ghost ino: nat, ghost blocks: seq<nat>)
      requires Buffers() && index < TFS_MAX_FILES && IsName(filename)
      requires numblocks == NumBlocks(size) <= TFS_BLOCKS_MAX
      requires bufferMd[20 * index + 4..20 * index + 4 + |filename|] == filename
      requires bufferMd[20 * index + 4 + |filename|] == 0
      requires SameOutside(md, bufferMd[..], index)
      modifies bufferInode, bufferBat, bufferMd
      ensures ok <==> numblocks + 1 <= Bitmap.FreeCount(Bitmap.Bits(old(bufferBat[..])), totalblocks)
      ensures ok ==>
                && |blocks| == numblocks
                && Directory(bufferMd[..]) == Directory(md)[index := DirEntry(ino, filename)]
                && Takes(Bitmap.Bits(old(bufferBat[..])), Bitmap.Bits(bufferBat[..]), totalblocks, [ino] + blocks)
                && InodeListed(bufferInode[..], size, blocks)
    {
      ghost var bits := Bitmap.Bits(bufferBat[..]);
      ino, blocks := 0, [];
      var first := TakeInode(index, filename, md);
      if first == -1 {
        Bitmap.FreeCountZero(bits, totalblocks);
        return false, ino, blocks;
      }
      ino := first;
      ok, blocks := AllocateBlocks(size, numblocks, first, bits);
      if ok {
        TakesCount(bits, Bitmap.Bits(bufferBat[..]), totalblocks, [ino] + blocks);
        ClearUnlisted(size, numblocks, blocks);
      }
    }

    /** Reads the directory and writes the name into an unused entry of the buffer. */
    method EnterName(filename: Name) returns (ok: bool, index: nat)
      requires Buffers() && IsName(filename)
      modifies bufferMd
      ensures ok <==>
                && SlotOf(Directory(disk[2]), filename) == -1
                && (exists i :: 0 <= i < TFS_MAX_FILES && !Used(Directory(disk[2])[i]))
      ensures ok ==>
                && index < TFS_MAX_FILES && !Used(Directory(disk[2])[index])
                && bufferMd[20 * index + 4..20 * index + 4 + |filename|] == filename
                && bufferMd[20 * index + 4 + |filename|] == 0
                && SameOutside(disk[2], bufferMd[..], index)
    {
      hide Padded, SlotOf, Directory;
      ReadBlock(TFS_DIRECTORY_BLOCK, bufferMd);
      var found, unused := FindUnused(filename);
      if found || unused == -1 {
        return false, 0;
      }
      index := unused;
      StringCopy(bufferMd, 20 * index + 4, filename, TFS_FILENAME_MAX);
      return true, index;
    }

    /** Takes the inode block and enters its number in the directory buffer. */
    method TakeInode(index: nat, ghost filename: Name, ghost md: Block) returns (ino: int)
      requires Buffers() && index < TFS_MAX_FILES && IsName(filename)
      requires SameOutside(md, bufferMd[..], index)
      requires bufferMd[20 * index + 4..20 * index + 4 + |filename|] == filename
      requires bufferMd[20 * index + 4 + |filename|] == 0
      modifies bufferBat, bufferMd
      ensures ino == -1 ==> Bitmap.Full(Bitmap.Bits(old(bufferBat[..])), totalblocks)
      ensures ino != -1 ==>
                && 0 <= ino < totalblocks
                && Takes(Bitmap.Bits(old(bufferBat[..])), Bitmap.Bits(bufferBat[..]), totalblocks, [ino])
                && Directory(bufferMd[..]) == Directory(md)[index := DirEntry(ino, filename)]
    {
      ghost var b0 := Bitmap.Bits(bufferBat[..]);
      ino := Bitmap.FindAndSet(bufferBat, totalblocks);
      StoreWord32(bufferMd, 5 * index, if ino == -1 then 0xffff_ffff else ino);
      if ino != -1 {
        EntryWritten(md, bufferMd[..], index, filename, ino);
        TakesNothing(b0, totalblocks);
        TakesOneMore(b0, b0, totalblocks, [], ino);
        assert [] + [ino] == [ino];
      }
    }

    /** create succeeds exactly if the bytes fit, and takes no block more than they need. */
    method Create(filename: Name, size: nat) returns (r: int)
      requires Valid() && IsName(filename)
      modifies disk, bufferInode, bufferBat, bufferMd
      ensures Valid()
      ensures r == VFS_OK <==> CanCreate(old(Image()), totalblocks, filename, size)
      ensures r == VFS_OK ==>
                && View(Image()) == View(old(Image()))[filename := Zeros(size)]
                && KeepsNames(old(Image()), Image(), filename)
                && Bitmap.FreeCount(Image().bits, totalblocks) + NumBlocks(size) + 1
                   == Bitmap.FreeCount(old(Image().bits), totalblocks)
                && filename in Names(Image()) && |NodeOf(Image(), Lookup(Image(), filename)).blocks| == NumBlocks(size)
                && var taken := Bitmap.FreeCount(old(Image().bits), totalblocks) - Bitmap.FreeCount(Image().bits, totalblocks);
                   && taken >= 1 && size <= TFS_BLOCK_SIZE * (taken - 1)
                   && (taken > 1 ==> TFS_BLOCK_SIZE * (taken - 2) < size)
      ensures r != VFS_OK ==> r == VFS_ERROR && disk[..] == old(disk[..])
      ensures disk[TFS_HEADER_BLOCK] == old(disk[TFS_HEADER_BLOCK])
    {
      hide NumBlocks, TfsImage.Valid, View, KeepsNames, Takes, InodeListed, SlotOf, Names, ReadInode, NodesUpTo, Bitmap.Bits;
      var numblocks := (size + TFS_BLOCK_SIZE - 1) / TFS_BLOCK_SIZE;
      CoverIs(size, Bitmap.FreeCount(Image().bits, totalblocks));
      if numblocks > TFS_BLOCKS_MAX {
        return VFS_ERROR;
      }
      var ok, index;
      ghost var ino, blocks;
      ghost var d := disk[..];
      NameFound(Decode(d), totalblocks, filename);
      ok, index, ino, blocks := PrepareCreate(filename, size, numblocks);
      if !ok {
        return VFS_ERROR;
      }
      ReadyToWrite(Decode(d), totalblocks, Bitmap.Bits(bufferBat[..]), bufferInode[..], size, ino, blocks);
      WriteCreated(index, numblocks, ino, blocks);
      Created(d, disk[..], totalblocks, index, DirEntry(ino, filename), Inode(size, blocks));
      return VFS_OK;
    }

    /** The disk writes of create: allocation block, directory, inode, then zeroed data. */
    method WriteCreated(index: nat, numblocks: nat, ghost ino: nat, ghost blocks: seq<nat>)
      requires Buffers() && index < TFS_MAX_FILES && |blocks| == numblocks <= TFS_BLOCKS_MAX
      requires Directory(bufferMd[..])[index].inode == ino
      requires ReadInode(bufferInode[..]).blocks == blocks
      requires 3 <= ino < totalblocks && ino !in blocks
      requires forall k :: 0 <= k < |blocks| ==> 3 <= blocks[k] < totalblocks
      modifies disk, bufferBat
      ensures disk[TFS_HEADER_BLOCK] == old(disk[TFS_HEADER_BLOCK])
      ensures disk[TFS_ALLOCATION_BLOCK] == old(bufferBat[..])
      ensures disk[TFS_DIRECTORY_BLOCK] == bufferMd[..]
      ensures disk[ino] == bufferInode[..]
      ensures forall k :: 3 <= k < disk.Length && k != ino ==>
                disk[k] == if k in blocks then ZERO_BLOCK else old(disk[k])
    {
      DirectoryAt(bufferMd[..], index);
      WriteBlock(TFS_ALLOCATION_BLOCK, bufferBat);
      WriteBlock(TFS_DIRECTORY_BLOCK, bufferMd);
      WriteBlock(Entry(bufferMd[..], index).inode, bufferInode);
      WriteZeros(numblocks, blocks);
    }

    method FreeBlock(block: nat, ghost b0: seq<bool>, ghost s: seq<nat>)
      requires bufferBat.Length == TFS_BLOCK_SIZE && block < TFS_MAX_BLOCKS
      requires Clears(b0, Bitmap.Bits(bufferBat[..]), s)
      modifies bufferBat
      ensures Clears(b0, Bitmap.Bits(bufferBat[..]), s + [block])
    {
      ClearsOneMore(b0, Bitmap.Bits(bufferBat[..]), s, block);
      Bitmap.Set(bufferBat, block, 0);
    }

    /** Clears the allocation bits of the inode block and of every listed block. */
    method FreeBlocks(ino: nat)
      requires Buffers() && ino < TFS_MAX_BLOCKS
      requires forall b :: b in ReadInode(bufferInode[..]).blocks ==> b < TFS_MAX_BLOCKS
      modifies bufferBat
      ensures Clears(Bitmap.Bits(old(bufferBat[..])), Bitmap.Bits(bufferBat[..]),
                     [ino] + ReadInode(bufferInode[..]).blocks)
    {
      hide Bitmap.Bits, ReadInode, Clears;
      ghost var b0 := Bitmap.Bits(bufferBat[..]);
      ghost var blocks := ReadInode(bufferInode[..]).blocks;
      ClearsNone(b0);
      InodeWords(bufferInode[..]);
      FreeBlock(ino, b0, []);
      var i := 0;
      assert [] + [ino] == [ino] + blocks[..0];
      while i < TFS_BLOCKS_MAX && WordAt(bufferInode[..], 1 + i) != 0
        invariant 0 <= i <= |blocks|
        invariant Clears(b0, Bitmap.Bits(bufferBat[..]), [ino] + blocks[..i])
      {
        assert blocks[i] in blocks;
        FreeBlock(WordAt(bufferInode[..], 1 + i), b0, [ino] + blocks[..i]);
        assert [ino] + blocks[..i] + [blocks[i]] == [ino] + blocks[..i + 1];
        i := i + 1;
      }
      EndOfList(bufferInode[..], i);
      assert blocks[..i] == blocks;
    }

    /** Reads the inode of an entry and frees the blocks of its file. */
    method FreeFile(index: nat)
      requires Buffers() && index < TFS_MAX_FILES
      requires Directory(bufferMd[..])[index].inode < totalblocks
      requires InodeOk(ReadInode(disk[Directory(bufferMd[..])[index].inode]), totalblocks)
      modifies bufferInode, bufferBat
      ensures var ino := Directory(bufferMd[..])[index].inode;
              Clears(Bitmap.Bits(old(bufferBat[..])), Bitmap.Bits(bufferBat[..]), [ino] + ReadInode(disk[ino]).blocks)
    {
      DirectoryAt(bufferMd[..], index);
      var ino := Entry(bufferMd[..], index).inode;
      ReadBlock(ino, bufferInode);
      FreeBlocks(ino);
    }

    method EraseEntry(index: nat)
      requires Buffers() && index < TFS_MAX_FILES
      modifies bufferMd
      ensures Directory(bufferMd[..]) == Directory(old(bufferMd[..]))[index := DirEntry(0, [])]
    {
      ghost var md := bufferMd[..];
      var unused: Word := 0;
      StoreWord32(bufferMd, 5 * index, unused);
      ghost var md1 := bufferMd[..];
      bufferMd[20 * index + 4] := 0;
      assert bufferMd[..] == md1[20 * index + 4 := 0];
      EntryErased(md, md1, index);
    }

    method Remove(filename: Name) returns (r: int)
      requires Valid() && IsName(filename)
      modifies disk, bufferInode, bufferBat, bufferMd
      ensures Valid()
      ensures r == VFS_OK <==> filename in Names(old(Image()))
      ensures r == VFS_OK ==>
                && View(Image()) == View(old(Image())) - {filename}
                && KeepsNames(old(Image()), Image(), filename)
                && Bitmap.FreeCount(Image().bits, totalblocks)
                   == Bitmap.FreeCount(old(Image().bits), totalblocks)
                      + 1 + |NodeOf(old(Image()), Lookup(old(Image()), filename)).blocks|
      ensures r != VFS_OK ==> r == VFS_NOT_FOUND && disk[..] == old(disk[..])
      ensures disk[TFS_HEADER_BLOCK] == old(disk[TFS_HEADER_BLOCK])
    {
      ghost var d := disk[..];
      ReadBlock(TFS_DIRECTORY_BLOCK, bufferMd);
      var index := FindName(filename);
      NameFound(Decode(d), totalblocks, filename);
      if index == -1 {
        return VFS_NOT_FOUND;
      }
      SlotIsSound(d, totalblocks, index);
      ReadBlock(TFS_ALLOCATION_BLOCK, bufferBat);
      FreeFile(index);
      EraseEntry(index);
      WriteBlock(TFS_ALLOCATION_BLOCK, bufferBat);
      WriteBlock(TFS_DIRECTORY_BLOCK, bufferMd);
      Removed(d, disk[..], totalblocks, index);
      return VFS_OK;
    }

    /** Copies n bytes from position at of the block in slot b1 of the inode. */
    method ReadChunk(b1: nat, at: nat, n: nat, buffer: array<Byte>, to: nat)
      requires Buffers() && buffer !in {bufferInode, bufferBat, bufferMd}
      requires b1 < |ReadInode(bufferInode[..]).blocks| && ReadInode(bufferInode[..]).blocks[b1] < disk.Length
      requires at + n <= TFS_BLOCK_SIZE && to + n <= buffer.Length
      modifies bufferBat, buffer
      ensures forall k :: 0 <= k < buffer.Length ==>
                buffer[k] == if to <= k < to + n
                             then FileByte(disk[..], ReadInode(bufferInode[..]), TFS_BLOCK_SIZE * b1 + at + (k - to))
                             else old(buffer[k])
    {
      InodeWords(bufferInode[..]);
      ReadBlock(WordAt(bufferInode[..], 1 + b1), bufferBat);
      MemCopy(n, buffer, to, bufferBat, at);
    }

    /** Reads the blocks after the first one, whole but for the last. */
    method ReadRest(ghost n: Inode, first: nat, b2: nat, size: nat, done: nat, ghost offset: nat, buffer: array<Byte>)
      returns (read: nat)
      requires Buffers() && buffer !in {bufferInode, bufferBat, bufferMd} && size <= buffer.Length
      requires n == ReadInode(bufferInode[..]) && InodeOk(n, totalblocks) && offset + size <= n.filesize
      requires first <= b2 + 1 && done <= size
      requires TFS_BLOCK_SIZE * b2 <= offset + size - 1 < TFS_BLOCK_SIZE * b2 + TFS_BLOCK_SIZE
      requires if first <= b2 then offset + done == TFS_BLOCK_SIZE * first else done == size
      modifies bufferBat, buffer
      ensures read == size
      ensures forall k :: 0 <= k < buffer.Length ==>
                buffer[k] == if done <= k < size then FileByte(disk[..], n, offset + k) else old(buffer[k])
    {
      hide InodeOk, FileByte, ReadInode;
      var b1 := first;
      read := done;
      while b1 <= b2
        invariant b1 <= b2 + 1 && done <= read <= size
        invariant if b1 <= b2 then offset + read == TFS_BLOCK_SIZE * b1 else read == size
        invariant forall k :: 0 <= k < buffer.Length ==>
                    buffer[k] == if done <= k < read then FileByte(disk[..], n, offset + k) else old(buffer[k])
      {
        ListedBlock(n, totalblocks, b1);
        if b1 == b2 {
          ReadChunk(b1, 0, size - read, buffer, read);
          read := read + (size - read);
        } else {
          ReadChunk(b1, 0, TFS_BLOCK_SIZE, buffer, read);
          read := read + TFS_BLOCK_SIZE;
        }
        b1 := b1 + 1;
      }
    }

    /** Reads size bytes that are known to lie inside the file. */
    method ReadSpan(ghost n: Inode, size: nat, offset: nat, buffer: array<Byte>) returns (read: nat)
      requires Buffers() && buffer !in {bufferInode, bufferBat, bufferMd} && 0 < size <= buffer.Length
      requires n == ReadInode(bufferInode[..]) && InodeOk(n, totalblocks) && offset + size <= n.filesize
      modifies bufferBat, buffer
      ensures read == size
      ensures forall k :: 0 <= k < buffer.Length ==>
                buffer[k] == if k < size then FileByte(disk[..], n, offset + k) else old(buffer[k])
    {
      var b1 := offset / TFS_BLOCK_SIZE;
      var b2 := (offset + size - 1) / TFS_BLOCK_SIZE;
      read := Min(TFS_BLOCK_SIZE - offset % TFS_BLOCK_SIZE, size);
      SpanSplit(offset, size);
      ReadChunk(b1, offset % TFS_BLOCK_SIZE, read, buffer, 0);
      read := ReadRest(n, b1 + 1, b2, size, read, offset, buffer);
    }

    /** Reads at most bufsize bytes of the file from the offset on. */
    method Read(fileid: int, buffer: array<Byte>, bufsize: nat, offset: int) returns (r: int)
      requires Valid() && (2 <= fileid <= totalblocks ==> Live(Image(), fileid))
      requires buffer !in {bufferInode, bufferBat, bufferMd} && bufsize <= buffer.Length
      modifies bufferInode, bufferBat, buffer
      ensures 2 <= fileid <= totalblocks && 0 <= offset <= |Content(fileid)| ==>
                && r == Min(bufsize, |Content(fileid)| - offset)
                && buffer[..r] == Content(fileid)[offset..offset + r]
                && buffer[r..] == old(buffer[r..])
      ensures !(2 <= fileid <= totalblocks && 0 <= offset <= |Content(fileid)|) ==>
                r == VFS_ERROR && buffer[..] == old(buffer[..])
    {
      if fileid < 2 || fileid > totalblocks {
        return VFS_ERROR;
      }
      LiveIsSound(disk[..], totalblocks, fileid);
      ReadBlock(fileid, bufferInode);
      ghost var n := ReadInode(bufferInode[..]);
      var filesize := WordAt(bufferInode[..], 0);
      if offset < 0 || offset > filesize {
        return VFS_ERROR;
      }
      var size := Min(bufsize, filesize - offset);
      if size == 0 {
        return 0;
      }
      r := ReadSpan(n, size, offset, buffer);
      SliceRead(disk[..], n, offset, buffer[..r]);
    }

    /** Writes n bytes at position at of the block in slot b1 of the inode. A block that is
        not written whole is read first. */
    method WriteChunk(ghost n: Inode, b1: nat, at: nat, len: nat, buffer: array<Byte>, from: nat)
      requires Buffers() && buffer !in {bufferInode, bufferBat, bufferMd}
      requires n == ReadInode(bufferInode[..]) && InodeOk(n, totalblocks) && NoDuplicates(n.blocks)
      requires b1 < |n.blocks|
      requires at + len <= TFS_BLOCK_SIZE && from + len <= buffer.Length
      modifies disk, bufferBat
      ensures Patched(old(disk[..]), disk[..], n, TFS_BLOCK_SIZE * b1 + at, buffer[from..from + len])
    {
      InodeWords(bufferInode[..]);
      assert WordAt(bufferInode[..], 1 + b1) == n.blocks[b1] < totalblocks;
      if len < TFS_BLOCK_SIZE {
        ReadBlock(WordAt(bufferInode[..], 1 + b1), bufferBat);
      }
      MemCopy(len, bufferBat, at, buffer, from);
      ghost var data := buffer[from..from + len];
      assert forall k :: at <= k < at + len ==> bufferBat[k] == data[k - at];
      assert forall k :: 0 <= k < TFS_BLOCK_SIZE && !(at <= k < at + len) ==> bufferBat[k] == disk[n.blocks[b1]][k];
      PatchedByStore(disk[..], n, b1, at, data, bufferBat[..]);
      WriteBlock(WordAt(bufferInode[..], 1 + b1), bufferBat);
    }

    /** One more block of a longer write, which started from the image d at the offset. */
    method WriteNext(ghost d: Image, ghost n: Inode, ghost offset: nat, b1: nat, len: nat,
                     buffer: array<Byte>, from: nat)
      returns (written: nat)
      requires Buffers() && buffer !in {bufferInode, bufferBat, bufferMd}
      requires n == ReadInode(bufferInode[..]) && InodeOk(n, totalblocks) && NoDuplicates(n.blocks)
      requires b1 < |n.blocks| && len <= TFS_BLOCK_SIZE && from + len <= buffer.Length
      requires TFS_BLOCK_SIZE * b1 == offset + from
      requires Patched(d, disk[..], n, offset, buffer[..from])
      modifies disk, bufferBat
      ensures written == from + len
      ensures Patched(d, disk[..], n, offset, buffer[..written])
    {
      ghost var d1, s := disk[..], buffer[..from];
      written := from + len;
      WriteChunk(n, b1, 0, len, buffer, from);
      ghost var t := buffer[from..written];
      assert TFS_BLOCK_SIZE * b1 + 0 == offset + |s|;
      assert buffer[..written] == s + t;
      PatchedTwice(d, d1, disk[..], n, offset, s, t);
    }

    /** Writes the blocks after the first one, whole but for the last. */
    method WriteRest(ghost d: Image, ghost n: Inode, first: nat, b2: nat, size: nat, done: nat,
                     ghost offset: nat, buffer: array<Byte>)
      returns (written: nat)
      requires Buffers() && buffer !in {bufferInode, bufferBat, bufferMd} && size <= buffer.Length
      requires n == ReadInode(bufferInode[..]) && InodeOk(n, totalblocks) && NoDuplicates(n.blocks)
      requires offset + size <= n.filesize
      requires first <= b2 + 1 && done <= size
      requires TFS_BLOCK_SIZE * b2 <= offset + size - 1 < TFS_BLOCK_SIZE * b2 + TFS_BLOCK_SIZE
      requires if first <= b2 then offset + done == TFS_BLOCK_SIZE * first else done == size
      requires Patched(d, disk[..], n, offset, buffer[..done])
      modifies disk, bufferBat
      ensures written == size
      ensures Patched(d, disk[..], n, offset, buffer[..written])
    {
      var b1 := first;
      written := done;
      while b1 <= b2
        invariant b1 <= b2 + 1 && done <= written <= size
        invariant if b1 <= b2 then offset + written == TFS_BLOCK_SIZE * b1 else written == size
        invariant Patched(d, disk[..], n, offset, buffer[..written])
      {
        if b1 == b2 {
          written := WriteNext(d, n, offset, b1, size - written, buffer, written);
        } else {
          written := WriteNext(d, n, offset, b1, TFS_BLOCK_SIZE, buffer, written);
        }
        b1 := b1 + 1;
      }
    }

    /** Writes size bytes that are known to lie inside the file. */
    method WriteSpan(ghost n: Inode, size: nat, offset: nat, buffer: array<Byte>) returns (written: nat)
      requires Buffers() && buffer !in {bufferInode, bufferBat, bufferMd} && 0 < size <= buffer.Length
      requires n == ReadInode(bufferInode[..]) && InodeOk(n, totalblocks) && NoDuplicates(n.blocks)
      requires offset + size <= n.filesize
      modifies disk, bufferBat
      ensures written == size
      ensures Patched(old(disk[..]), disk[..], n, offset, buffer[..written])
    {
      ghost var d := disk[..];
      var b1 := offset / TFS_BLOCK_SIZE;
      var b2 := (offset + size - 1) / TFS_BLOCK_SIZE;
      written := Min(TFS_BLOCK_SIZE - offset % TFS_BLOCK_SIZE, size);
      SpanSplit(offset, size);
      WriteChunk(n, b1, offset % TFS_BLOCK_SIZE, written, buffer, 0);
      assert buffer[0..written] == buffer[..written];
      written := WriteRest(d, n, b1 + 1, b2, size, written, offset, buffer);
    }

    /** Writes at most datasize bytes of the file from the offset on. */
    method Write(fileid: int, buffer: array<Byte>, datasize: nat, offset: int) returns (r: int)
      requires Valid() && (2 <= fileid <= totalblocks ==> Live(Image(), fileid))
      requires buffer !in {bufferInode, bufferBat, bufferMd} && datasize <= buffer.Length
      modifies disk, bufferInode, bufferBat
      ensures Valid()
      ensures Image().dir == old(Image().dir) && Image().bits == old(Image().bits)
      ensures disk[TFS_HEADER_BLOCK] == old(disk[TFS_HEADER_BLOCK])
      ensures forall i :: 0 <= i < TFS_MAX_FILES && Used(Image().dir[i]) ==>
                NodeOf(Image(), Image().dir[i]) == NodeOf(old(Image()), Image().dir[i])
      ensures 2 <= fileid <= totalblocks && 0 <= offset <= |old(Content(fileid))| ==>
                && r == Min(datasize, |old(Content(fileid))| - offset)
                && Content(fileid) == Splice(old(Content(fileid)), offset, buffer[..r])
                && (forall name :: name in Names(Image()) ==>
                      View(Image())[name] == if Lookup(Image(), name).inode == fileid then Content(fileid)
                                             else View(old(Image()))[name])
      ensures !(2 <= fileid <= totalblocks && 0 <= offset <= |old(Content(fileid))|) ==>
                r == VFS_ERROR && disk[..] == old(disk[..])
    {
      ghost var d := disk[..];
      if fileid < 2 || fileid > totalblocks {
        return VFS_ERROR;
      }
      LiveIsSound(d, totalblocks, fileid);
      ReadBlock(fileid, bufferInode);
      ghost var n := ReadInode(bufferInode[..]);
      var filesize := WordAt(bufferInode[..], 0);
      if offset < 0 || offset > filesize {
        return VFS_ERROR;
      }
      var size := Min(datasize, filesize - offset);
      if size == 0 {
        Written(d, d, totalblocks, fileid, offset, []);
        return 0;
      }
      r := WriteSpan(n, size, offset, buffer);
      Written(d, disk[..], totalblocks, fileid, offset, buffer[..r]);
    }
  }

  /** The inode lists a block for every part of the file. */
  lemma ListedBlock(n: Inode, total: nat, b: nat)
    requires InodeOk(n, total) && TFS_BLOCK_SIZE * b < n.filesize
    ensures b < |n.blocks| && n.blocks[b] < total
  {
    assert b < |n.blocks|;
  }

  /** tfs_init: sets up the driver if the block size is right, a semaphore and a page can be
      had and the header block holds the magic number; otherwise it gives back what it took. */
  method Init(disk: array<Block>, blockSize: nat, semaphoreFree: bool, pageFree: bool)
    returns (tfs: Tfs?, holdsSemaphore: bool, holdsPage: bool)
    requires 3 <= disk.Length
    ensures tfs != null <==>
              && blockSize == TFS_BLOCK_SIZE && semaphoreFree && pageFree
              && WordAt(disk[TFS_HEADER_BLOCK], 0) == TFS_MAGIC
    ensures tfs != null <==> holdsSemaphore
    ensures tfs != null <==> holdsPage
    ensures tfs != null ==>
              && tfs.Buffers() && tfs.disk == disk
              && fresh(tfs) && fresh(tfs.bufferInode) && fresh(tfs.bufferBat) && fresh(tfs.bufferMd)
  {
    tfs, holdsSemaphore, holdsPage := null, false, false;
    if blockSize != TFS_BLOCK_SIZE {
      return;
    }
    if !semaphoreFree {
      return;
    }
    holdsSemaphore := true;
    if !pageFree {
      holdsSemaphore := false;
      return;
    }
    holdsPage := true;
    if WordAt(disk[TFS_HEADER_BLOCK], 0) != TFS_MAGIC {
      holdsSemaphore, holdsPage := false, false;
      return;
    }
    tfs := new Tfs(disk);
  }

  /** What the writes of create add up to. */
  lemma Created(d: Image, d': Image, total: nat, slot: nat, e: DirEntry, n: Inode)
    requires |d| >= 3 && TfsImage.Valid(Decode(d), total) && |d'| == |d|
    requires slot < TFS_MAX_FILES && !Used(Decode(d).dir[slot])
    requires IsName(e.name) && SlotOf(Decode(d).dir, e.name) == -1
    requires Directory(d'[2]) == Directory(d[2])[slot := e]
    requires Takes(Decode(d).bits, Bitmap.Bits(d'[1]), total, [e.inode] + n.blocks)
    requires e.inode < |d| && ReadInode(d'[e.inode]) == n
    requires n.filesize <= TFS_BLOCK_SIZE * |n.blocks|
    requires forall k :: 3 <= k < |d| && k != e.inode ==> d'[k] == if k in n.blocks then ZERO_BLOCK else d[k]
    ensures TfsImage.Valid(Decode(d'), total)
    ensures View(Decode(d')) == View(Decode(d))[e.name := Zeros(n.filesize)]
    ensures KeepsNames(Decode(d), Decode(d'), e.name)
    ensures Bitmap.FreeCount(Decode(d').bits, total) + |n.blocks| + 1 == Bitmap.FreeCount(Decode(d).bits, total)
    ensures e.name in Names(Decode(d')) && NodeOf(Decode(d'), Lookup(Decode(d'), e.name)) == n
  {
    NodeDecoded(d', e);
    Added(d, d', total, slot, e, n);
    TakenBlocks(Decode(d), total, Decode(d').bits, e.inode, n.blocks);
    ZeroFile(d', n);
  }
}
