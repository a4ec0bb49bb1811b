/** util/tfstool.c: the host tool that writes the same disk format. Words are stored in
    the host's byte order and go through htonl and ntohl; the image file is an array of
    blocks. littleEndian is the byte order of the host. */
module TfsTool {
  import opened Words
  import opened Memory
  import opened DiskFormat
  import opened TfsImage
  import opened TfsEffects
  import opened Allocation
  import opened ImageDecoding
  import opened TfsOperations
  import Bitmap
  import TfsDriver

  /** The value of the i-th word of a byte memory on the host. */
  function HostWord(s: seq<Byte>, i: nat, littleEndian: bool): Word
    requires 4 * i + 4 <= |s|
  {
    if littleEndian then Join(s[4 * i + 3], s[4 * i + 2], s[4 * i + 1], s[4 * i])
    else Join(s[4 * i], s[4 * i + 1], s[4 * i + 2], s[4 * i + 3])
  }

  function HostBytes(w: Word, littleEndian: bool): (r: seq<Byte>)
    ensures |r| == 4
  {
    var b := Bytes(w);
    if littleEndian then [b[3], b[2], b[1], b[0]] else b
  }

  /** ntohl and htonl: the identity on a big-endian host, a byte swap on a little-endian one. */
  function Swap(w: Word, littleEndian: bool): Word {
    var b := Bytes(w);
    if littleEndian then Join(b[3], b[2], b[1], b[0]) else w
  }

  /** Reading a word through ntohl gives its big-endian value on either host. */
  lemma NetworkLoad(s: seq<Byte>, i: nat, littleEndian: bool)
    requires 4 * i + 4 <= |s|
    ensures Swap(HostWord(s, i, littleEndian), littleEndian) == WordAt(s, i)
  {
    JoinSplit(s[4 * i + 3], s[4 * i + 2], s[4 * i + 1], s[4 * i]);
  }

  /** Storing a word through htonl leaves its big-endian bytes on either host. */
  lemma NetworkStore(w: Word, littleEndian: bool)
    ensures HostBytes(Swap(w, littleEndian), littleEndian) == Bytes(w)
  {
    var b := Bytes(w);
    JoinSplit(b[3], b[2], b[1], b[0]);
  }

  method LoadNetworkWord(mem: array<Byte>, i: nat, littleEndian: bool) returns (w: Word)
    requires 4 * i + 4 <= mem.Length
    ensures w == WordAt(mem[..], i)
  {
    NetworkLoad(mem[..], i, littleEndian);
    w := Swap(HostWord(mem[..], i, littleEndian), littleEndian);
  }

  method StoreNetworkWord(mem: array<Byte>, i: nat, w: Word, littleEndian: bool)
    requires 4 * i + 4 <= mem.Length
    modifies mem
    ensures WordAt(mem[..], i) == w
    ensures mem[4 * i..4 * i + 4] == Bytes(w)
    ensures forall k :: 0 <= k < mem.Length && k / 4 != i ==> mem[k] == old(mem[k])
  {
    NetworkStore(w, littleEndian);
    SplitJoin(w);
    var b := HostBytes(Swap(w, littleEndian), littleEndian);
    mem[4 * i], mem[4 * i + 1], mem[4 * i + 2], mem[4 * i + 3] := b[0], b[1], b[2], b[3];
  }

  method BitmapGet(bitmap: array<Byte>, pos: nat, littleEndian: bool) returns (v: int)
    requires Bitmap.Covers(bitmap[..], pos + 1)
    ensures v == BitValue(Bitmap.Bits(bitmap[..])[pos])
  {
    var i := pos / 32;
    var j := pos % 32;
    var w := LoadNetworkWord(bitmap, i, littleEndian);
    v := BitValue(Bit(w, j));
    Bitmap.WordBits(bitmap[..], i, j);
  }

  method BitmapSet(bitmap: array<Byte>, pos: nat, value: int, littleEndian: bool)
    requires Bitmap.Covers(bitmap[..], pos + 1)
    requires value == 0 || value == 1
    modifies bitmap
    ensures Bitmap.Bits(bitmap[..]) == Bitmap.Bits(old(bitmap[..]))[pos := value == 1]
  {
    var i := pos / 32;
    var j := pos % 32;
    ghost var before := bitmap[..];
    var w := LoadNetworkWord(bitmap, i, littleEndian);
    StoreNetworkWord(bitmap, i, WithBit(w, j, value == 1), littleEndian);
    Bitmap.StoredBit(before, bitmap[..], pos, value == 1);
  }

  /** The tool's search, bit by bit from the start. */
  method BitmapFindAndSet(bitmap: array<Byte>, l: nat, littleEndian: bool) returns (r: int)
    requires Bitmap.Covers(bitmap[..], l)
    modifies bitmap
    ensures Bitmap.FindsFirstZero(Bitmap.Bits(old(bitmap[..])), l, r, Bitmap.Bits(bitmap[..]))
  {
    var i := 0;
    while i < l
      invariant 0 <= i <= l
      invariant bitmap[..] == old(bitmap[..]) && Bitmap.Full(Bitmap.Bits(bitmap[..]), i)
    {
      var v := BitmapGet(bitmap, i, littleEndian);
      if v == 0 {
        BitmapSet(bitmap, i, 1, littleEndian);
        return i;
      }
      i := i + 1;
    }
    return -1;
  }

  /** The kernel's word-skipping search and the tool's search give the same result and
      leave the same bytes. */
  method SearchesAgree(kernel: array<Byte>, tool: array<Byte>, l: nat, littleEndian: bool)
    returns (r1: int, r2: int)
    requires kernel != tool && kernel[..] == tool[..] && Bitmap.Covers(kernel[..], l)
    modifies kernel, tool
    ensures r1 == r2 && kernel[..] == tool[..]
  {
    ghost var b := Bitmap.Bits(kernel[..]);
    r1 := Bitmap.FindAndSet(kernel, l);
    r2 := BitmapFindAndSet(tool, l, littleEndian);
    Bitmap.FindsFirstZeroIsUnique(b, l, r1, Bitmap.Bits(kernel[..]), r2, Bitmap.Bits(tool[..]));
    Bitmap.BitsDetermineBytes(kernel[..], tool[..]);
  }

  /** The data blocks the tool uses for a file: the loop that stores the data only notices
      the end of the source when a read comes up short, so a source that fills its last
      block exactly gets one block more, unless the inode is full. */
  function ToolBlocks(size: nat): nat {
    if size == TFS_MAX_FILESIZE then TFS_BLOCKS_MAX else size / TFS_BLOCK_SIZE + 1
  }

  /** The blocks are the fewest that leave a byte to spare, or as many as there can be. */
  lemma ToolBlocksSpare(size: nat, n: nat)
    requires size <= TFS_MAX_FILESIZE
    ensures size < TFS_MAX_FILESIZE ==> (size < TFS_BLOCK_SIZE * n <==> ToolBlocks(size) <= n)
    ensures size == TFS_MAX_FILESIZE ==> TFS_BLOCK_SIZE * ToolBlocks(size) == size
  {
  }

  /** When the tool can store a source of the given size. */
  ghost predicate CanStore(f: Fs, total: nat, name: Name, size: nat)
    requires total <= |f.bits|
  {
    && SlotOf(f.dir, name) == -1
    && (exists i :: 0 <= i < |f.dir| && !Used(f.dir[i]))
    && size <= TFS_MAX_FILESIZE
    && ToolBlocks(size) + 1 <= Bitmap.FreeCount(f.bits, total)
  }

  method ReadBlock(disk: array<Block>, data: array<Byte>, block: nat)
    requires block < disk.Length && data.Length == TFS_BLOCK_SIZE
    modifies data
    ensures data[..] == disk[block]
  {
    var b := disk[block];
    forall k | 0 <= k < TFS_BLOCK_SIZE {
      data[k] := b[k];
    }
  }

  method WriteBlock(disk: array<Block>, data: array<Byte>, block: nat)
    requires block < disk.Length && data.Length == TFS_BLOCK_SIZE
    modifies disk
    ensures disk[..] == old(disk[..])[block := data[..]]
  {
    disk[block] := data[..];
  }

  method NewBlock() returns (data: array<Byte>)
    ensures fresh(data) && data.Length == TFS_BLOCK_SIZE && data[..] == ZERO_BLOCK
  {
    data := new Byte[TFS_BLOCK_SIZE](_ => 0);
    assert data[..] == ZERO_BLOCK;
  }

  /** The first unused entry, unless the name is already there. */
  method FindEntry(masterDir: array<Byte>, target: Name) returns (found: bool, index: int)
    requires masterDir.Length == TFS_BLOCK_SIZE
    ensures found <==> SlotOf(Directory(masterDir[..]), target) >= 0
    ensures !found ==>
              if index == -1 then forall k :: 0 <= k < TFS_MAX_FILES ==> Used(Directory(masterDir[..])[k])
              else 0 <= index < TFS_MAX_FILES && !Used(Directory(masterDir[..])[index])
  {
    ghost var dir := Directory(masterDir[..]);
    index := -1;
    for i := 0 to TFS_MAX_FILES
      invariant forall k :: 0 <= k < i ==> dir[k].name != target
      invariant if index == -1 then forall k :: 0 <= k < i ==> Used(dir[k])
                else 0 <= index < i && !Used(dir[index])
    {
      DirectoryAt(masterDir[..], i);
      if Entry(masterDir[..], i).inode == 0 && index == -1 {
        index := i;
      }
      if Entry(masterDir[..], i).name == target {
        return true, index;
      }
    }
    return false, index;
  }

  /** The first size bytes of source are stored in the blocks. */
  ghost predicate Stored(d: Image, blocks: seq<nat>, source: seq<Byte>, size: nat) {
    && size <= |source| && size <= TFS_BLOCK_SIZE * |blocks|
    && forall k: nat :: k < size ==> FileByte(d, Inode(size, blocks), k) == source[k]
  }

  lemma StoredOneMore(d: Image, blocks: seq<nat>, source: seq<Byte>, size: nat, bnum: nat, c: Block, n: nat)
    requires Stored(d, blocks, source, size) && size == TFS_BLOCK_SIZE * |blocks|
    requires bnum < |d| && bnum !in blocks && n <= TFS_BLOCK_SIZE && size + n <= |source|
    requires c[..n] == source[size..size + n]
    ensures Stored(d[bnum := c], blocks + [bnum], source, size + n)
  {
    var d' := d[bnum := c];
    var more := blocks + [bnum];
    forall k: nat | k < size + n ensures FileByte(d', Inode(size + n, more), k) == source[k] {
      var j := k / TFS_BLOCK_SIZE;
      if k < size {
        assert FileByte(d, Inode(size, blocks), k) == source[k];
        assert more[j] == blocks[j] && blocks[j] in blocks;
      } else {
        assert j == |blocks| && k % TFS_BLOCK_SIZE == k - size;
        assert c[k - size] == c[..n][k - size];
      }
    }
  }

  /** fread of at most one block from position pos of the source; the rest of the buffer
      keeps its bytes. */
  method ReadSource(source: seq<Byte>, pos: nat, data: array<Byte>) returns (n: nat)
    requires pos <= |source| && data.Length == TFS_BLOCK_SIZE
    modifies data
    ensures n == Min(TFS_BLOCK_SIZE, |source| - pos)
    ensures data[..n] == source[pos..pos + n]
  {
    n := Min(TFS_BLOCK_SIZE, |source| - pos);
    for k := 0 to n
      invariant data[..k] == source[pos..pos + k]
    {
      data[k] := source[pos + k];
    }
  }

  /** The state of the copy: these blocks were taken, written and listed, nothing else. */
  ghost predicate Copying(d0: Image, d: Image, b0: seq<bool>, bat: Block, inode: Block, ino: nat,
                          blocks: seq<nat>, source: seq<Byte>, filesize: nat)
  {
    && |d| == |d0| <= TFS_MAX_BLOCKS == |b0|
    && Takes(b0, Bitmap.Bits(bat), |d0|, [ino] + blocks)
    && (forall k :: 0 <= k < |d| && k !in blocks ==> d[k] == d0[k])
    && InodeListed(inode, 0, blocks) && UnlistedZero(inode, |blocks|)
    && Stored(d, blocks, source, filesize)
  }

  /** The slots from i on are zero. */
  ghost predicate UnlistedZero(inode: Block, i: nat) {
    forall j :: 1 + i <= j <= TFS_BLOCKS_MAX ==> WordAt(inode, j) == 0
  }

  lemma WordIsZero(s: seq<Byte>, i: nat)
    requires 4 * i + 4 <= |s|
    requires forall k :: 0 <= k < |s| ==> s[k] == 0
    ensures WordAt(s, i) == 0
  {
    assert s[4 * i] == 0 && s[4 * i + 1] == 0 && s[4 * i + 2] == 0 && s[4 * i + 3] == 0;
  }

  lemma ZeroInode(inode: Block)
    requires forall j: nat :: j <= TFS_BLOCKS_MAX ==> WordAt(inode, j) == 0
    ensures InodeListed(inode, 0, []) && UnlistedZero(inode, 0)
  {
  }

  lemma NotTaken(b0: seq<bool>, b: seq<bool>, total: nat, ino: nat, blocks: seq<nat>, x: nat)
    requires total <= |b0| && Takes(b0, b, total, [ino] + blocks)
    requires x < total && !b[x]
    ensures x !in blocks
  {
    assert x in blocks ==> x in [ino] + blocks;
  }

  lemma ListedOneMore(inode: Block, inode': Block, blocks: seq<nat>, bnum: nat)
    requires |blocks| < TFS_BLOCKS_MAX
    requires InodeListed(inode, 0, blocks) && UnlistedZero(inode, |blocks|)
    requires WordAt(inode', 1 + |blocks|) == bnum
    requires forall k: nat :: k <= TFS_BLOCKS_MAX && k != 1 + |blocks| ==> WordAt(inode', k) == WordAt(inode, k)
    ensures InodeListed(inode', 0, blocks + [bnum]) && UnlistedZero(inode', |blocks| + 1)
  {
  }

  method StoreInodeWord(inode: array<Byte>, i: nat, w: Word, littleEndian: bool)
    requires inode.Length == TFS_BLOCK_SIZE && i <= TFS_BLOCKS_MAX
    modifies inode
    ensures WordAt(inode[..], i) == w
    ensures forall k: nat :: k <= TFS_BLOCKS_MAX && k != i ==> WordAt(inode[..], k) == WordAt(old(inode[..]), k)
  {
    ghost var before := inode[..];
    StoreNetworkWord(inode, i, w, littleEndian);
    assert inode[..] == StoreWord(before, i, w);
    StoredWord(before, i, w);
  }

  lemma CopiedOneMore(d0: Image, d: Image, b0: seq<bool>, bat: Block, inode: Block, ino: nat, blocks: seq<nat>,
                      source: seq<Byte>, filesize: nat, bat': Block, inode': Block, bnum: nat, c: Block, n: nat)
    requires Copying(d0, d, b0, bat, inode, ino, blocks, source, filesize)
    requires |blocks| < TFS_BLOCKS_MAX && filesize == TFS_BLOCK_SIZE * |blocks|
    requires bnum < |d| && !Bitmap.Bits(bat)[bnum] && Bitmap.Bits(bat') == Bitmap.Bits(bat)[bnum := true]
    requires n <= TFS_BLOCK_SIZE && filesize + n <= |source| && c[..n] == source[filesize..filesize + n]
    requires WordAt(inode', 1 + |blocks|) == bnum
    requires forall k: nat :: k <= TFS_BLOCKS_MAX && k != 1 + |blocks| ==> WordAt(inode', k) == WordAt(inode, k)
    ensures Copying(d0, d[bnum := c], b0, bat', inode', ino, blocks + [bnum], source, filesize + n)
  {
    TakesOneMore(b0, Bitmap.Bits(bat), |d0|, [ino] + blocks, bnum);
    assert [ino] + blocks + [bnum] == [ino] + (blocks + [bnum]);
    NotTaken(b0, Bitmap.Bits(bat), |d0|, ino, blocks, bnum);
    StoredOneMore(d, blocks, source, filesize, bnum, c, n);
    ListedOneMore(inode, inode', blocks, bnum);
  }

  /** When no block is free, the source did not fit. */
  lemma RanOut(d0: Image, d: Image, b0: seq<bool>, bat: Block, inode: Block, ino: nat,
               blocks: seq<nat>, source: seq<Byte>, filesize: nat, total: nat)
    requires total == |d0|
    requires Copying(d0, d, b0, bat, inode, ino, blocks, source, filesize)
    requires Bitmap.Full(Bitmap.Bits(bat), total)
    requires filesize == TFS_BLOCK_SIZE * |blocks| < TFS_MAX_FILESIZE && |source| <= TFS_MAX_FILESIZE
    ensures Bitmap.FreeCount(b0, total) < ToolBlocks(|source|) + 1
  {
    Bitmap.FreeCountZero(Bitmap.Bits(bat), total);
    TakesCount(b0, Bitmap.Bits(bat), total, [ino] + blocks);
  }

  /** The blocks taken are never as many as the disk has. */
  lemma NotAllTaken(d0: Image, d: Image, b0: seq<bool>, bat: Block, inode: Block, ino: nat,
                    blocks: seq<nat>, source: seq<Byte>, filesize: nat, total: nat)
    requires total == |d0|
    requires Copying(d0, d, b0, bat, inode, ino, blocks, source, filesize)
    ensures |blocks| < total
  {
    TakesCount(b0, Bitmap.Bits(bat), total, [ino] + blocks);
  }

  /** One round of the loop: copies up to one block of the source to a free block. */
  method CopyBlock(disk: array<Block>, bat: array<Byte>, inode: array<Byte>, data: array<Byte>, source: seq<Byte>,
                   filesize: nat, i: nat, numBlocks: nat, littleEndian: bool, ghost ino: nat, ghost b0: seq<bool>,
                   ghost d0: Image, ghost blocks: seq<nat>)
    returns (bnum: int, n: nat)
    requires numBlocks == disk.Length
    requires bat.Length == inode.Length == data.Length == TFS_BLOCK_SIZE
    requires bat != inode && bat != data && inode != data
    requires i == |blocks| < TFS_BLOCKS_MAX && filesize == TFS_BLOCK_SIZE * i
    requires Copying(d0, disk[..], b0, bat[..], inode[..], ino, blocks, source, filesize)
    modifies disk, bat, inode, data
    ensures bnum == -1 ==>
              && Bitmap.Full(Bitmap.Bits(bat[..]), numBlocks)
              && Copying(d0, disk[..], b0, bat[..], inode[..], ino, blocks, source, filesize)
    ensures bnum != -1 ==>
              && bnum >= 0 && n == Min(TFS_BLOCK_SIZE, |source| - filesize)
              && Copying(d0, disk[..], b0, bat[..], inode[..], ino, blocks + [bnum], source, filesize + n)
  {
    ghost var bat0, inode0, d1 := bat[..], inode[..], disk[..];
    n := 0;
    bnum := BitmapFindAndSet(bat, numBlocks, littleEndian);
    if bnum == -1 {
      Bitmap.BitsDetermineBytes(bat0, bat[..]);
      return;
    }
    n := ReadSource(source, filesize, data);
    WriteBlock(disk, data, bnum);
    StoreInodeWord(inode, 1 + i, bnum, littleEndian);
    CopiedOneMore(d0, d1, b0, bat0, inode0, ino, blocks, source, filesize, bat[..], inode[..], bnum, data[..], n);
  }

  /** The loop that copies the source into free blocks and lists them in the inode. */
  method StoreData(disk: array<Block>, bat: array<Byte>, inode: array<Byte>, source: seq<Byte>,
                   numBlocks: nat, littleEndian: bool, ghost ino: nat, ghost b0: seq<bool>)
    returns (writeok: bool, filesize: nat, ghost blocks: seq<nat>)
    requires 3 <= numBlocks == disk.Length
    requires bat.Length == inode.Length == TFS_BLOCK_SIZE && bat != inode
    requires Copying(disk[..], disk[..], b0, bat[..], inode[..], ino, [], source, 0)
    modifies disk, bat, inode
    ensures Copying(old(disk[..]), disk[..], b0, bat[..], inode[..], ino, blocks, source, filesize)
    ensures writeok && filesize == |source| ==> |source| <= TFS_MAX_FILESIZE && |blocks| == ToolBlocks(|source|)
    ensures writeok && filesize != |source| ==> |source| > TFS_MAX_FILESIZE
    ensures !writeok && |source| <= TFS_MAX_FILESIZE ==>
              Bitmap.FreeCount(b0, numBlocks) < ToolBlocks(|source|) + 1
  {
    ghost var d0 := disk[..];
    var data := NewBlock();
    writeok, filesize, blocks := true, 0, [];
    var i := 0;
    while i < numBlocks && filesize < TFS_MAX_FILESIZE
      invariant 0 <= i == |blocks| <= TFS_BLOCKS_MAX && filesize == TFS_BLOCK_SIZE * i
      invariant Copying(d0, disk[..], b0, bat[..], inode[..], ino, blocks, source, filesize)
    {
      var bnum, n := CopyBlock(disk, bat, inode, data, source, filesize, i, numBlocks, littleEndian, ino, b0, d0, blocks);
      if bnum == -1 {
        if |source| <= TFS_MAX_FILESIZE {
          RanOut(d0, disk[..], b0, bat[..], inode[..], ino, blocks, source, filesize, numBlocks);
        }
        return false, filesize, blocks;
      }
      blocks := blocks + [bnum];
      filesize := filesize + n;
      i := i + 1;
      if n < TFS_BLOCK_SIZE {
        return true, filesize, blocks;
      }
    }
    NotAllTaken(d0, disk[..], b0, bat[..], inode[..], ino, blocks, source, filesize, numBlocks);
  }

  lemma StartCopying(d: Image, b0: seq<bool>, bat: Block, inode: Block, ino: nat, source: seq<Byte>)
    requires |d| <= TFS_MAX_BLOCKS == |b0| && Takes(b0, Bitmap.Bits(bat), |d|, [ino])
    requires InodeListed(inode, 0, []) && UnlistedZero(inode, 0)
    ensures Copying(d, d, b0, bat, inode, ino, [], source, 0)
  {
    assert [ino] + [] == [ino];
  }

  method NewInode() returns (inode: array<Byte>)
    ensures fresh(inode) && inode.Length == TFS_BLOCK_SIZE
    ensures InodeListed(inode[..], 0, []) && UnlistedZero(inode[..], 0)
  {
    inode := NewBlock();
    forall j: nat | j <= TFS_BLOCKS_MAX ensures WordAt(inode[..], j) == 0 {
      WordIsZero(inode[..], j);
    }
    ZeroInode(inode[..]);
  }

  /** A copy that is given up has only touched free blocks. */
  lemma CopyAbandoned(d: Image, d': Image, total: nat, bat: Block, inode: Block, ino: nat,
                      blocks: seq<nat>, source: seq<Byte>, filesize: nat)
    requires 3 <= |d| == total && Valid(Decode(d), total)
    requires Copying(d, d', Decode(d).bits, bat, inode, ino, blocks, source, filesize)
    ensures Valid(Decode(d'), total) && View(Decode(d')) == View(Decode(d))
    ensures forall k :: 0 <= k < |d| && (k < 3 || Decode(d).bits[k]) ==> d'[k] == d[k]
  {
    var f, f' := Decode(d), Decode(d');
    TakenBlocks(f, total, Bitmap.Bits(bat), ino, blocks);
    forall k | 0 <= k < |d| && (k < 3 || f.bits[k]) ensures d'[k] == d[k] {
      assert k in blocks ==> k in [ino] + blocks;
    }
    forall k: nat | 3 <= k < |d| && f.bits[k] ensures SameBlock(f, f', k) {
      DecodeSameBlock(d, d', k);
    }
    FreeBlocksDoNotMatter(f, f', total);
  }

  /** The stored source is what the finished file reads as. */
  lemma CopiedContents(d1: Image, d': Image, blocks: seq<nat>, source: seq<Byte>)
    requires Stored(d1, blocks, source, |source|) && |d'| == |d1|
    requires forall b :: b in blocks && b < |d1| ==> d'[b] == d1[b]
    ensures FileBytes(d', Inode(|source|, blocks)) == source
  {
    var n := Inode(|source|, blocks);
    forall k: nat | k < |source| ensures FileByte(d', n, k) == source[k] {
      assert FileByte(d1, n, k) == source[k];
      assert blocks[k / TFS_BLOCK_SIZE] in blocks;
    }
  }

  /** A finished copy, once its inode and directory entry are written. */
  lemma CopyFinished(d: Image, d1: Image, d': Image, total: nat, bat: Block, inode: Block,
                     ino: nat, blocks: seq<nat>, source: seq<Byte>, slot: nat, target: Name)
    requires 3 <= |d| == total && |d'| == |d1| == |d| && Valid(Decode(d), total)
    requires slot < TFS_MAX_FILES && !Used(Decode(d).dir[slot])
    requires IsName(target) && SlotOf(Decode(d).dir, target) == -1
    requires Takes(Decode(d).bits, Bitmap.Bits(bat), total, [ino] + blocks)
    requires forall k :: 0 <= k < |d| && k !in blocks ==> d1[k] == d[k]
    requires Stored(d1, blocks, source, |source|) && InodeListed(inode, |source|, blocks)
    requires Directory(d'[2]) == Directory(d[2])[slot := DirEntry(ino, target)]
    requires ino < |d| && d'[1] == bat && d'[ino] == inode
    requires forall k :: 3 <= k < |d| && k != ino ==> d'[k] == d1[k]
    ensures Valid(Decode(d'), total)
    ensures View(Decode(d')) == View(Decode(d))[target := source]
    ensures KeepsNames(Decode(d), Decode(d'), target)
    ensures Bitmap.FreeCount(Decode(d').bits, total) + |blocks| + 1 == Bitmap.FreeCount(Decode(d).bits, total)
  {
    assert ino !in blocks && 3 <= ino && forall b :: b in blocks ==> 3 <= b by {
      TakenBlocks(Decode(d), total, Bitmap.Bits(d'[1]), ino, blocks);
    }
    InodeIs(inode, |source|, blocks);
    CopiedContents(d1, d', blocks, source);
    Added(d, d', total, slot, DirEntry(ino, target), Inode(|source|, blocks));
  }

  method EnterName(masterDir: array<Byte>, index: nat, target: Name, inodeBnum: Word, littleEndian: bool)
    requires masterDir.Length == TFS_BLOCK_SIZE && index < TFS_MAX_FILES && IsName(target)
    modifies masterDir
    ensures Directory(masterDir[..]) == Directory(old(masterDir[..]))[index := DirEntry(inodeBnum, target)]
  {
    ghost var md := masterDir[..];
    StoreNetworkWord(masterDir, 5 * index, inodeBnum, littleEndian);
    ghost var md1 := masterDir[..];
    StringCopyPadded(masterDir, 20 * index + 4, target, TFS_FILENAME_MAX);
    NameWritten(md, md1, masterDir[..], index, target, inodeBnum);
  }

  /** The last writes of a successful store: inode, directory, allocation block. */
  method FinishWrite(disk: array<Block>, masterDir: array<Byte>, bat: array<Byte>, inode: array<Byte>,
                     index: nat, target: Name, size: Word, littleEndian: bool, inodeBnum: nat, ghost blocks: seq<nat>)
    requires masterDir.Length == bat.Length == inode.Length == TFS_BLOCK_SIZE
    requires masterDir != bat && masterDir != inode && bat != inode
    requires index < TFS_MAX_FILES && IsName(target)
    requires InodeListed(inode[..], 0, blocks) && 3 <= inodeBnum < disk.Length <= TFS_MAX_BLOCKS
    modifies disk, masterDir, inode
    ensures Directory(disk[2]) == Directory(old(masterDir[..]))[index := DirEntry(inodeBnum, target)]
    ensures disk[0] == old(disk[0]) && disk[1] == bat[..] && InodeListed(disk[inodeBnum], size, blocks)
    ensures forall k :: 3 <= k < disk.Length && k != inodeBnum ==> disk[k] == old(disk[k])
  {
    StoreInodeWord(inode, 0, size, littleEndian);
    WriteBlock(disk, inode, inodeBnum);
    EnterName(masterDir, index, target, inodeBnum, littleEndian);
    WriteBlock(disk, masterDir, TFS_DIRECTORY_BLOCK);
    WriteBlock(disk, bat, TFS_ALLOCATION_BLOCK);
  }

  lemma NameWritten(md: Block, md1: Block, md': Block, i: nat, name: Name, ino: Word)
    requires i < TFS_MAX_FILES && IsName(name)
    requires WordAt(md1, 5 * i) == ino
    requires forall k :: 0 <= k < TFS_BLOCK_SIZE && k / 4 != 5 * i ==> md1[k] == md[k]
    requires forall k :: 0 <= k < TFS_BLOCK_SIZE && !(20 * i + 4 <= k < 20 * i + 20) ==> md'[k] == md1[k]
    requires md'[20 * i + 4..20 * i + 4 + |name|] == name && md'[20 * i + 4 + |name|] == 0
    ensures Directory(md') == Directory(md)[i := DirEntry(ino, name)]
  {
    assert WordAt(md', 5 * i) == WordAt(md1, 5 * i);
    EntryWritten(md, md', i, name, ino);
  }

  /** Stores a source file under a new name. */
  method Write(disk: array<Block>, numBlocks: nat, target: Name, source: seq<Byte>, littleEndian: bool)
    returns (ok: bool)
    requires 3 <= disk.Length == numBlocks && Valid(Decode(disk[..]), numBlocks)
    requires |target| < TFS_FILENAME_MAX && 0 !in target
    modifies disk
    ensures Valid(Decode(disk[..]), numBlocks)
    ensures ok <==> CanStore(old(Decode(disk[..])), numBlocks, target, |source|)
    ensures ok ==>
              && View(Decode(disk[..])) == View(old(Decode(disk[..])))[target := source]
              && KeepsNames(old(Decode(disk[..])), Decode(disk[..]), target)
              && Bitmap.FreeCount(Decode(disk[..]).bits, numBlocks) + ToolBlocks(|source|) + 1
                 == Bitmap.FreeCount(old(Decode(disk[..]).bits), numBlocks)
    ensures disk[TFS_HEADER_BLOCK] == old(disk[TFS_HEADER_BLOCK])
    ensures !ok ==>
              && View(Decode(disk[..])) == View(old(Decode(disk[..])))
              && (forall k :: 0 <= k < disk.Length && (k < 3 || old(Decode(disk[..]).bits)[k]) ==>
                    disk[k] == old(disk[k]))
  {
    ghost var d := disk[..];
    var masterDir := NewBlock();
    ReadBlock(disk, masterDir, TFS_DIRECTORY_BLOCK);
    var found, index := FindEntry(masterDir, target);
    if found || index == -1 {
      return false;
    }
    assert IsName(target);
    var bat := NewBlock();
    ReadBlock(disk, bat, TFS_ALLOCATION_BLOCK);
    var inodeBnum := TakeInode(bat, numBlocks, littleEndian);
    if inodeBnum == -1 {
      return false;
    }
    ok := StoreFile(disk, numBlocks, masterDir, bat, inodeBnum, index, target, source, littleEndian, d);
  }

  /** The part of a store after the inode block is taken. */
  method StoreFile(disk: array<Block>, numBlocks: nat, masterDir: array<Byte>, bat: array<Byte>, inodeBnum: nat,
                   index: nat, target: Name, source: seq<Byte>, littleEndian: bool, ghost d: Image)
    returns (ok: bool)
    requires 3 <= disk.Length == numBlocks && disk[..] == d && Valid(Decode(d), numBlocks)
    requires masterDir.Length == bat.Length == TFS_BLOCK_SIZE && masterDir != bat
    requires masterDir[..] == d[2] && index < TFS_MAX_FILES && !Used(Decode(d).dir[index])
    requires IsName(target) && SlotOf(Decode(d).dir, target) == -1
    requires Takes(Decode(d).bits, Bitmap.Bits(bat[..]), numBlocks, [inodeBnum])
    modifies disk, masterDir, bat
    ensures Valid(Decode(disk[..]), numBlocks)
    ensures disk[TFS_HEADER_BLOCK] == d[TFS_HEADER_BLOCK]
    ensures !ok ==> !(|source| <= TFS_MAX_FILESIZE
                      && ToolBlocks(|source|) + 1 <= Bitmap.FreeCount(Decode(d).bits, numBlocks))
    ensures ok ==>
              && |source| <= TFS_MAX_FILESIZE
              && View(Decode(disk[..])) == View(Decode(d))[target := source]
              && KeepsNames(Decode(d), Decode(disk[..]), target)
              && Bitmap.FreeCount(Decode(disk[..]).bits, numBlocks) + ToolBlocks(|source|) + 1
                 == Bitmap.FreeCount(Decode(d).bits, numBlocks)
    ensures !ok ==>
              && View(Decode(disk[..])) == View(Decode(d))
              && (forall k :: 0 <= k < disk.Length && (k < 3 || Decode(d).bits[k]) ==> disk[k] == d[k])
  {
    hide Takes, KeepsNames, View, FreeBlocks, SlotOf, Decode;
    var inode := NewInode();
    StartCopying(d, Decode(d).bits, bat[..], inode[..], inodeBnum, source);
    var writeok, filesize;
    ghost var blocks;
    writeok, filesize, blocks := StoreData(disk, bat, inode, source, numBlocks, littleEndian, inodeBnum, Decode(d).bits);
    ghost var d1 := disk[..];
    if filesize != |source| || !writeok {
      CopyAbandoned(d, d1, numBlocks, bat[..], inode[..], inodeBnum, blocks, source, filesize);
      return false;
    }
    InodeIsDataBlock(d, numBlocks, Bitmap.Bits(bat[..]), inodeBnum, blocks);
    assert d1[TFS_HEADER_BLOCK] == d[TFS_HEADER_BLOCK];
    FinishWrite(disk, masterDir, bat, inode, index, target, filesize, littleEndian, inodeBnum, blocks);
    CopyFinished(d, d1, disk[..], numBlocks, bat[..], disk[inodeBnum], inodeBnum, blocks, source, index, target);
    return true;
  }

  lemma InodeIsDataBlock(d: Image, total: nat, b: seq<bool>, ino: nat, blocks: seq<nat>)
    requires |d| >= 3 && Valid(Decode(d), total) && Takes(Decode(d).bits, b, total, [ino] + blocks)
    ensures 3 <= ino < total && 0 !in blocks
  {
    TakenBlocks(Decode(d), total, b, ino, blocks);
  }

  method TakeInode(bat: array<Byte>, numBlocks: nat, littleEndian: bool) returns (bnum: int)
    requires bat.Length == TFS_BLOCK_SIZE && numBlocks <= TFS_MAX_BLOCKS
    modifies bat
    ensures bnum == -1 ==> Bitmap.FreeCount(Bitmap.Bits(old(bat[..])), numBlocks) == 0
    ensures bnum != -1 ==> bnum >= 0 && Takes(Bitmap.Bits(old(bat[..])), Bitmap.Bits(bat[..]), numBlocks, [bnum])
  {
    ghost var b0 := Bitmap.Bits(bat[..]);
    bnum := BitmapFindAndSet(bat, numBlocks, littleEndian);
    if bnum == -1 {
      Bitmap.FreeCountZero(b0, numBlocks);
    } else {
      TakesNothing(b0, numBlocks);
      TakesOneMore(b0, b0, numBlocks, [], bnum);
      assert [] + [bnum as nat] == [bnum];
    }
  }

  datatype Output = NotFound | Found(bytes: seq<Byte>)

  /** The first entry with the name, or -1. */
  method FindName(masterDir: array<Byte>, name: Name) returns (index: int)
    requires masterDir.Length == TFS_BLOCK_SIZE
    ensures index == SlotOf(Directory(masterDir[..]), name)
  {
    ghost var dir := Directory(masterDir[..]);
    for i := 0 to TFS_MAX_FILES
      invariant forall k :: 0 <= k < i ==> dir[k].name != name
    {
      DirectoryAt(masterDir[..], i);
      if Entry(masterDir[..], i).name == name {
        return i;
      }
    }
    return -1;
  }

  /** Copies the file's blocks to the output, the last one cut to the file size. */
  method CopyOut(disk: array<Block>, inode: array<Byte>, littleEndian: bool) returns (out: seq<Byte>)
    requires inode.Length == TFS_BLOCK_SIZE && InodeOk(ReadInode(inode[..]), disk.Length)
    ensures out == FileBytes(disk[..], ReadInode(inode[..]))
  {
    ghost var n := ReadInode(inode[..]);
    InodeWords(inode[..]);
    var data := NewBlock();
    var filesize := LoadNetworkWord(inode, 0, littleEndian);
    out := [];
    var i := 0;
    while i < TFS_BLOCKS_MAX && WordAt(inode[..], 1 + i) != 0
      invariant 0 <= i <= |n.blocks|
      invariant inode[..] == old(inode[..])
      invariant |out| == Min(filesize, TFS_BLOCK_SIZE * i)
      invariant forall k :: 0 <= k < |out| ==> out[k] == FileByte(disk[..], n, k)
    {
      var bnum := LoadNetworkWord(inode, 1 + i, littleEndian);
      assert bnum == n.blocks[i];
      ReadBlock(disk, data, bnum);
      var size := Min(filesize - |out|, TFS_BLOCK_SIZE);
      ghost var before := out;
      out := out + data[..size];
      OutOneMore(disk[..], n, i, before, size);
      i := i + 1;
    }
    assert i == |n.blocks|;
  }

  lemma OutOneMore(d: Image, n: Inode, i: nat, out: seq<Byte>, size: nat)
    requires i < |n.blocks| && n.blocks[i] < |d|
    requires |out| == Min(n.filesize, TFS_BLOCK_SIZE * i) && size == Min(n.filesize - |out|, TFS_BLOCK_SIZE)
    requires forall k :: 0 <= k < |out| ==> out[k] == FileByte(d, n, k)
    ensures |out| + size == Min(n.filesize, TFS_BLOCK_SIZE * (i + 1))
    ensures forall k :: 0 <= k < |out| + size ==> (out + d[n.blocks[i]][..size])[k] == FileByte(d, n, k)
  {
    forall k | |out| <= k < |out| + size
      ensures (out + d[n.blocks[i]][..size])[k] == FileByte(d, n, k)
    {
      assert k / TFS_BLOCK_SIZE == i && k % TFS_BLOCK_SIZE == k - |out|;
    }
  }

  /** Copies a file out of the image. */
  method Read(disk: array<Block>, numBlocks: nat, source: Name, littleEndian: bool) returns (r: Output)
    requires 3 <= disk.Length == numBlocks && Valid(Decode(disk[..]), numBlocks) && IsName(source)
    ensures r == if source in Names(Decode(disk[..])) then Found(View(Decode(disk[..]))[source]) else NotFound
  {
    ghost var d := disk[..];
    var masterDir := NewBlock();
    ReadBlock(disk, masterDir, TFS_DIRECTORY_BLOCK);
    var index := FindName(masterDir, source);
    NameFound(Decode(d), numBlocks, source);
    if index == -1 {
      return NotFound;
    }
    SlotIsSound(d, numBlocks, index);
    DirectoryAt(masterDir[..], index);
    FoundAt(Decode(d), numBlocks, index);
    var inode := NewBlock();
    var bnum := LoadNetworkWord(masterDir, 5 * index, littleEndian);
    ReadBlock(disk, inode, bnum);
    var out := CopyOut(disk, inode, littleEndian);
    return Found(out);
  }

  method ReleaseBlock(bat: array<Byte>, bnum: nat, littleEndian: bool, ghost b0: seq<bool>, ghost s: seq<nat>)
    requires bat.Length == TFS_BLOCK_SIZE && bnum < TFS_MAX_BLOCKS
    requires Clears(b0, Bitmap.Bits(bat[..]), s)
    modifies bat
    ensures Clears(b0, Bitmap.Bits(bat[..]), s + [bnum])
  {
    ClearsOneMore(b0, Bitmap.Bits(bat[..]), s, bnum);
    BitmapSet(bat, bnum, 0, littleEndian);
  }

  lemma ClearsReordered(b0: seq<bool>, b1: seq<bool>, x: nat, s: seq<nat>)
    requires Clears(b0, b1, s + [x])
    ensures Clears(b0, b1, [x] + s)
  {
    assert forall k :: k in s + [x] <==> k in [x] + s;
  }

  /** Clears the allocation bits of the listed blocks, then of the inode block. */
  method ReleaseBlocks(bat: array<Byte>, inode: array<Byte>, inodeBnum: nat, littleEndian: bool)
    requires bat.Length == inode.Length == TFS_BLOCK_SIZE && bat != inode && inodeBnum < TFS_MAX_BLOCKS
    requires forall b :: b in ReadInode(inode[..]).blocks ==> b < TFS_MAX_BLOCKS
    modifies bat
    ensures Clears(Bitmap.Bits(old(bat[..])), Bitmap.Bits(bat[..]), [inodeBnum] + ReadInode(inode[..]).blocks)
  {
    hide Bitmap.Bits, ReadInode, Clears;
    ghost var b0 := Bitmap.Bits(bat[..]);
    ghost var blocks := ReadInode(inode[..]).blocks;
    ClearsNone(b0);
    InodeWords(inode[..]);
    var i := 0;
    while i < TFS_BLOCKS_MAX && WordAt(inode[..], 1 + i) != 0
      invariant 0 <= i <= |blocks|
      invariant Clears(b0, Bitmap.Bits(bat[..]), blocks[..i])
    {
      assert blocks[i] in blocks;
      var bnum := LoadNetworkWord(inode, 1 + i, littleEndian);
      ReleaseBlock(bat, bnum, littleEndian, b0, blocks[..i]);
      assert blocks[..i] + [blocks[i]] == blocks[..i + 1];
      i := i + 1;
    }
    EndOfList(inode[..], i);
    assert blocks[..i] == blocks;
    ReleaseBlock(bat, inodeBnum, littleEndian, b0, blocks);
    ClearsReordered(b0, Bitmap.Bits(bat[..]), inodeBnum, blocks);
  }

  /** Finds the inode of an entry and clears the bits of all its blocks. */
  method ReleaseFile(disk: array<Block>, masterDir: array<Byte>, bat: array<Byte>, index: nat, littleEndian: bool)
    requires masterDir.Length == bat.Length == TFS_BLOCK_SIZE && masterDir != bat && index < TFS_MAX_FILES
    requires disk.Length <= TFS_MAX_BLOCKS && Directory(masterDir[..])[index].inode < disk.Length
    requires InodeOk(ReadInode(disk[Directory(masterDir[..])[index].inode]), disk.Length)
    modifies bat
    ensures var ino := Directory(masterDir[..])[index].inode;
            Clears(Bitmap.Bits(old(bat[..])), Bitmap.Bits(bat[..]), [ino] + ReadInode(disk[ino]).blocks)
  {
    DirectoryAt(masterDir[..], index);
    var inodeBnum := LoadNetworkWord(masterDir, 5 * index, littleEndian);
    var inode := NewBlock();
    ReadBlock(disk, inode, inodeBnum);
    ReleaseBlocks(bat, inode, inodeBnum, littleEndian);
  }

  /** Deletes a file from the image. */
  method Delete(disk: array<Block>, numBlocks: nat, filename: Name, littleEndian: bool) returns (ok: bool)
    requires 3 <= disk.Length == numBlocks && Valid(Decode(disk[..]), numBlocks) && IsName(filename)
    modifies disk
    ensures Valid(Decode(disk[..]), numBlocks)
    ensures ok <==> filename in Names(old(Decode(disk[..])))
    ensures ok ==>
              && View(Decode(disk[..])) == View(old(Decode(disk[..]))) - {filename}
              && KeepsNames(old(Decode(disk[..])), Decode(disk[..]), filename)
    ensures !ok ==> disk[..] == old(disk[..])
    ensures disk[TFS_HEADER_BLOCK] == old(disk[TFS_HEADER_BLOCK])
  {
    ghost var d := disk[..];
    var masterDir := NewBlock();
    ReadBlock(disk, masterDir, TFS_DIRECTORY_BLOCK);
    var index := FindName(masterDir, filename);
    NameFound(Decode(d), numBlocks, filename);
    if index == -1 {
      return false;
    }
    SlotIsSound(d, numBlocks, index);
    var bat := NewBlock();
    ReadBlock(disk, bat, TFS_ALLOCATION_BLOCK);
    ReleaseFile(disk, masterDir, bat, index, littleEndian);
    EraseEntry(masterDir, index, littleEndian);
    WriteBlock(disk, bat, TFS_ALLOCATION_BLOCK);
    WriteBlock(disk, masterDir, TFS_DIRECTORY_BLOCK);
    Removed(d, disk[..], numBlocks, index);
    return true;
  }

  method EraseEntry(masterDir: array<Byte>, index: nat, littleEndian: bool)
    requires masterDir.Length == TFS_BLOCK_SIZE && index < TFS_MAX_FILES
    modifies masterDir
    ensures Directory(masterDir[..]) == Directory(old(masterDir[..]))[index := DirEntry(0, [])]
  {
    ghost var md := masterDir[..];
    var unused: Word := 0;
    StoreNetworkWord(masterDir, 5 * index, unused, littleEndian);
    ghost var md1 := masterDir[..];
    masterDir[20 * index + 4] := 0;
    assert masterDir[..] == md1[20 * index + 4 := 0];
    EntryErased(md, md1, index);
  }

  /** Creates a volume of size blocks, or nothing when not even the system blocks fit. */
  method CreateVolume(size: nat, volumeName: seq<Byte>, littleEndian: bool) returns (disk: array?<Block>)
    requires |volumeName| == 16
    ensures disk == null <==> size < 3
    ensures disk != null ==>
              && fresh(disk) && disk.Length == size
              && WordAt(disk[TFS_HEADER_BLOCK], 0) == TfsDriver.TFS_MAGIC
              && disk[TFS_HEADER_BLOCK][4..20] == volumeName
              && Valid(Decode(disk[..]), Min(size, TFS_MAX_BLOCKS))
              && View(Decode(disk[..])) == map[]
              && Bitmap.FreeCount(Decode(disk[..]).bits, Min(size, TFS_MAX_BLOCKS)) == Min(size, TFS_MAX_BLOCKS) - 3
  {
    if size < 3 {
      return null;
    }
    var header := NewBlock();
    var bat := NewBlock();
    FillHeader(header, volumeName, littleEndian);
    ReserveSystemBlocks(bat, littleEndian);
    disk := new Block[size](_ => ZERO_BLOCK);
    WriteBlock(disk, header, TFS_HEADER_BLOCK);
    WriteBlock(disk, bat, TFS_ALLOCATION_BLOCK);
    NewVolume(disk[..], Min(size, TFS_MAX_BLOCKS));
  }

  /** The header block's two fields: the magic number and the volume's name. */
  method FillHeader(header: array<Byte>, volumeName: seq<Byte>, littleEndian: bool)
    requires header.Length == TFS_BLOCK_SIZE && |volumeName| == 16
    modifies header
    ensures WordAt(header[..], 0) == TfsDriver.TFS_MAGIC
    ensures header[4..20] == volumeName
  {
    hide Join;
    StoreNetworkWord(header, 0, TfsDriver.TFS_MAGIC, littleEndian);
    for k := 0 to 16
      invariant WordAt(header[..], 0) == TfsDriver.TFS_MAGIC
      invariant header[4..4 + k] == volumeName[..k]
    {
      ghost var before := header[..];
      header[4 + k] := volumeName[k];
      assert WordAt(header[..], 0) == WordAt(before, 0);
    }
  }

  method ReserveSystemBlocks(bat: array<Byte>, littleEndian: bool)
    requires bat.Length == TFS_BLOCK_SIZE && bat[..] == ZERO_BLOCK
    modifies bat
    ensures forall k :: 0 <= k < TFS_MAX_BLOCKS ==> (Bitmap.Bits(bat[..])[k] <==> k < 3)
  {
    Bitmap.ZeroBytes(bat[..], 8 * bat.Length);
    BitmapSet(bat, TFS_HEADER_BLOCK, 1, littleEndian);
    BitmapSet(bat, TFS_ALLOCATION_BLOCK, 1, littleEndian);
    BitmapSet(bat, TFS_DIRECTORY_BLOCK, 1, littleEndian);
  }

  lemma EmptyDirectory(md: Block, i: nat)
    requires i < TFS_MAX_FILES && forall k :: 0 <= k < |md| ==> md[k] == 0
    ensures Directory(md)[i] == DirEntry(0, [])
  {
    DirectoryAt(md, i);
    WordIsZero(md, 5 * i);
    CStringIs(md[20 * i + 4..20 * i + 20], []);
  }

  /** A zeroed directory with only the system blocks reserved is a valid, empty image. */
  lemma NewVolume(d: Image, total: nat)
    requires 3 <= total <= |d| && total <= TFS_MAX_BLOCKS
    requires d[2] == ZERO_BLOCK
    requires forall k :: 0 <= k < TFS_MAX_BLOCKS ==> (Bitmap.Bits(d[1])[k] <==> k < 3)
    ensures Valid(Decode(d), total)
    ensures View(Decode(d)) == map[]
    ensures Bitmap.FreeCount(Decode(d).bits, total) == total - 3
  {
    var f := Decode(d);
    forall i | 0 <= i < TFS_MAX_FILES ensures f.dir[i] == DirEntry(0, []) {
      EmptyDirectory(d[2], i);
    }
    EmptyImage(f, total);
  }

  lemma EmptyImage(f: Fs, total: nat)
    requires WellFormed(f) && 3 <= total <= |f.data| && total <= TFS_MAX_BLOCKS
    requires forall i :: 0 <= i < |f.dir| ==> f.dir[i] == DirEntry(0, [])
    requires forall k :: 0 <= k < |f.bits| ==> (f.bits[k] <==> k < 3)
    ensures Valid(f, total) && View(f) == map[]
    ensures Bitmap.FreeCount(f.bits, total) == total - 3
  {
    hide Valid, Owned, Names, View;
    EmptyIsValid(f, total);
    EmptyView(f);
    NothingOwned(f, |f.dir|);
    SpaceAccounting(f, total);
  }

  lemma EmptyIsValid(f: Fs, total: nat)
    requires WellFormed(f) && 3 <= total <= |f.data| && total <= TFS_MAX_BLOCKS
    requires forall i :: 0 <= i < |f.dir| ==> f.dir[i] == DirEntry(0, [])
    requires forall k :: 0 <= k < |f.bits| ==> (f.bits[k] <==> k < 3)
    ensures Valid(f, total) && forall i :: 0 <= i < |f.dir| ==> Owned(f, i) == []
  {
    forall i | 0 <= i < |f.dir| ensures Owned(f, i) == [] {
    }
  }

  lemma EmptyView(f: Fs)
    requires forall i :: 0 <= i < |f.dir| ==> f.dir[i] == DirEntry(0, [])
    ensures View(f) == map[]
  {
    assert Names(f) == {};
  }

  lemma {:induction false} NothingOwned(f: Fs, n: nat)
    requires n <= |f.dir| && forall i :: 0 <= i < |f.dir| ==> Owned(f, i) == []
    ensures OwnedUpTo(f, n) == []
  {
    if n > 0 {
      NothingOwned(f, n - 1);
    }
  }
}
