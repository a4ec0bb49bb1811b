/** The reasoning behind the filesystem operations: what the bytes an operation writes
    amount to, stated on whole images before and after. */
module TfsOperations {
  import opened Collections
  import opened Words
  import opened DiskFormat
  import opened TfsImage
  import opened TfsEffects
  import opened Allocation
  import opened ImageDecoding
  import Bitmap

  function Min(a: int, b: int): (m: int)
    ensures m <= a && m <= b && (m == a || m == b)
  {
    if a > b then b else a
  }

  function Zeros(n: nat): (s: seq<Byte>)
    ensures |s| == n && forall k :: 0 <= k < n ==> s[k] == 0
  {
    seq(n, _ => 0)
  }

  /** How a span of a file splits into a first chunk and the blocks after it. */
  lemma SpanSplit(offset: nat, size: nat)
    requires size > 0
    ensures var b1, b2 := offset / TFS_BLOCK_SIZE, (offset + size - 1) / TFS_BLOCK_SIZE;
            var at := offset % TFS_BLOCK_SIZE;
            var first := Min(TFS_BLOCK_SIZE - at, size);
            && TFS_BLOCK_SIZE * b1 + at == offset && at + first <= TFS_BLOCK_SIZE
            && b1 <= b2 && 0 < first <= size
            && TFS_BLOCK_SIZE * b2 <= offset + size - 1 < TFS_BLOCK_SIZE * b2 + TFS_BLOCK_SIZE
            && if b1 + 1 <= b2 then offset + first == TFS_BLOCK_SIZE * (b1 + 1) else first == size
  {
  }

  lemma SliceRead(d: Image, n: Inode, offset: nat, read: seq<Byte>)
    requires offset + |read| <= n.filesize
    requires forall k :: 0 <= k < |read| ==> read[k] == FileByte(d, n, offset + k)
    ensures read == FileBytes(d, n)[offset..offset + |read|]
  {
  }

  /** s with the bytes from offset on overwritten by data. */
  function Splice(s: seq<Byte>, offset: nat, data: seq<Byte>): seq<Byte>
    requires offset + |data| <= |s|
  {
    s[..offset] + data + s[offset + |data|..]
  }

  /** d' is d with the bytes of the file from p on overwritten, and no other block touched. */
  ghost predicate Patched(d: Image, d': Image, n: Inode, p: nat, data: seq<Byte>) {
    && |d'| == |d|
    && (forall k: nat :: k < TFS_BLOCK_SIZE * |n.blocks| ==>
          FileByte(d', n, k) == if p <= k < p + |data| then data[k - p] else FileByte(d, n, k))
    && (forall k :: 0 <= k < |d| && k !in n.blocks ==> d'[k] == d[k])
  }

  lemma PatchedByStore(d: Image, n: Inode, j: nat, at: nat, data: seq<Byte>, c: Block)
    requires j < |n.blocks| && n.blocks[j] < |d| && NoDuplicates(n.blocks)
    requires at + |data| <= TFS_BLOCK_SIZE
    requires forall k :: 0 <= k < TFS_BLOCK_SIZE ==>
               c[k] == if at <= k < at + |data| then data[k - at] else d[n.blocks[j]][k]
    ensures Patched(d, d[n.blocks[j] := c], n, TFS_BLOCK_SIZE * j + at, data)
  {
    forall k: nat | k < TFS_BLOCK_SIZE * |n.blocks|
      ensures FileByte(d[n.blocks[j] := c], n, k)
           == if TFS_BLOCK_SIZE * j + at <= k < TFS_BLOCK_SIZE * j + at + |data|
              then data[k - (TFS_BLOCK_SIZE * j + at)] else FileByte(d, n, k)
    {
      FileByteAfterStore(d, n, j, c, k);
    }
  }

  lemma PatchedTwice(d0: Image, d1: Image, d2: Image, n: Inode, p: nat, s: seq<Byte>, t: seq<Byte>)
    requires Patched(d0, d1, n, p, s) && Patched(d1, d2, n, p + |s|, t)
    ensures Patched(d0, d2, n, p, s + t)
  {
  }

  /** What the writes of write add up to. */
  lemma Written(d: Image, d': Image, total: nat, id: nat, offset: nat, data: seq<Byte>)
    requires |d| >= 3 && Valid(Decode(d), total) && Live(Decode(d), id) && id < |d|
    requires Patched(d, d', ReadInode(d[id]), offset, data)
    requires offset + |data| <= ReadInode(d[id]).filesize
    ensures |d'| == |d| && Valid(Decode(d'), total)
    ensures Decode(d').dir == Decode(d).dir && Decode(d').bits == Decode(d).bits
    ensures ReadInode(d'[id]) == ReadInode(d[id]) && d'[TFS_HEADER_BLOCK] == d[TFS_HEADER_BLOCK]
    ensures forall i :: 0 <= i < TFS_MAX_FILES && Used(Decode(d).dir[i]) ==>
              NodeOf(Decode(d'), Decode(d).dir[i]) == NodeOf(Decode(d), Decode(d).dir[i])
    ensures FileBytes(d', ReadInode(d[id])) == Splice(FileBytes(d, ReadInode(d[id])), offset, data)
    ensures forall name :: name in Names(Decode(d)) ==>
              && name in View(Decode(d'))
              && View(Decode(d'))[name] == if Lookup(Decode(d), name).inode == id then FileBytes(d', ReadInode(d[id]))
                                           else View(Decode(d))[name]
  {
    var f := Decode(d);
    var slot :| 0 <= slot < |f.dir| && Used(f.dir[slot]) && f.dir[slot].inode == id;
    SlotIsSound(d, total, slot);
    var n := ReadInode(d[id]);
    PatchRewrites(d, d', total, slot, offset, data);
    RewritesOneFile(f, Decode(d'), total, slot);
    forall i | 0 <= i < |f.dir| && Used(f.dir[i]) ensures NodeOf(Decode(d'), f.dir[i]) == NodeOf(f, f.dir[i]) {
      RewritesKeepsFiles(f, Decode(d'), total, slot, i);
    }
    NodeDecoded(d', f.dir[slot]);
    SplicedBytes(d, d', n, offset, data);
    forall name | name in Names(f)
      ensures Lookup(f, name).inode == id <==> name == f.dir[slot].name
    {
      OneNamePerFile(f, total, slot, name);
    }
  }

  lemma PatchRewrites(d: Image, d': Image, total: nat, slot: nat, p: nat, data: seq<Byte>)
    requires |d| >= 3 && Valid(Decode(d), total)
    requires slot < TFS_MAX_FILES && Used(Decode(d).dir[slot]) && Decode(d).dir[slot].inode < |d|
    requires Patched(d, d', ReadInode(d[Decode(d).dir[slot].inode]), p, data)
    ensures Rewrites(Decode(d), Decode(d'), slot)
  {
    var f, f' := Decode(d), Decode(d');
    SlotIsSound(d, total, slot);
    var n := ReadInode(d[f.dir[slot].inode]);
    assert 1 !in n.blocks && 2 !in n.blocks;
    forall k: nat | k >= 3 && k !in n.blocks ensures SameBlock(f, f', k) {
      DecodeSameBlock(d, d', k);
    }
  }

  lemma OneNamePerFile(f: Fs, total: nat, slot: nat, name: Name)
    requires Valid(f, total) && slot < |f.dir| && Used(f.dir[slot]) && name in Names(f)
    ensures Lookup(f, name).inode == f.dir[slot].inode <==> name == f.dir[slot].name
  {
    var i :| 0 <= i < |f.dir| && Used(f.dir[i]) && f.dir[i].name == name;
    FoundAt(f, total, i);
    FoundAt(f, total, slot);
    assert Owned(f, i)[0] == f.dir[i].inode && Owned(f, slot)[0] == f.dir[slot].inode;
  }

  lemma SplicedBytes(d: Image, d': Image, n: Inode, offset: nat, data: seq<Byte>)
    requires Patched(d, d', n, offset, data)
    requires offset + |data| <= n.filesize <= TFS_BLOCK_SIZE * |n.blocks|
    ensures FileBytes(d', n) == Splice(FileBytes(d, n), offset, data)
  {
  }

  /** id is the inode block of some file. */
  ghost predicate Live(f: Fs, id: int) {
    exists i :: 0 <= i < |f.dir| && Used(f.dir[i]) && f.dir[i].inode == id
  }

  lemma LiveIsSound(d: Image, total: nat, id: nat)
    requires |d| >= 3 && Valid(Decode(d), total) && Live(Decode(d), id)
    ensures 3 <= id < total && InodeOk(ReadInode(d[id]), total)
    ensures NoDuplicates(ReadInode(d[id]).blocks)
  {
    var f := Decode(d);
    var i :| 0 <= i < |f.dir| && Used(f.dir[i]) && f.dir[i].inode == id;
    SlotIsSound(d, total, i);
  }

  /** b1 is b0 with the bits of s cleared. */
  ghost predicate Clears(b0: seq<bool>, b1: seq<bool>, s: seq<nat>) {
    |b1| == |b0| && forall k :: 0 <= k < |b0| ==> (b1[k] <==> b0[k] && k !in s)
  }

  lemma ClearsNone(b: seq<bool>)
    ensures Clears(b, b, [])
  {
  }

  lemma ClearsOneMore(b0: seq<bool>, b1: seq<bool>, s: seq<nat>, x: nat)
    requires Clears(b0, b1, s) && x < |b0|
    ensures Clears(b0, b1[x := false], s + [x])
  {
  }

  /** The inode of a used slot, read off the disk. */
  lemma SlotIsSound(d: Image, total: nat, slot: nat)
    requires |d| >= 3 && Valid(Decode(d), total)
    requires slot < TFS_MAX_FILES && Used(Directory(d[2])[slot])
    ensures var e := Directory(d[2])[slot];
            && 3 <= e.inode < total
            && NodeOf(Decode(d), e) == ReadInode(d[e.inode])
            && InodeOk(ReadInode(d[e.inode]), total)
            && (forall b :: b in ReadInode(d[e.inode]).blocks ==> 3 <= b < total)
            && NoDuplicates(ReadInode(d[e.inode]).blocks)
  {
    var f := Decode(d);
    var e := f.dir[slot];
    NodeDecoded(d, e);
    var n := NodeOf(f, e);
    forall i, j | 0 <= i < j < |n.blocks| ensures n.blocks[i] != n.blocks[j] {
      assert Owned(f, slot)[i + 1] == n.blocks[i] && Owned(f, slot)[j + 1] == n.blocks[j];
    }
  }

  lemma EntryErased(md: Block, md1: Block, i: nat)
    requires i < TFS_MAX_FILES && SameOutside(md, md1, i)
    requires WordAt(md1, 5 * i) == 0
    ensures Directory(md1[20 * i + 4 := 0]) == Directory(md)[i := DirEntry(0, [])]
  {
    var md' := md1[20 * i + 4 := 0];
    CStringIs(md'[20 * i + 4..20 * i + 20], []);
    assert WordAt(md', 5 * i) == WordAt(md1, 5 * i);
    EntryReplaced(md, md', i);
  }

  /** What the writes of remove add up to. */
  lemma Removed(d: Image, d': Image, total: nat, slot: nat)
    requires |d| >= 3 && Valid(Decode(d), total) && |d'| == |d|
    requires slot < TFS_MAX_FILES && Used(Decode(d).dir[slot])
    requires Directory(d'[2]) == Directory(d[2])[slot := DirEntry(0, [])]
    requires Clears(Bitmap.Bits(d[1]), Bitmap.Bits(d'[1]), Owned(Decode(d), slot))
    requires forall k :: 3 <= k < |d| ==> d'[k] == d[k]
    ensures Valid(Decode(d'), total)
    ensures Decode(d).dir[slot].name in Names(Decode(d))
    ensures View(Decode(d')) == View(Decode(d)) - {Decode(d).dir[slot].name}
    ensures KeepsNames(Decode(d), Decode(d'), Decode(d).dir[slot].name)
    ensures Lookup(Decode(d), Decode(d).dir[slot].name) == Decode(d).dir[slot]
    ensures Bitmap.FreeCount(Decode(d').bits, total)
         == Bitmap.FreeCount(Decode(d).bits, total) + 1 + |NodeOf(Decode(d), Decode(d).dir[slot]).blocks|
  {
    var f, f' := Decode(d), Decode(d');
    forall k: nat | k >= 3 ensures SameBlock(f, f', k) {
      DecodeSameBlock(d, d', k);
    }
    RemovesOneFile(f, f', total, slot);
    RemovesGain(f, f', total, slot);
    FoundAt(f, total, slot);
  }

  /** The bytes outside entry i are the same. */
  ghost predicate SameOutside(md: Block, md': Block, i: nat) {
    forall k :: 0 <= k < TFS_BLOCK_SIZE && !(20 * i <= k < 20 * i + 20) ==> md'[k] == md[k]
  }

  /** Writing a name and an inode number over an entry replaces that directory entry. */
  lemma EntryWritten(md: Block, md': Block, i: nat, name: Name, ino: Word)
    requires i < TFS_MAX_FILES && IsName(name)
    requires SameOutside(md, md', i)
    requires md'[20 * i + 4..20 * i + 4 + |name|] == name && md'[20 * i + 4 + |name|] == 0
    requires WordAt(md', 5 * i) == ino
    ensures Directory(md') == Directory(md)[i := DirEntry(ino, name)]
  {
    var s := md'[20 * i + 4..20 * i + 20];
    assert s[..|name|] == md'[20 * i + 4..20 * i + 4 + |name|];
    CStringIs(s, name);
    EntryReplaced(md, md', i);
  }

  /** Blocks taken from a valid image are distinct free data blocks. */
  lemma TakenBlocks(f: Fs, total: nat, b: seq<bool>, ino: nat, blocks: seq<nat>)
    requires Valid(f, total) && Takes(f.bits, b, total, [ino] + blocks)
    ensures FreeBlocks(f, total, [ino] + blocks)
    ensures forall k :: 0 <= k < |blocks| ==> 3 <= blocks[k] < total
    ensures 3 <= ino < total && ino !in blocks
  {
    var all := [ino] + blocks;
    assert f.bits[0] && f.bits[1] && f.bits[2];
    forall b | b in all ensures 3 <= b < total && !f.bits[b] {
      assert b != 0 && b != 1 && b != 2;
    }
    assert all[0] == ino && ino in all;
    forall k | 0 <= k < |blocks| ensures 3 <= blocks[k] < total && blocks[k] != ino {
      assert blocks[k] == all[k + 1] && blocks[k] in all;
    }
  }

  lemma ReadyToWrite(f: Fs, total: nat, b: seq<bool>, node: Block, size: nat, ino: nat, blocks: seq<nat>)
    requires Valid(f, total) && Takes(f.bits, b, total, [ino] + blocks)
    requires InodeListed(node, size, blocks)
    ensures forall k :: 0 <= k < |blocks| ==> 3 <= blocks[k] < total
    ensures 3 <= ino < total && ino !in blocks
    ensures ReadInode(node) == Inode(size, blocks)
  {
    TakenBlocks(f, total, b, ino, blocks);
    InodeIs(node, size, blocks);
  }

  /** What the writes that add a file add up to. */
  lemma Added(d: Image, d': Image, total: nat, slot: nat, e: DirEntry, n: Inode)
    requires |d| >= 3 && Valid(Decode(d), total) && |d'| == |d|
    requires slot < TFS_MAX_FILES && !Used(Decode(d).dir[slot])
    requires IsName(e.name) && SlotOf(Decode(d).dir, e.name) == -1
    requires Directory(d'[2]) == Directory(d[2])[slot := e]
    requires Takes(Decode(d).bits, Bitmap.Bits(d'[1]), total, [e.inode] + n.blocks)
    requires e.inode < |d| && ReadInode(d'[e.inode]) == n
    requires n.filesize <= TFS_BLOCK_SIZE * |n.blocks|
    requires forall k :: 3 <= k < |d| && k != e.inode && k !in n.blocks ==> d'[k] == d[k]
    ensures Valid(Decode(d'), total)
    ensures View(Decode(d')) == View(Decode(d))[e.name := FileBytes(d', n)]
    ensures e.name in Names(Decode(d')) && Lookup(Decode(d'), e.name) == e
    ensures KeepsNames(Decode(d), Decode(d'), e.name)
    ensures Bitmap.FreeCount(Decode(d').bits, total) + |n.blocks| + 1 == Bitmap.FreeCount(Decode(d).bits, total)
  {
    var f, f' := Decode(d), Decode(d');
    TakenBlocks(f, total, f'.bits, e.inode, n.blocks);
    NodeDecoded(d', e);
    forall k: nat | k >= 3 && k !in [e.inode] + n.blocks ensures SameBlock(f, f', k) {
      DecodeSameBlock(d, d', k);
    }
    AddsOneFile(f, f', total, slot, e, n);
    AddsCost(f, f', total, slot, e, n);
  }

  /** The identifier of a file leads to its contents. */
  lemma FileOfName(d: Image, total: nat, name: Name)
    requires |d| >= 3 && Valid(Decode(d), total) && name in Names(Decode(d))
    ensures var id := Lookup(Decode(d), name).inode;
            && Live(Decode(d), id) && 3 <= id < total <= |d|
            && View(Decode(d))[name] == FileBytes(d, ReadInode(d[id]))
  {
    var f := Decode(d);
    var i :| 0 <= i < |f.dir| && Used(f.dir[i]) && f.dir[i].name == name;
    FoundAt(f, total, i);
    SlotIsSound(d, total, i);
  }
}
