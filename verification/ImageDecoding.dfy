/** From bytes on disk to the decoded image, and what storing a block does to it. */
module ImageDecoding {
  import opened Collections
  import opened Bitmap
  import opened DiskFormat
  import opened TfsImage

  function NodesUpTo(d: Image, n: nat): (r: seq<Inode>)
    requires n <= |d|
    ensures |r| == n
  {
    if n == 0 then [] else NodesUpTo(d, n - 1) + [ReadInode(d[n - 1])]
  }

  lemma {:induction false} NodesUpToAt(d: Image, n: nat, k: nat)
    requires k < n <= |d|
    ensures NodesUpTo(d, n)[k] == ReadInode(d[k])
  {
    if k < n - 1 {
      NodesUpToAt(d, n - 1, k);
    }
  }

  function Decode(d: Image): (f: Fs)
    requires |d| >= 3
    ensures WellFormed(f) && f.data == d
  {
    Fs(Directory(d[TFS_DIRECTORY_BLOCK]), Bits(d[TFS_ALLOCATION_BLOCK]), NodesUpTo(d, |d|), d)
  }

  lemma DecodeSameBlock(d: Image, d': Image, k: nat)
    requires 3 <= |d| == |d'|
    requires k < |d| ==> d[k] == d'[k]
    ensures SameBlock(Decode(d), Decode(d'), k)
  {
    if k < |d| {
      NodesUpToAt(d, |d|, k);
      NodesUpToAt(d', |d|, k);
    }
  }

  lemma NodeDecoded(d: Image, e: DirEntry)
    requires |d| >= 3 && e.inode < |d|
    ensures NodeOf(Decode(d), e) == ReadInode(d[e.inode])
  {
    NodesUpToAt(d, |d|, e.inode);
  }

  /** Byte k of a file after one block of the disk is replaced. */
  lemma FileByteAfterStore(d: Image, n: Inode, j: nat, c: Block, k: nat)
    requires j < |n.blocks| && n.blocks[j] < |d|
    requires NoDuplicates(n.blocks)
    requires k < TFS_BLOCK_SIZE * |n.blocks|
    ensures FileByte(d[n.blocks[j] := c], n, k)
         == if k / TFS_BLOCK_SIZE == j then c[k % TFS_BLOCK_SIZE] else FileByte(d, n, k)
  {
    var i := k / TFS_BLOCK_SIZE;
    assert i < |n.blocks|;
  }

  /** A file whose blocks are all zero reads as zeros. */
  lemma ZeroFile(d: Image, n: Inode)
    requires n.filesize <= TFS_BLOCK_SIZE * |n.blocks|
    requires forall j :: 0 <= j < |n.blocks| ==> n.blocks[j] < |d| && d[n.blocks[j]] == ZERO_BLOCK
    ensures FileBytes(d, n) == seq(n.filesize, _ => 0)
  {
    forall k | 0 <= k < n.filesize ensures FileByte(d, n, k) == 0 {
      assert k / TFS_BLOCK_SIZE < |n.blocks|;
    }
  }
}
