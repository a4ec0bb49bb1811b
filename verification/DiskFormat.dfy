/** The on-disk format of TFS (fs/tfs.h): blocks of bytes, the directory block, inode
    blocks. Everything here decodes bytes; nothing is stored twice. */
module DiskFormat {
  import opened Words

  const TFS_BLOCK_SIZE := 512
  const TFS_HEADER_BLOCK := 0
  const TFS_ALLOCATION_BLOCK := 1
  const TFS_DIRECTORY_BLOCK := 2
  const TFS_FILENAME_MAX := 16
  const TFS_BLOCKS_MAX := 127
  const TFS_MAX_FILES := 25
  const DIRENTRY_SIZE := 20
  const TFS_MAX_FILESIZE := 65024
  const TFS_MAX_BLOCKS := 4096

  type Block = s: seq<Byte> | |s| == 512 witness seq(512, _ => 0)

  const ZERO_BLOCK: Block := seq(512, _ => 0)

  /** A file name as the kernel accepts it: 1 to 15 characters, no terminator inside. */
  predicate IsName(name: seq<Byte>) {
    1 <= |name| < TFS_FILENAME_MAX && 0 !in name
  }

  /** The C string that starts a buffer: the bytes before the first zero. */
  function CString(s: seq<Byte>): (r: seq<Byte>)
    ensures r <= s && 0 !in r
    ensures |r| < |s| ==> s[|r|] == 0
  {
    if s == [] || s[0] == 0 then [] else [s[0]] + CString(s[1..])
  }

  lemma {:induction false} CStringIs(s: seq<Byte>, name: seq<Byte>)
    requires name < s && 0 !in name && s[|name|] == 0
    ensures CString(s) == name
  {
    if name != [] {
      CStringIs(s[1..], name[1..]);
    }
  }

  datatype DirEntry = DirEntry(inode: nat, name: seq<Byte>)

  function Entry(md: Block, i: nat): DirEntry
    requires i < TFS_MAX_FILES
  {
    DirEntry(WordAt(md, 5 * i), CString(md[20 * i + 4..20 * i + 20]))
  }

  function DirectoryUpTo(md: Block, n: nat): (d: seq<DirEntry>)
    requires DIRENTRY_SIZE * n <= |md|
    ensures |d| == n
  {
    if n == 0 then [] else DirectoryUpTo(md, n - 1) + [Entry(md, n - 1)]
  }

  /** The 25 entries of a directory block. */
  function Directory(md: Block): (d: seq<DirEntry>)
    ensures |d| == TFS_MAX_FILES
  {
    DirectoryUpTo(md, |md| / DIRENTRY_SIZE)
  }

  lemma {:induction false} DirectoryUpToAt(md: Block, n: nat, i: nat)
    requires i < n <= TFS_MAX_FILES
    ensures DirectoryUpTo(md, n)[i] == Entry(md, i)
  {
    if i < n - 1 {
      DirectoryUpToAt(md, n - 1, i);
    }
  }

  lemma DirectoryAt(md: Block, i: nat)
    requires i < TFS_MAX_FILES
    ensures Directory(md)[i] == Entry(md, i)
  {
    DirectoryUpToAt(md, |md| / DIRENTRY_SIZE, i);
  }

  /** Two directory blocks that agree on the bytes of an entry agree on the entry. */
  lemma SameEntry(md: Block, md': Block, i: nat)
    requires i < TFS_MAX_FILES
    requires forall k :: 20 * i <= k < 20 * i + 20 ==> md[k] == md'[k]
    ensures Entry(md, i) == Entry(md', i)
  {
    assert md[20 * i + 4..20 * i + 20] == md'[20 * i + 4..20 * i + 20];
    assert md[4 * (5 * i)] == md'[4 * (5 * i)] && md[4 * (5 * i) + 1] == md'[4 * (5 * i) + 1];
    assert md[4 * (5 * i) + 2] == md'[4 * (5 * i) + 2] && md[4 * (5 * i) + 3] == md'[4 * (5 * i) + 3];
  }

  /** Rewriting the bytes of one entry replaces that entry of the directory. */
  lemma EntryReplaced(md: Block, md': Block, i: nat)
    requires i < TFS_MAX_FILES
    requires forall k :: 0 <= k < TFS_BLOCK_SIZE && k / 20 != i ==> md[k] == md'[k]
    ensures Directory(md') == Directory(md)[i := Entry(md', i)]
  {
    forall j | 0 <= j < TFS_MAX_FILES
      ensures Directory(md')[j] == Directory(md)[i := Entry(md', i)][j]
    {
      DirectoryAt(md, j);
      DirectoryAt(md', j);
      if j != i {
        forall k | 20 * j <= k < 20 * j + 20 ensures md[k] == md'[k] {
          assert k / 20 == j;
        }
        SameEntry(md, md', j);
      }
    }
  }

  datatype Inode = Inode(filesize: nat, blocks: seq<nat>)

  /** The block numbers listed in the first n slots, up to the first unused slot. */
  function ListedUpTo(b: Block, n: nat): (r: seq<nat>)
    requires 4 * (n + 1) <= |b|
    ensures |r| <= n
  {
    if n == 0 then []
    else
      var r := ListedUpTo(b, n - 1);
      var w := WordAt(b, n);
      if |r| == n - 1 && w != 0 then r + [w] else r
  }

  function ReadInode(b: Block): (n: Inode)
    ensures |n.blocks| <= TFS_BLOCKS_MAX
  {
    Inode(WordAt(b, 0), ListedUpTo(b, |b| / 4 - 1))
  }

  /** The words of an inode block list exactly these blocks. */
  ghost predicate InodeListed(b: Block, size: nat, blocks: seq<nat>) {
    && |blocks| <= TFS_BLOCKS_MAX
    && WordAt(b, 0) == size
    && (forall k :: 0 <= k < |blocks| ==> WordAt(b, 1 + k) == blocks[k])
    && (|blocks| < TFS_BLOCKS_MAX ==> WordAt(b, 1 + |blocks|) == 0)
  }

  lemma {:induction false} ListedUpToIs(b: Block, size: nat, blocks: seq<nat>, n: nat)
    requires InodeListed(b, size, blocks) && 0 !in blocks && n <= TFS_BLOCKS_MAX
    ensures ListedUpTo(b, n) == if n <= |blocks| then blocks[..n] else blocks
  {
    if n > 0 {
      ListedUpToIs(b, size, blocks, n - 1);
      if n <= |blocks| {
        assert WordAt(b, 1 + (n - 1)) == blocks[n - 1];
        assert blocks[n - 1] in blocks;
      }
    }
  }

  /** The listed blocks are fixed by the words of the inode block. */
  lemma InodeIs(b: Block, size: nat, blocks: seq<nat>)
    requires InodeListed(b, size, blocks) && 0 !in blocks
    ensures ReadInode(b) == Inode(size, blocks)
  {
    ListedUpToIs(b, size, blocks, |b| / 4 - 1);
  }

  lemma {:induction false} ListedUpToWords(b: Block, n: nat)
    requires n <= TFS_BLOCKS_MAX
    ensures var r := ListedUpTo(b, n);
            && (forall k :: 0 <= k < |r| ==> r[k] == WordAt(b, 1 + k) && r[k] != 0)
            && (|r| < n ==> WordAt(b, 1 + |r|) == 0)
  {
    if n > 0 {
      ListedUpToWords(b, n - 1);
    }
  }

  /** Conversely, the words of an inode block are read off the inode it decodes to. */
  lemma InodeWords(b: Block)
    ensures InodeListed(b, ReadInode(b).filesize, ReadInode(b).blocks) && 0 !in ReadInode(b).blocks
  {
    ListedUpToWords(b, |b| / 4 - 1);
  }

  /** A walk over the slots stops exactly at the end of the list. */
  lemma EndOfList(b: Block, i: nat)
    requires i <= |ReadInode(b).blocks|
    requires i < TFS_BLOCKS_MAX ==> WordAt(b, 1 + i) == 0
    ensures i == |ReadInode(b).blocks|
  {
    var r := ListedUpTo(b, |b| / 4 - 1);
    ListedUpToWords(b, |b| / 4 - 1);
    forall j: nat | 1 <= j <= |r| ensures WordAt(b, j) != 0 {
      assert r[j - 1] == WordAt(b, 1 + (j - 1));
    }
  }
}
