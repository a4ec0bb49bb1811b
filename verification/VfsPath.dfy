/** The pathname parser of the virtual filesystem. */
module VfsPath {
  import opened Words
  import opened DiskFormat

  const VFS_NAME_LENGTH: nat := 16
  const OPEN_BRACKET: Byte := 91
  const CLOSE_BRACKET: Byte := 93

  /** path names file on volume: either [volume]file, or just file with no volume. */
  predicate Names(path: seq<Byte>, volume: seq<Byte>, file: seq<Byte>) {
    && IsName(file)
    && (|| (volume == [] && path == file && path[0] != OPEN_BRACKET)
        || (Bracketed(path, volume, file) && |volume| <= VFS_NAME_LENGTH - 2))
  }

  predicate Bracketed(path: seq<Byte>, volume: seq<Byte>, file: seq<Byte>) {
    path == [OPEN_BRACKET] + volume + [CLOSE_BRACKET] + file && CLOSE_BRACKET !in volume
  }

  /** In a bracketed path the first closing bracket ends the volume. */
  lemma FirstBracket(path: seq<Byte>, v: seq<Byte>, f: seq<Byte>)
    ensures Bracketed(path, v, f) ==>
              && |v| + 1 < |path| && path[|v| + 1] == CLOSE_BRACKET && path[0] == OPEN_BRACKET
              && (forall k :: 1 <= k <= |v| ==> path[k] != CLOSE_BRACKET)
              && v == path[1..|v| + 1] && f == path[|v| + 2..]
  {
    if Bracketed(path, v, f) {
      assert forall k :: 1 <= k <= |v| ==> path[k] == v[k - 1];
    }
  }

  lemma BracketedOne(path: seq<Byte>, v: seq<Byte>, f: seq<Byte>, w: seq<Byte>, g: seq<Byte>)
    ensures Bracketed(path, v, f) && Bracketed(path, w, g) ==> v == w && f == g
  {
    FirstBracket(path, v, f);
    FirstBracket(path, w, g);
  }

  /** A path names at most one file on one volume. */
  lemma NamesOne(path: seq<Byte>, v: seq<Byte>, f: seq<Byte>, w: seq<Byte>, g: seq<Byte>)
    requires Names(path, v, f) && Names(path, w, g)
    ensures v == w && f == g
  {
    BracketedOne(path, v, f, w, g);
  }

  /** The byte at a position of a C string; the string ends with a zero byte. */
  function CharAt(path: seq<Byte>, i: nat): Byte {
    if i < |path| then path[i] else 0
  }

  /** vfs_parse_pathname. */
  method ParsePathname(path: seq<Byte>) returns (ok: bool, volume: seq<Byte>, file: seq<Byte>)
    requires 0 !in path
    ensures ok ==> Names(path, volume, file)
    ensures !ok ==> forall v, f :: !Names(path, v, f)
  {
    hide Names, IsName;
    volume, file := [], [];
    var p := 0;
    if CharAt(path, 0) == OPEN_BRACKET {
      p := 1;
      var i := 0;
      while i < VFS_NAME_LENGTH - 1
        invariant 0 <= i <= VFS_NAME_LENGTH - 1 && p == i + 1 <= |path|
        invariant volume == path[1..p] && CLOSE_BRACKET !in volume
      {
        if CharAt(path, p) == 0 {
          NoVolume(path);
          return false, volume, file;
        }
        if CharAt(path, p) == CLOSE_BRACKET {
          p := p + 1;
          break;
        }
        volume := volume + [path[p]];
        p := p + 1;
        i := i + 1;
      }
      if i >= VFS_NAME_LENGTH - 1 {
        LongVolume(path);
        return false, volume, file;
      }
      assert Bracketed(path, volume, path[p..]);
    }
    ok, file := ParseFile(path, p);
    if ok {
      GoodFile(path, volume, p);
    } else {
      BadFile(path, volume, p);
    }
  }

  /** The second loop of the parser: the rest of the path is the file name. */
  method ParseFile(path: seq<Byte>, start: nat) returns (ok: bool, file: seq<Byte>)
    requires 0 !in path && start <= |path|
    ensures ok <==> IsName(path[start..])
    ensures ok ==> file == path[start..]
  {
    file := [];
    var p, i := start, 0;
    while i < VFS_NAME_LENGTH
      invariant 0 <= i <= VFS_NAME_LENGTH && p == start + i <= |path|
      invariant file == path[start..p]
    {
      if CharAt(path, p) == 0 {
        if i == 0 {
          return false, file;
        }
        return true, file;
      }
      file := file + [path[p]];
      p := p + 1;
      i := i + 1;
    }
    return false, file;
  }

  lemma NoVolume(path: seq<Byte>)
    requires path != [] && path[0] == OPEN_BRACKET && CLOSE_BRACKET !in path[1..]
    ensures forall v, f :: !Names(path, v, f)
  {
    assert forall k :: 1 <= k < |path| ==> path[k] == path[1..][k - 1];
    forall v, f ensures !Names(path, v, f) {
      FirstBracket(path, v, f);
    }
  }

  lemma LongVolume(path: seq<Byte>)
    requires |path| >= VFS_NAME_LENGTH && path[0] == OPEN_BRACKET && CLOSE_BRACKET !in path[1..VFS_NAME_LENGTH]
    ensures forall v, f :: !Names(path, v, f)
  {
    assert forall k :: 1 <= k < VFS_NAME_LENGTH ==> path[k] == path[1..VFS_NAME_LENGTH][k - 1];
    forall v, f ensures !Names(path, v, f) {
      FirstBracket(path, v, f);
    }
  }

  lemma GoodFile(path: seq<Byte>, volume: seq<Byte>, start: nat)
    requires start <= |path| && IsName(path[start..])
    requires if path != [] && path[0] == OPEN_BRACKET
             then Bracketed(path, volume, path[start..]) && |volume| <= VFS_NAME_LENGTH - 2
             else start == 0 && volume == []
    ensures Names(path, volume, path[start..])
  {
    assert path[0..] == path;
  }

  lemma BadFile(path: seq<Byte>, volume: seq<Byte>, start: nat)
    requires start <= |path| && !IsName(path[start..])
    requires if path != [] && path[0] == OPEN_BRACKET
             then start == |volume| + 2 && Bracketed(path, volume, path[start..])
             else start == 0
    ensures forall v, f :: !Names(path, v, f)
  {
    assert path[0..] == path;
    forall v, f ensures !Names(path, v, f) {
      BracketedOne(path, v, f, volume, path[start..]);
      FirstBracket(path, v, f);
    }
  }

  /** Every file of a volume whose name is short enough can be named. */
  lemma PathOf(volume: seq<Byte>, file: seq<Byte>)
    requires IsName(file) && CLOSE_BRACKET !in volume && |volume| <= VFS_NAME_LENGTH - 2
    ensures Names([OPEN_BRACKET] + volume + [CLOSE_BRACKET] + file, volume, file)
  {
  }

  /** Putting a path together and parsing it gives back the volume and the file. */
  method ComposeAndParse(volume: seq<Byte>, file: seq<Byte>) returns (ok: bool, v: seq<Byte>, f: seq<Byte>)
    requires IsName(file) && CLOSE_BRACKET !in volume && |volume| <= VFS_NAME_LENGTH - 2 && 0 !in volume
    ensures ok && v == volume && f == file
  {
    var path := [OPEN_BRACKET] + volume + [CLOSE_BRACKET] + file;
    PathOf(volume, file);
    ok, v, f := ParsePathname(path);
    if ok {
      NamesOne(path, v, f, volume, file);
    }
  }

  /** A file on a mount point can be named exactly if the mount point has at most fourteen
      characters and no closing bracket, although the table of mount points takes fifteen. */
  lemma NameableExactly(volume: seq<Byte>, file: seq<Byte>)
    ensures (exists path :: 0 !in path && Names(path, volume, file))
            <==> 1 <= |file| <= 15 && 0 !in file && |volume| <= 14 && 0 !in volume && CLOSE_BRACKET !in volume
  {
    hide IsName;
    NameIs(file);
    var path := [OPEN_BRACKET] + volume + [CLOSE_BRACKET] + file;
    if IsName(file) && 0 !in volume && CLOSE_BRACKET !in volume && |volume| <= VFS_NAME_LENGTH - 2 {
      PathOf(volume, file);
      assert 0 !in path && Names(path, volume, file);
    }
    forall p | 0 !in p && Names(p, volume, file)
      ensures 0 !in volume && CLOSE_BRACKET !in volume && |volume| <= VFS_NAME_LENGTH - 2
    {
      if volume != [] {
        assert forall k :: 0 <= k < |volume| ==> volume[k] == p[k + 1];
      }
    }
  }

  lemma NameIs(name: seq<Byte>)
    ensures IsName(name) <==> 1 <= |name| <= 15 && 0 !in name
  {
  }
}
