/** Stores into byte memory, and the routines of lib/libc.c that the filesystem uses. */
module Memory {
  import opened Words

  /** One 32-bit store. */
  method StoreWord32(mem: array<Byte>, i: nat, w: Word)
    requires 4 * i + 4 <= mem.Length
    modifies mem
    ensures WordAt(mem[..], i) == w
    ensures mem[4 * i..4 * i + 4] == Bytes(w)
    ensures forall k :: 0 <= k < mem.Length && k / 4 != i ==> mem[k] == old(mem[k])
  {
    var b := Bytes(w);
    StoredWord(mem[..], i, w);
    mem[4 * i], mem[4 * i + 1], mem[4 * i + 2], mem[4 * i + 3] := b[0], b[1], b[2], b[3];
  }

  /** memcopy goes upwards, so the ranges may also overlap if the target's is the lower one. */
  method MemCopy(buflen: nat, target: array<Byte>, to: nat, source: array<Byte>, from: nat)
    requires to + buflen <= target.Length && from + buflen <= source.Length
    requires target == source ==> to <= from || from + buflen <= to
    modifies target
    ensures forall k :: 0 <= k < target.Length ==>
              target[k] == if to <= k < to + buflen then old(source[from + (k - to)]) else old(target[k])
  {
    for i := 0 to buflen
      invariant forall k :: 0 <= k < target.Length ==>
                  target[k] == if to <= k < to + i then old(source[from + (k - to)]) else old(target[k])
      invariant forall k :: from + i <= k < from + buflen ==> source[k] == old(source[k])
    {
      target[to + i] := source[from + i];
    }
  }

  method MemorySet(target: array<Byte>, value: Byte)
    modifies target
    ensures forall k :: 0 <= k < target.Length ==> target[k] == value
  {
    for i := 0 to target.Length
      invariant forall k :: 0 <= k < i ==> target[k] == value
    {
      target[i] := value;
    }
  }

  /** The bytes that stringcopy is documented to fill with zeros, behind the terminator, are. */
  predicate Padded(mem: seq<Byte>, source: seq<Byte>, to: nat, buflen: nat) {
    forall k :: to + |source| < k < to + buflen && k < |mem| ==> mem[k] == 0
  }

  /** Copies the C string source, of which only the characters are given, to the buflen
      bytes at offset to: at most buflen - 1 characters and one terminator. The bytes
      after the terminator keep their old value, so they are zero in the end exactly if
      there are none or they were zero before. */
  method StringCopy(target: array<Byte>, to: nat, source: seq<Byte>, buflen: nat)
    requires buflen > 0 && to + buflen <= target.Length
    modifies target
    ensures var n := if |source| < buflen then |source| else buflen - 1;
            && target[to..to + n] == source[..n]
            && target[to + n] == 0
            && forall k :: 0 <= k < target.Length && !(to <= k <= to + n) ==> target[k] == old(target[k])
    ensures Padded(target[..], source, to, buflen) <==> |source| >= buflen - 1 || old(Padded(target[..], source, to, buflen))
  {
    var i := 0;
    while i < buflen - 1
      invariant 0 <= i <= buflen - 1 && i <= |source|
      invariant forall k :: 0 <= k < i ==> target[to + k] == source[k]
      invariant forall k :: 0 <= k < target.Length && !(to <= k < to + i) ==> target[k] == old(target[k])
    {
      if i == |source| {
        target[to + i] := 0;
        assert target[to..to + i] == source[..i];
        return;
      }
      target[to + i] := source[i];
      i := i + 1;
    }
    target[to + i] := 0;
    assert target[to..to + i] == source[..i];
  }

  /** An empty string copied over three bytes that are not zero. */
  method PaddingFails() returns (target: array<Byte>)
    ensures target[..] == [0, 7, 7] && !Padded(target[..], [], 0, 3)
  {
    target := new Byte[] [7, 7, 7];
    StringCopy(target, 0, [], 3);
    assert target[..][1] == 7;
  }

  /** strncpy of the host library: pads with zeros up to buflen. */
  method StringCopyPadded(target: array<Byte>, to: nat, source: seq<Byte>, buflen: nat)
    requires to + buflen <= target.Length && |source| < buflen
    modifies target
    ensures target[to..to + |source|] == source && target[to + |source|] == 0
    ensures forall k :: 0 <= k < target.Length && !(to <= k < to + buflen) ==> target[k] == old(target[k])
  {
    for i := 0 to buflen
      invariant forall k :: 0 <= k < target.Length ==>
                  target[k] == if !(to <= k < to + i) then old(target[k])
                               else if k - to < |source| then source[k - to] else 0
    {
      target[to + i] := if i < |source| then source[i] else 0;
    }
    assert target[to + |source|] == 0;
    assert target[to..to + |source|] == source;
  }
}
