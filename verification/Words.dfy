/** Machine words as the kernel sees them: 32-bit values stored big-endian in byte
    memory, and the bit operators of C on them. A word is the number it stands for;
    the operators are defined bit by bit, lowest bit first. */
module Words {
  type Byte = b: int | 0 <= b < 0x100
  type Word = w: int | 0 <= w < 0x1_0000_0000

  function Pow2(n: nat): (r: nat)
    ensures r >= 1
  {
    if n == 0 then 1 else 2 * Pow2(n - 1)
  }

  /** Bit j of w, as C reads it: (w >> j) & 1. */
  predicate Bit(w: nat, j: nat) {
    if j == 0 then w % 2 == 1 else Bit(w / 2, j - 1)
  }

  function BitValue(b: bool): nat {
    if b then 1 else 0
  }

  /** a | b */
  function Or(a: nat, b: nat): nat
    decreases a + b
  {
    if a == 0 && b == 0 then 0 else 2 * Or(a / 2, b / 2) + BitValue(a % 2 == 1 || b % 2 == 1)
  }

  /** a & b */
  function And(a: nat, b: nat): nat
    decreases a + b
  {
    if a == 0 && b == 0 then 0 else 2 * And(a / 2, b / 2) + BitValue(a % 2 == 1 && b % 2 == 1)
  }

  /** ~a for a word: every bit of the all-ones word that a does not have. */
  function Complement(a: Word): Word {
    0xffff_ffff - a
  }

  lemma {:induction false} OrBit(a: nat, b: nat, k: nat)
    ensures Bit(Or(a, b), k) <==> Bit(a, k) || Bit(b, k)
    decreases k
  {
    if a == 0 && b == 0 {
      ZeroBit(k);
    } else if k > 0 {
      OrBit(a / 2, b / 2, k - 1);
    }
  }

  lemma {:induction false} AndBit(a: nat, b: nat, k: nat)
    ensures Bit(And(a, b), k) <==> Bit(a, k) && Bit(b, k)
    decreases k
  {
    if a == 0 && b == 0 {
      ZeroBit(k);
    } else if k > 0 {
      AndBit(a / 2, b / 2, k - 1);
    }
  }

  /** Subtracting from the n-bit all-ones value flips each of the n bits. */
  lemma {:induction false} ComplementBit(a: nat, n: nat, k: nat)
    requires a < Pow2(n) && k < n
    ensures Bit(Pow2(n) - 1 - a, k) <==> !Bit(a, k)
  {
    var p := Pow2(n - 1);
    assert Pow2(n) == 2 * p;
    HalfComplement(p, a);
    if k > 0 {
      ComplementBit(a / 2, n - 1, k - 1);
    }
  }

  lemma HalfComplement(p: nat, a: nat)
    requires a < 2 * p
    ensures (2 * p - 1 - a) / 2 == p - 1 - a / 2
    ensures (2 * p - 1 - a) % 2 == 1 - a % 2
    ensures a / 2 < p
  {
  }

  lemma {:induction false} ShiftedOneBit(j: nat, k: nat)
    ensures Bit(Pow2(j), k) <==> j == k
  {
    if k > 0 {
      if j > 0 {
        ShiftedOneBit(j - 1, k - 1);
      } else {
        ZeroBit(k - 1);
      }
    }
  }

  lemma {:induction false} ZeroBit(k: nat)
    ensures !Bit(0, k)
  {
    if k > 0 {
      ZeroBit(k - 1);
    }
  }

  lemma {:induction false} Fits(a: nat, b: nat, n: nat)
    requires a < Pow2(n) && b < Pow2(n)
    ensures Or(a, b) < Pow2(n) && And(a, b) < Pow2(n)
  {
    if n > 0 {
      Fits(a / 2, b / 2, n - 1);
    }
  }

  lemma {:induction false} Pow2Grows(j: nat, n: nat)
    requires j < n
    ensures Pow2(j) < Pow2(n)
  {
    if j > 0 {
      Pow2Grows(j - 1, n - 1);
    }
  }

  /** A value of n bits that is not the all-ones value has a zero bit. */
  lemma {:induction false} SomeZero(w: nat, n: nat) returns (j: nat)
    requires w < Pow2(n) - 1
    ensures j < n && !Bit(w, j)
  {
    if w % 2 == 0 {
      j := 0;
    } else {
      j := SomeZero(w / 2, n - 1);
      j := j + 1;
    }
  }

  lemma {:induction false} OnesBit(n: nat, j: nat)
    requires j < n
    ensures Bit(Pow2(n) - 1, j)
  {
    if j > 0 {
      OnesBit(n - 1, j - 1);
    }
  }

  lemma WordRange()
    ensures Pow2(32) == 0x1_0000_0000
  {
    assert Pow2(4) == 0x10 && Pow2(8) == 0x100 && Pow2(12) == 0x1000 && Pow2(16) == 0x1_0000;
    assert Pow2(20) == 0x10_0000 && Pow2(24) == 0x100_0000 && Pow2(28) == 0x1000_0000;
  }

  /** The word with bit j set or cleared, as C writes it with a shifted mask. */
  function WithBit(w: Word, j: nat, value: bool): Word
    requires j < 32
  {
    WordRange();
    Pow2Grows(j, 32);
    Fits(w, Pow2(j), 32);
    Fits(w, Complement(Pow2(j)), 32);
    if value then Or(w, Pow2(j)) else And(w, Complement(Pow2(j)))
  }

  /** Setting one bit changes exactly that bit. */
  lemma SetBitOnly(w: Word, j: nat, value: bool, k: nat)
    requires j < 32 && k < 32
    ensures Bit(WithBit(w, j, value), k) == if k == j then value else Bit(w, k)
  {
    WordRange();
    Pow2Grows(j, 32);
    ShiftedOneBit(j, k);
    OrBit(w, Pow2(j), k);
    ComplementBit(Pow2(j), 32, k);
    AndBit(w, Complement(Pow2(j)), k);
  }

  /** The word test of the allocator: a word other than 0xffffffff has a zero bit. */
  lemma FullWord(w: Word)
    ensures w == 0xffff_ffff <==> forall j: nat :: j < 32 ==> Bit(w, j)
  {
    WordRange();
    if w == 0xffff_ffff {
      forall j: nat | j < 32 ensures Bit(w, j) {
        OnesBit(32, j);
      }
    } else {
      var j := SomeZero(w, 32);
    }
  }

  /** The big-endian word made of four bytes. */
  function Join(b0: Byte, b1: Byte, b2: Byte, b3: Byte): Word {
    ((b0 * 0x100 + b1) * 0x100 + b2) * 0x100 + b3
  }

  /** The i-th 32-bit word of a byte memory. */
  function WordAt(s: seq<Byte>, i: nat): Word
    requires 4 * i + 4 <= |s|
  {
    Join(s[4 * i], s[4 * i + 1], s[4 * i + 2], s[4 * i + 3])
  }

  function Bytes(w: Word): (r: seq<Byte>)
    ensures |r| == 4
  {
    var w1 := w / 0x100;
    var w2 := w1 / 0x100;
    [w2 / 0x100, w2 % 0x100, w1 % 0x100, w % 0x100]
  }

  /** The byte memory after storing w as its i-th word. */
  function StoreWord(s: seq<Byte>, i: nat, w: Word): (r: seq<Byte>)
    requires 4 * i + 4 <= |s|
    ensures |r| == |s|
    ensures forall k :: 0 <= k < |s| && k / 4 != i ==> r[k] == s[k]
  {
    s[..4 * i] + Bytes(w) + s[4 * i + 4..]
  }

  lemma SplitJoin(w: Word)
    ensures var b := Bytes(w); Join(b[0], b[1], b[2], b[3]) == w
  {
  }

  lemma JoinSplit(b0: Byte, b1: Byte, b2: Byte, b3: Byte)
    ensures Bytes(Join(b0, b1, b2, b3)) == [b0, b1, b2, b3]
  {
    LowByte(b0, b1);
    LowByte(b0 * 0x100 + b1, b2);
    LowByte((b0 * 0x100 + b1) * 0x100 + b2, b3);
  }

  lemma LowByte(high: nat, low: Byte)
    ensures (high * 0x100 + low) / 0x100 == high
    ensures (high * 0x100 + low) % 0x100 == low
  {
  }

  /** The bits of a number put together from a high part and a low part of n bits. */
  lemma {:induction false} JoinedBit(high: nat, low: nat, n: nat, j: nat)
    requires low < Pow2(n)
    ensures Bit(high * Pow2(n) + low, j) <==> if j < n then Bit(low, j) else Bit(high, j - n)
  {
    if n > 0 {
      var p := Pow2(n - 1);
      Halve(high, p, low);
      if j > 0 {
        JoinedBit(high, low / 2, n - 1, j - 1);
      }
    }
  }

  lemma Halve(high: nat, p: nat, low: nat)
    requires low < 2 * p
    ensures (high * (2 * p) + low) / 2 == high * p + low / 2 && low / 2 < p
    ensures (high * (2 * p) + low) % 2 == low % 2
  {
    assert high * (2 * p) == 2 * (high * p);
  }

  /** In byte memory the lowest eight bits of a word are in its last byte. */
  lemma BitOfByte(s: seq<Byte>, i: nat, j: nat)
    requires 4 * i + 4 <= |s| && j < 32
    ensures Bit(WordAt(s, i), j) <==> Bit(s[4 * i + 3 - j / 8], j % 8)
  {
    hide Bit;
    assert Pow2(8) == 0x100;
    var b0: nat, b1, b2, b3 := s[4 * i], s[4 * i + 1], s[4 * i + 2], s[4 * i + 3];
    var w2: nat := b0 * 0x100 + b1;
    var w1: nat := w2 * 0x100 + b2;
    JoinedBit(w1, b3, 8, j);
    if j >= 8 {
      JoinedBit(w2, b2, 8, j - 8);
    }
    if j >= 16 {
      JoinedBit(b0, b1, 8, j - 16);
    }
  }

  /** A stored word is read back, and every other word is untouched. */
  lemma StoredWord(s: seq<Byte>, i: nat, w: Word)
    requires 4 * i + 4 <= |s|
    ensures WordAt(StoreWord(s, i, w), i) == w
    ensures forall k: nat :: k != i && 4 * k + 4 <= |s| ==> WordAt(StoreWord(s, i, w), k) == WordAt(s, k)
  {
    SplitJoin(w);
    var r := StoreWord(s, i, w);
    forall k: nat | k != i && 4 * k + 4 <= |s| ensures WordAt(r, k) == WordAt(s, k) {
      assert r[4 * k] == s[4 * k] && r[4 * k + 1] == s[4 * k + 1];
      assert r[4 * k + 2] == s[4 * k + 2] && r[4 * k + 3] == s[4 * k + 3];
    }
  }
}
