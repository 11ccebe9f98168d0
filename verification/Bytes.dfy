/** Bytes, 32-bit words and their bits, as the firmware's `uint8_t` and `uint32_t` see them. */
module Bytes {

  type byte = b: int | 0 <= b < 256
  type word = w: int | 0 <= w < 0x1_0000_0000

  ghost function Pow2(k: nat): nat {
    if k == 0 then 1 else 2 * Pow2(k - 1)
  }

  /** The low `width` bits of `x`, most significant first. */
  function Bits(x: nat, width: nat): (s: seq<bool>)
    ensures |s| == width
  {
    if width == 0 then [] else Bits(x / 2, width - 1) + [x % 2 == 1]
  }

  /** The number whose bits, most significant first, are `s`. */
  function Value(s: seq<bool>): nat {
    if s == [] then 0 else 2 * Value(s[..|s| - 1]) + if s[|s| - 1] then 1 else 0
  }

  lemma {:induction false} ValueOfBits(x: nat, width: nat)
    requires x < Pow2(width)
    ensures Value(Bits(x, width)) == x
  {
    if width != 0 {
      ValueOfBits(x / 2, width - 1);
      assert Bits(x, width)[..width - 1] == Bits(x / 2, width - 1);
    }
  }

  lemma {:induction false} BitsOfValue(s: seq<bool>)
    ensures Value(s) < Pow2(|s|)
    ensures Bits(Value(s), |s|) == s
  {
    if s != [] {
      var front := s[..|s| - 1];
      BitsOfValue(front);
      assert Value(s) / 2 == Value(front);
      assert front + [s[|s| - 1]] == s;
    }
  }

  lemma LastBit(x: nat, width: nat)
    requires width > 0
    ensures Bits(x, width)[width - 1] == (x % 2 == 1)
  {
  }

  lemma {:induction false} FirstBit(x: nat, width: nat)
    requires width > 0 && x < Pow2(width)
    ensures Bits(x, width)[0] == (x >= Pow2(width - 1))
  {
    if width > 1 {
      FirstBit(x / 2, width - 1);
    }
  }

  lemma {:induction false} DropFirstBit(x: nat, width: nat)
    ensures Bits(x, width + 1)[1..] == Bits(x, width)
  {
    if width > 0 {
      DropFirstBit(x / 2, width - 1);
    }
  }

  lemma {:induction false} BitsIgnoreCarry(x: nat, width: nat)
    ensures Bits(x + Pow2(width), width) == Bits(x, width)
  {
    if width > 0 {
      assert (x + Pow2(width)) / 2 == x / 2 + Pow2(width - 1);
      BitsIgnoreCarry(x / 2, width - 1);
    }
  }

  lemma DoubledBits(x: nat, width: nat)
    requires x < Pow2(width + 1)
    ensures Bits(if x < Pow2(width) then 2 * x else 2 * x - Pow2(width + 1), width + 1) ==
            Bits(x, width + 1)[1..] + [false]
  {
    if x >= Pow2(width) {
      BitsIgnoreCarry(2 * x - Pow2(width + 1), width + 1);
    }
    DropFirstBit(x, width);
  }

  lemma {:induction false} AllOnes(width: nat)
    ensures Pow2(width) > 0
    ensures Bits(Pow2(width) - 1, width) == seq(width, i => true)
  {
    if width > 0 {
      AllOnes(width - 1);
      assert (Pow2(width) - 1) / 2 == Pow2(width - 1) - 1;
    }
  }

  lemma {:induction false} AllZeros(width: nat)
    ensures Bits(0, width) == seq(width, i => false)
  {
    if width > 0 {
      AllZeros(width - 1);
    }
  }

  lemma Pow2Is()
    ensures Pow2(8) == 256
    ensures Pow2(32) == 0x1_0000_0000
  {
    assert Pow2(4) == 16;
    assert Pow2(8) == 256;
    assert Pow2(12) == 4096;
    assert Pow2(16) == 65536;
    assert Pow2(20) == 0x10_0000;
    assert Pow2(24) == 0x100_0000;
    assert Pow2(28) == 0x1000_0000;
  }

  function ByteBits(b: byte): (s: seq<bool>)
    ensures |s| == 8
  {
    Bits(b, 8)
  }

  function WordBits(w: word): (s: seq<bool>)
    ensures |s| == 32
  {
    Bits(w, 32)
  }

  function BitsByte(s: seq<bool>): byte
    requires |s| == 8
  {
    BitsOfValue(s); Pow2Is();
    Value(s)
  }

  function BitsWord(s: seq<bool>): word
    requires |s| == 32
  {
    BitsOfValue(s); Pow2Is();
    Value(s)
  }

  lemma ByteBitsInverse(b: byte)
    ensures BitsByte(ByteBits(b)) == b
  {
    Pow2Is();
    ValueOfBits(b, 8);
  }

  lemma WordBitsInverse(w: word)
    ensures BitsWord(WordBits(w)) == w
  {
    Pow2Is();
    ValueOfBits(w, 32);
  }

  lemma BitsWordInverse(s: seq<bool>)
    requires |s| == 32
    ensures WordBits(BitsWord(s)) == s
  {
    BitsOfValue(s);
  }

  function AndBits(s: seq<bool>, t: seq<bool>): (r: seq<bool>)
    requires |s| == |t|
    ensures |r| == |s|
  {
    seq(|s|, i requires 0 <= i < |s| => s[i] && t[i])
  }

  function XorBits(s: seq<bool>, t: seq<bool>): (r: seq<bool>)
    requires |s| == |t|
    ensures |r| == |s|
  {
    seq(|s|, i requires 0 <= i < |s| => s[i] != t[i])
  }

  /** C's `x & y` on bytes. */
  function And(x: byte, y: byte): byte {
    BitsByte(AndBits(ByteBits(x), ByteBits(y)))
  }

  /** C's `x ^ y` on bytes. */
  function Xor(x: byte, y: byte): byte {
    BitsByte(XorBits(ByteBits(x), ByteBits(y)))
  }

  /** C's `x ^ y` on 32-bit words. */
  function XorWord(x: word, y: word): word {
    BitsWord(XorBits(WordBits(x), WordBits(y)))
  }

  lemma TopBit(w: word)
    ensures WordBits(w)[0] == (w >= 0x8000_0000)
  {
    Pow2Is();
    FirstBit(w, 32);
  }

  /** C's `w << 1` on 32-bit words. */
  function ShiftLeft(w: word): word {
    2 * w % 0x1_0000_0000
  }

  lemma ShiftLeftBits(w: word)
    ensures WordBits(ShiftLeft(w)) == WordBits(w)[1..] + [false]
  {
    assert Pow2(31) == 0x8000_0000 && Pow2(32) == 0x1_0000_0000 by { Pow2Is(); }
    assert ShiftLeft(w) == if w < 0x8000_0000 then 2 * w else 2 * w - 0x1_0000_0000;
    DoubledBits(w, 31);
  }

  lemma AndSelf(x: byte)
    ensures And(x, x) == x
  {
    assert AndBits(ByteBits(x), ByteBits(x)) == ByteBits(x);
    ByteBitsInverse(x);
  }

  lemma AndErased(x: byte)
    ensures And(0xFF, x) == x
  {
    Pow2Is();
    AllOnes(8);
    assert AndBits(ByteBits(0xFF), ByteBits(x)) == ByteBits(x);
    ByteBitsInverse(x);
  }

  lemma XorUndo(x: byte, y: byte)
    ensures Xor(Xor(x, y), y) == x
  {
    var s := XorBits(ByteBits(x), ByteBits(y));
    BitsOfValue(s);
    assert XorBits(s, ByteBits(y)) == ByteBits(x);
    ByteBitsInverse(x);
  }

  lemma XorZero(x: byte)
    ensures Xor(x, 0) == x
  {
    AllZeros(8);
    assert XorBits(ByteBits(x), ByteBits(0)) == ByteBits(x);
    ByteBitsInverse(x);
  }

  /** Only zero leaves a byte alone. */
  lemma XorChanges(x: byte, y: byte)
    requires Xor(x, y) == x
    ensures y == 0
  {
    var s := XorBits(ByteBits(x), ByteBits(y));
    BitsOfValue(s);
    assert s == ByteBits(x);
    forall i | 0 <= i < 8
      ensures !ByteBits(y)[i]
    {
      assert s[i] == (ByteBits(x)[i] != ByteBits(y)[i]);
    }
    AllZeros(8);
    assert ByteBits(y) == ByteBits(0);
    ByteBitsInverse(y);
    ByteBitsInverse(0);
  }

  /** The four bytes of a word in memory order (little endian). */
  function WordBytes(w: word): (s: seq<byte>)
    ensures |s| == 4
  {
    [w % 256, w / 256 % 256, w / 0x1_0000 % 256, w / 0x100_0000]
  }

  function BytesWord(s: seq<byte>): word
    requires |s| == 4
  {
    var b0: int, b1: int, b2: int, b3: int := s[0], s[1], s[2], s[3];
    b0 + 256 * b1 + 0x1_0000 * b2 + 0x100_0000 * b3
  }

  /** The least significant byte comes first. */
  lemma WordBytesAre(w: word)
    ensures var s := WordBytes(w);
            w == s[0] + 0x100 * s[1] as nat + 0x1_0000 * s[2] as nat + 0x100_0000 * s[3] as nat
  {
    hide WordBytes;
    WordBytesInverse(w);
  }

  lemma WordBytesInverse(w: word)
    ensures BytesWord(WordBytes(w)) == w
  {
    var w1, w2, w3 := w / 256, w / 0x1_0000, w / 0x100_0000;
    assert w == 256 * w1 + w % 256;
    assert w1 == 256 * w2 + w1 % 256;
    assert w2 == 256 * w3 + w2 % 256;
  }

  lemma BytesWordInverse(s: seq<byte>)
    requires |s| == 4
    ensures WordBytes(BytesWord(s)) == s
  {
    var b0: int, b1: int, b2: int, b3: int := s[0], s[1], s[2], s[3];
    var w1 := b1 + 256 * b2 + 0x1_0000 * b3;
    assert BytesWord(s) == b0 + 256 * w1;
    assert BytesWord(s) / 256 == w1 && BytesWord(s) % 256 == b0;
    var w2 := b2 + 256 * b3;
    assert BytesWord(s) / 0x1_0000 == w2 && w1 % 256 == b1;
    assert BytesWord(s) / 0x100_0000 == b3 && w2 % 256 == b2;
  }

  function Min(a: nat, b: nat): nat {
    if a <= b then a else b
  }
}
