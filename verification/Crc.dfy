/**
  The CRC-32 shared by the bootloader, the core and the image builder (polynomial 0x04C11DB7, most significant bit
  first).
*/
module Crc {
  import opened Bytes
  import opened Division

  const POLYNOMIAL: word := 0x04c1_1db7
  const INITIAL: word := 0xffff_ffff

  function PolyBits(): (p: seq<bool>)
    ensures |p| == 32
  {
    WordBits(POLYNOMIAL)
  }

  /** One turn of the shift register for one message bit. */
  function Step(c: seq<bool>, bit: bool): (r: seq<bool>)
    requires |c| == 32
    ensures |r| == 32
  {
    var shifted := c[1..] + [false];
    if c[0] != bit then XorBits(shifted, PolyBits()) else shifted
  }

  function Feed(c: seq<bool>, m: seq<bool>): (r: seq<bool>)
    requires |c| == 32
    ensures |r| == 32
    decreases |m|
  {
    if m == [] then c else Feed(Step(c, m[0]), m[1..])
  }

  /** The bits of a message in the order the loops of `crc_update` meet them. */
  function DataBits(data: seq<byte>): (m: seq<bool>)
    ensures |m| == 8 * |data|
  {
    if data == [] then [] else ByteBits(data[0]) + DataBits(data[1..])
  }

  function Crc32(crc: word, data: seq<byte>): word {
    BitsWord(Feed(WordBits(crc), DataBits(data)))
  }

  lemma {:induction false} FeedConcat(c: seq<bool>, m: seq<bool>, n: seq<bool>)
    requires |c| == 32
    ensures Feed(c, m + n) == Feed(Feed(c, m), n)
    decreases |m|
  {
    if m == [] {
      assert m + n == n;
    } else {
      assert (m + n)[1..] == m[1..] + n;
      FeedConcat(Step(c, m[0]), m[1..], n);
    }
  }

  lemma {:induction false} DataBitsConcat(x: seq<byte>, y: seq<byte>)
    ensures DataBits(x + y) == DataBits(x) + DataBits(y)
  {
    if x == [] {
      assert x + y == y;
    } else {
      assert (x + y)[1..] == x[1..] + y;
      DataBitsConcat(x[1..], y);
    }
  }

  /** A CRC may be computed in pieces, as `checkFlashCRC` does. */
  lemma CrcConcat(crc: word, x: seq<byte>, y: seq<byte>)
    ensures Crc32(crc, x + y) == Crc32(Crc32(crc, x), y)
  {
    DataBitsConcat(x, y);
    FeedConcat(WordBits(crc), DataBits(x), DataBits(y));
    BitsWordInverse(Feed(WordBits(crc), DataBits(x)));
  }

  // ----- the loops of crc_update

  function Mask(b: nat): (i: nat)
    ensures i > 0 <==> b < 8
  {
    if b < 8 then [0x80, 0x40, 0x20, 0x10, 8, 4, 2, 1][b] else 0
  }

  lemma {:induction false} BitAt(x: nat, width: nat, b: nat, mask: nat)
    requires b < width && mask == Pow2(width - 1 - b)
    ensures mask > 0 && Bits(x, width)[b] == (x / mask % 2 == 1)
  {
    if b < width - 1 {
      BitAt(x / 2, width - 1, b, Pow2(width - 2 - b));
      DivideTwice(x, Pow2(width - 2 - b));
    }
  }

  lemma MaskTestsBit(c: byte, b: nat)
    requires b < 8
    ensures ByteBits(c)[b] == (c / Mask(b) % 2 == 1)
  {
    assert Pow2(3) == 8 && Pow2(5) == 32 && Pow2(7) == 128;
    BitAt(c, 8, b, Mask(b));
  }

  lemma {:induction false} FeedOneMore(c: seq<bool>, m: seq<bool>, k: nat)
    requires |c| == 32 && k < |m|
    ensures Feed(c, m[..k + 1]) == Step(Feed(c, m[..k]), m[k])
  {
    assert m[..k + 1] == m[..k] + [m[k]];
    FeedConcat(c, m[..k], [m[k]]);
    assert Feed(Feed(c, m[..k]), [m[k]]) == Feed(Step(Feed(c, m[..k]), m[k]), []);
  }

  /** One turn of the inner loop of `crc_update`: the C shift, test and exclusive-or. */
  method CrcBit(crc0: word, one: bool) returns (crc: word)
    ensures WordBits(crc) == Step(WordBits(crc0), one)
  {
    TopBit(crc0);
    ShiftLeftBits(crc0);
    var bit := crc0 >= 0x8000_0000;
    if one {
      bit := !bit;
    }
    crc := ShiftLeft(crc0);
    if bit {
      BitsWordInverse(XorBits(WordBits(crc), PolyBits()));
      crc := XorWord(crc, POLYNOMIAL);
    }
  }

  /** The inner loop of `crc_update`: eight turns of the register. */
  method CrcByte(crc0: word, c: byte) returns (crc: word)
    ensures crc == Crc32(crc0, [c])
  {
    hide WordBits;
    hide Step;
    crc := crc0;
    ghost var b := 0;
    var i := 0x80;
    while i > 0
      invariant 0 <= b <= 8 && i == Mask(b)
      invariant WordBits(crc) == Feed(WordBits(crc0), ByteBits(c)[..b])
      decreases i
    {
      FeedOneMore(WordBits(crc0), ByteBits(c), b);
      MaskTestsBit(c, b);
      crc := CrcBit(crc, c / i % 2 == 1);
      i, b := i / 2, b + 1;
    }
    assert ByteBits(c)[..8] == ByteBits(c) == DataBits([c]);
    WordBitsInverse(crc);
  }

  /** `crc_update` of the bootloader and `crc32` of the core. */
  method CrcUpdate(crc0: word, data: seq<byte>) returns (crc: word)
    ensures crc == Crc32(crc0, data)
  {
    crc := crc0;
    WordBitsInverse(crc0);
    var k := 0;
    while k < |data|
      invariant 0 <= k <= |data|
      invariant crc == Crc32(crc0, data[..k])
    {
      crc := CrcByte(crc, data[k]);
      assert data[..k + 1] == data[..k] + [data[k]];
      CrcConcat(crc0, data[..k], [data[k]]);
      k := k + 1;
    }
    assert data[..k] == data;
  }

  // ----- the register never forgets a difference

  ghost predicate DifferAt(a: seq<bool>, c: seq<bool>, i: int)
    requires |a| == |c|
  {
    0 <= i < |a| && a[i] != c[i]
  }

  lemma PolyIsOdd()
    ensures PolyBits()[31]
  {
    LastBit(POLYNOMIAL, 32);
  }

  lemma StepInjective(a: seq<bool>, c: seq<bool>, bit: bool, i: int)
    requires |a| == |c| == 32
    requires DifferAt(a, c, i)
    ensures exists k :: DifferAt(Step(a, bit), Step(c, bit), k)
  {
    PolyIsOdd();
    if a[0] != c[0] {
      assert DifferAt(Step(a, bit), Step(c, bit), 31);
    } else {
      assert DifferAt(Step(a, bit), Step(c, bit), i - 1);
    }
  }

  /** While a burst lasts, a difference moves up by at most one place per bit, so 32 bits cannot push it out. */
  lemma StepKeepsLowDifference(a: seq<bool>, c: seq<bool>, p: bool, q: bool, i: int)
    requires |a| == |c| == 32
    requires DifferAt(a, c, i) && i > 0
    ensures exists k :: i - 1 <= k && DifferAt(Step(a, p), Step(c, q), k)
  {
    PolyIsOdd();
    if (a[0] != p) != (c[0] != q) {
      assert DifferAt(Step(a, p), Step(c, q), 31);
    } else {
      assert DifferAt(Step(a, p), Step(c, q), i - 1);
    }
  }

  lemma {:induction false} StaysDifferent(a: seq<bool>, c: seq<bool>, m: seq<bool>, n: seq<bool>, i: int, burst: nat)
    requires |a| == |c| == 32 && |m| == |n|
    requires DifferAt(a, c, i) && burst <= i
    requires forall k :: burst <= k < |m| ==> m[k] == n[k]
    ensures Feed(a, m) != Feed(c, n)
    decreases |m|
  {
    if m != [] {
      if burst == 0 {
        StepInjective(a, c, m[0], i);
        var k :| DifferAt(Step(a, m[0]), Step(c, n[0]), k);
        StaysDifferent(Step(a, m[0]), Step(c, n[0]), m[1..], n[1..], k, 0);
      } else {
        StepKeepsLowDifference(a, c, m[0], n[0], i);
        var k :| i - 1 <= k && DifferAt(Step(a, m[0]), Step(c, n[0]), k);
        StaysDifferent(Step(a, m[0]), Step(c, n[0]), m[1..], n[1..], k, burst - 1);
      }
    }
  }

  /** Bit-level burst detection: two messages that differ only inside 32 consecutive bits never collide. */
  lemma {:induction false} BurstOfBitsDetected(c: seq<bool>, m: seq<bool>, n: seq<bool>, lo: int)
    requires |c| == 32 && |m| == |n| && m != n
    requires forall k :: 0 <= k < |m| && !(lo <= k < lo + 32) ==> m[k] == n[k]
    ensures Feed(c, m) != Feed(c, n)
    decreases |m|
  {
    if m[0] == n[0] {
      assert m == [m[0]] + m[1..] && n == [n[0]] + n[1..];
      assert forall k :: 0 <= k < |m| - 1 ==> m[1..][k] == m[k + 1] && n[1..][k] == n[k + 1];
      BurstOfBitsDetected(Step(c, m[0]), m[1..], n[1..], lo - 1);
    } else {
      PolyIsOdd();
      assert DifferAt(Step(c, m[0]), Step(c, n[0]), 31);
      StaysDifferent(Step(c, m[0]), Step(c, n[0]), m[1..], n[1..], 31, 31);
    }
  }

  lemma {:induction false} DataBitsAt(data: seq<byte>, i: nat, b: nat)
    requires i < |data| && b < 8
    ensures DataBits(data)[8 * i + b] == ByteBits(data[i])[b]
  {
    if i > 0 {
      DataBitsAt(data[1..], i - 1, b);
    }
  }

  lemma BytesDifferInABit(x: byte, y: byte) returns (b: nat)
    requires x != y
    ensures b < 8 && ByteBits(x)[b] != ByteBits(y)[b]
  {
    ByteBitsInverse(x);
    ByteBitsInverse(y);
    assert ByteBits(x) != ByteBits(y);
    b :| 0 <= b < 8 && ByteBits(x)[b] != ByteBits(y)[b];
  }

  lemma DataBitsDiffer(x: seq<byte>, y: seq<byte>)
    requires |x| == |y| && x != y
    ensures DataBits(x) != DataBits(y)
  {
    var i :| 0 <= i < |x| && x[i] != y[i];
    var b := BytesDifferInABit(x[i], y[i]);
    DataBitsAt(x, i, b);
    DataBitsAt(y, i, b);
  }

  lemma DataBitsAgree(x: seq<byte>, y: seq<byte>, k: int)
    requires |x| == |y| && 0 <= k < 8 * |x|
    requires x[k / 8] == y[k / 8]
    ensures DataBits(x)[k] == DataBits(y)[k]
  {
    DataBitsAt(x, k / 8, k % 8);
    DataBitsAt(y, k / 8, k % 8);
  }

  /** Messages of equal length that differ, but only within four consecutive bytes, have different CRCs. */
  lemma BurstDetected(crc: word, x: seq<byte>, y: seq<byte>, lo: int)
    requires |x| == |y| && x != y
    requires forall k :: 0 <= k < |x| && !(lo <= k < lo + 4) ==> x[k] == y[k]
    ensures Crc32(crc, x) != Crc32(crc, y)
  {
    var m, n := DataBits(x), DataBits(y);
    forall k | 0 <= k < |m| && !(8 * lo <= k < 8 * lo + 32)
      ensures m[k] == n[k]
    {
      DataBitsAgree(x, y, k);
    }
    DataBitsDiffer(x, y);
    BurstOfBitsDetected(WordBits(crc), m, n, 8 * lo);
    BitsWordInverse(Feed(WordBits(crc), m));
    BitsWordInverse(Feed(WordBits(crc), n));
  }

  // ----- the register divides

  /** The coefficients of the generator below x^32: x^32 + x^26 + x^23 + x^22 + x^16 + x^12 + ... + x + 1. */
  lemma PolynomialIs()
    ensures POLYNOMIAL == Pow2(26) + Pow2(23) + Pow2(22) + Pow2(16) + Pow2(12) + Pow2(11) + Pow2(10) + Pow2(8) +
                          Pow2(7) + Pow2(5) + Pow2(4) + Pow2(2) + Pow2(1) + Pow2(0)
  {
    assert Pow2(8) == 0x100 && Pow2(16) == 0x1_0000;
    assert Pow2(22) == 0x40_0000 && Pow2(26) == 0x400_0000;
  }

  /** A message followed by its own remainder leaves no remainder. */
  lemma RemainderOfSealed(c: seq<bool>, m: seq<bool>)
    requires |c| == 32
    ensures Feed(c, m + Feed(c, m)) == seq(32, _ => false)
  {
    FeedConcat(c, m, Feed(c, m));
    ShiftedOut(Feed(c, m), Feed(c, m));
  }

  /** Bits that meet themselves are shifted out without a division. */
  lemma {:induction false} ShiftedOut(c: seq<bool>, m: seq<bool>)
    requires |m| <= |c| == 32 && c[..|m|] == m && forall i :: |m| <= i < 32 ==> !c[i]
    ensures Feed(c, m) == seq(32, _ => false)
    decreases |m|
  {
    if m != [] {
      assert c[0] == m[0];
      var next := c[1..] + [false];
      assert next[..|m| - 1] == m[1..];
      ShiftedOut(next, m[1..]);
    }
  }
}
