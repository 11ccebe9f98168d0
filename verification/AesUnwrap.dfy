/**
  AES key unwrap. The block cipher is any bijection on 16-byte blocks; the specification is the wrap of section
  2.2.1 of RFC 3394, kept on flat byte sequences like the code's buffers.
*/
module AesUnwrap {
  import opened Bytes
  import opened Division

  /** Encryption and decryption under one key. */
  ghost predicate Cipher(enc: seq<byte> -> seq<byte>, dec: seq<byte> -> seq<byte>) {
    forall b: seq<byte> :: |b| == 16 ==> |enc(b)| == 16 && |dec(b)| == 16 && dec(enc(b)) == b && enc(dec(b)) == b
  }

  /** The 64-bit register A and the n 64-bit registers R[1..n]. */
  datatype State = State(a: seq<byte>, r: seq<byte>)

  ghost predicate WellFormed(s: State, n: nat) {
    |s.a| == 8 && |s.r| == 8 * n
  }

  /** Byte `k` (0 the least significant) of a number. */
  function ByteOf(t: nat, k: nat): byte {
    if k == 0 then t % 256 else ByteOf(t / 256, k - 1)
  }

  /** A ^ t, with t as a 64-bit big-endian number. */
  function XorCounter(a: seq<byte>, t: nat): (r: seq<byte>)
    requires |a| == 8
    ensures |r| == 8
  {
    seq(8, i requires 0 <= i < 8 => Xor(a[i], ByteOf(t, 7 - i)))
  }

  /** What the code does instead: only the last byte is touched, with t truncated to a byte. */
  function XorLow(a: seq<byte>, t: nat): (r: seq<byte>)
    requires |a| == 8
    ensures |r| == 8
  {
    a[7 := Xor(a[7], t % 256)]
  }

  function Block(r: seq<byte>, i: nat): (b: seq<byte>)
    requires 1 <= i && 8 * i <= |r|
    ensures |b| == 8
  {
    r[8 * (i - 1)..8 * i]
  }

  function SetBlock(r: seq<byte>, i: nat, b: seq<byte>): (s: seq<byte>)
    requires 1 <= i && 8 * i <= |r| && |b| == 8
    ensures |s| == |r|
  {
    r[..8 * (i - 1)] + b + r[8 * i..]
  }

  lemma BlockOfSet(r: seq<byte>, i: nat, b: seq<byte>)
    requires 1 <= i && 8 * i <= |r| && |b| == 8
    ensures Block(SetBlock(r, i, b), i) == b
    ensures SetBlock(SetBlock(r, i, b), i, Block(r, i)) == r
  {
  }

  /** Which register step `t` of 6n works on. */
  function Register(t: nat, n: nat): (i: nat)
    requires 1 <= t && 1 <= n
    ensures 1 <= i <= n
  {
    (t - 1) % n + 1
  }

  /** Section 2.2.1: B = AES(K, A | R[i]); A = MSB(64, B) ^ t; R[i] = LSB(64, B). */
  ghost function WrapStep(enc: seq<byte> -> seq<byte>, s: State, t: nat, n: nat): State
    requires 1 <= t && 1 <= n && WellFormed(s, n)
  {
    var i := Register(t, n);
    var b := enc(s.a + Block(s.r, i));
    if |b| != 16 then s else State(XorCounter(b[..8], t), SetBlock(s.r, i, b[8..]))
  }

  /** Section 2.2.2, with `low` choosing the code's way of adding t. */
  function UnwrapStep(dec: seq<byte> -> seq<byte>, s: State, t: nat, n: nat, low: bool): (s': State)
    requires 1 <= t && 1 <= n && |s.a| == 8 && |s.r| == 8 * n
    ensures |s'.a| == 8 && |s'.r| == 8 * n
  {
    var i := Register(t, n);
    var b := dec((if low then XorLow(s.a, t) else XorCounter(s.a, t)) + Block(s.r, i));
    if |b| != 16 then s else State(b[..8], SetBlock(s.r, i, b[8..]))
  }

  /** Steps 1 to t of the wrap. */
  ghost function WrapTo(enc: seq<byte> -> seq<byte>, s: State, t: nat, n: nat): (s': State)
    requires 1 <= n && WellFormed(s, n)
    ensures WellFormed(s', n)
  {
    if t == 0 then s else WrapStep(enc, WrapTo(enc, s, t - 1, n), t, n)
  }

  /** Steps t down to 1 of the unwrap. */
  ghost function UnwrapFrom(dec: seq<byte> -> seq<byte>, s: State, t: nat, n: nat, low: bool): (s': State)
    requires 1 <= n && WellFormed(s, n)
    ensures WellFormed(s', n)
    decreases t
  {
    if t == 0 then s else UnwrapFrom(dec, UnwrapStep(dec, s, t, n, low), t - 1, n, low)
  }

  /** The initial value of section 2.2.3.1. */
  function Iv(): (a: seq<byte>)
    ensures |a| == 8
  {
    [0xa6, 0xa6, 0xa6, 0xa6, 0xa6, 0xa6, 0xa6, 0xa6]
  }

  /** The wrapped key: C[0] = A, C[i] = R[i]. */
  ghost function Wrap(enc: seq<byte> -> seq<byte>, plain: seq<byte>, n: nat): (c: seq<byte>)
    requires 1 <= n && |plain| == 8 * n
    ensures |c| == 8 * (n + 1)
  {
    var s := WrapTo(enc, State(Iv(), plain), 6 * n, n);
    s.a + s.r
  }

  // ----- the wrap in its other form

  /** The first form of section 2.2.1, where each step takes the first register and all registers move up. */
  ghost function ShiftStep(enc: seq<byte> -> seq<byte>, s: State, t: nat, n: nat): State
    requires 1 <= n && WellFormed(s, n)
  {
    var b := enc(s.a + s.r[..8]);
    if |b| != 16 then s else State(XorCounter(b[..8], t), s.r[8..] + b[8..])
  }

  ghost function ShiftTo(enc: seq<byte> -> seq<byte>, s: State, t: nat, n: nat): (s': State)
    requires 1 <= n && WellFormed(s, n)
    ensures WellFormed(s', n)
  {
    if t == 0 then s else ShiftStep(enc, ShiftTo(enc, s, t - 1, n), t, n)
  }

  /** The registers from number `k` on, and then those before. */
  ghost function Rotated(s: State, k: nat): State
    requires 8 * k <= |s.r|
  {
    State(s.a, s.r[8 * k..] + s.r[..8 * k])
  }

  lemma RotatedStep(enc: seq<byte> -> seq<byte>, s: State, t: nat, n: nat, k: nat)
    requires 1 <= t && 1 <= n && WellFormed(s, n) && k == (t - 1) % n &&
             forall b: seq<byte> :: |b| == 16 ==> |enc(b)| == 16
    ensures k < n &&
            ShiftStep(enc, Rotated(s, k), t, n) == Rotated(WrapStep(enc, s, t, n), if k + 1 < n then k + 1 else 0)
  {
    hide XorCounter;
    var i := Register(t, n);
    assert Rotated(s, k).r[..8] == Block(s.r, i);
    var b := enc(s.a + Block(s.r, i));
    assert Rotated(s, k).r[8..] == s.r[8 * i..] + s.r[..8 * k];
    var r := SetBlock(s.r, i, b[8..]);
    if i < n {
      assert r[8 * i..] + r[..8 * i] == (s.r[8 * i..] + s.r[..8 * k]) + b[8..];
    } else {
      assert r == (s.r[8 * i..] + s.r[..8 * k]) + b[8..];
      assert r[0..] + r[..0] == r;
    }
  }

  lemma NextRegister(t: nat, n: nat)
    requires 1 <= t && 1 <= n
    ensures t % n == if (t - 1) % n + 1 < n then (t - 1) % n + 1 else 0
  {
    var q, k := (t - 1) / n, (t - 1) % n;
    assert t - 1 == q * n + k;
    if k + 1 < n {
      QuotientIs(t, n, q, k + 1);
    } else {
      assert t == q * n + n == (q + 1) * n;
      QuotientIs(t, n, q + 1, 0);
    }
  }

  lemma {:induction false} ShiftingIsRotating(enc: seq<byte> -> seq<byte>, s: State, t: nat, n: nat)
    requires 1 <= n && WellFormed(s, n) && forall b: seq<byte> :: |b| == 16 ==> |enc(b)| == 16
    ensures t % n < n && ShiftTo(enc, s, t, n) == Rotated(WrapTo(enc, s, t, n), t % n)
  {
    hide Rotated;
    hide ShiftStep;
    hide WrapStep;
    if t == 0 {
      NotRotated(s);
    } else {
      NextRegister(t, n);
      ShiftingIsRotating(enc, s, t - 1, n);
      RotatedStep(enc, WrapTo(enc, s, t - 1, n), t, n, (t - 1) % n);
    }
  }

  lemma NotRotated(s: State)
    ensures Rotated(s, 0) == s
  {
  }

  /** Both forms of the wrap come to the same. */
  lemma WrapByShifting(enc: seq<byte> -> seq<byte>, plain: seq<byte>, n: nat)
    requires 1 <= n && |plain| == 8 * n && forall b: seq<byte> :: |b| == 16 ==> |enc(b)| == 16
    ensures var s := ShiftTo(enc, State(seq(8, _ => 0xa6), plain), 6 * n, n); Wrap(enc, plain, n) == s.a + s.r
  {
    hide Rotated;
    hide ShiftTo;
    hide WrapTo;
    assert Iv() == seq(8, _ => 0xa6);
    QuotientIs(6 * n, n, 6, 0);
    ShiftingIsRotating(enc, State(Iv(), plain), 6 * n, n);
    NotRotated(WrapTo(enc, State(Iv(), plain), 6 * n, n));
  }

  // ----- one step undoes the other

  lemma XorCounterUndo(a: seq<byte>, t: nat)
    requires |a| == 8
    ensures XorCounter(XorCounter(a, t), t) == a
  {
    hide Xor;
    forall i | 0 <= i < 8
      ensures XorCounter(XorCounter(a, t), t)[i] == a[i]
    {
      XorUndo(a[i], ByteOf(t, 7 - i));
    }
  }

  lemma ByteOfSmall(t: nat, k: nat)
    requires t < 256
    ensures ByteOf(t, k) == if k == 0 then t else 0
  {
    if k > 0 {
      ByteOfSmall(t / 256, k - 1);
    }
  }

  /** Up to 255 the code's shortcut is exact. */
  lemma LowIsCounter(a: seq<byte>, t: nat)
    requires |a| == 8 && t < 256
    ensures XorLow(a, t) == XorCounter(a, t)
  {
    hide Xor;
    forall i | 0 <= i < 8
      ensures XorLow(a, t)[i] == XorCounter(a, t)[i]
    {
      ByteOfSmall(t, 7 - i);
      XorZero(a[i]);
    }
  }

  lemma CipherAt(enc: seq<byte> -> seq<byte>, dec: seq<byte> -> seq<byte>, b: seq<byte>)
    requires Cipher(enc, dec) && |b| == 16
    ensures |enc(b)| == 16 && |dec(b)| == 16 && dec(enc(b)) == b && enc(dec(b)) == b
  {
  }

  lemma UnwrapUndoesWrapStep(enc: seq<byte> -> seq<byte>, dec: seq<byte> -> seq<byte>, s: State, t: nat, n: nat)
    requires Cipher(enc, dec) && 1 <= t && 1 <= n && WellFormed(s, n)
    ensures WellFormed(WrapStep(enc, s, t, n), n)
    ensures UnwrapStep(dec, WrapStep(enc, s, t, n), t, n, false) == s
  {
    hide Register;
    hide XorCounter;
    hide Block;
    hide SetBlock;
    hide Cipher;
    var i := Register(t, n);
    CipherAt(enc, dec, s.a + Block(s.r, i));
    var b := enc(s.a + Block(s.r, i));
    XorCounterUndo(b[..8], t);
    BlockOfSet(s.r, i, b[8..]);
    Halves(b, s.a, Block(s.r, i));
  }

  lemma Halves(b: seq<byte>, x: seq<byte>, y: seq<byte>)
    requires |b| == 16 && |x| == 8
    ensures b[..8] + b[8..] == b && (x + y)[..8] == x && (x + y)[8..] == y
  {
    PartsOf(x, y);
  }

  lemma WrapUndoesUnwrapStep(enc: seq<byte> -> seq<byte>, dec: seq<byte> -> seq<byte>, s: State, t: nat, n: nat)
    requires Cipher(enc, dec) && 1 <= t && 1 <= n && WellFormed(s, n)
    ensures WrapStep(enc, UnwrapStep(dec, s, t, n, false), t, n) == s
  {
    hide Register;
    hide XorCounter;
    hide Block;
    hide SetBlock;
    hide Cipher;
    var i := Register(t, n);
    var x := XorCounter(s.a, t) + Block(s.r, i);
    CipherAt(enc, dec, x);
    var b := dec(x);
    BlockOfSet(s.r, i, b[8..]);
    XorCounterUndo(s.a, t);
    Halves(b, XorCounter(s.a, t), Block(s.r, i));
  }

  lemma {:induction false} UnwrapUndoesWrap(enc: seq<byte> -> seq<byte>, dec: seq<byte> -> seq<byte>, s: State, t: nat,
                                            n: nat)
    requires Cipher(enc, dec) && 1 <= n && WellFormed(s, n)
    ensures UnwrapFrom(dec, WrapTo(enc, s, t, n), t, n, false) == s
  {
    hide WrapStep;
    hide UnwrapStep;
    if t > 0 {
      UnwrapUndoesWrapStep(enc, dec, WrapTo(enc, s, t - 1, n), t, n);
      UnwrapUndoesWrap(enc, dec, s, t - 1, n);
    }
  }

  lemma {:induction false} WrapUndoesUnwrap(enc: seq<byte> -> seq<byte>, dec: seq<byte> -> seq<byte>, s: State, t: nat,
                                            n: nat)
    requires Cipher(enc, dec) && 1 <= n && WellFormed(s, n)
    ensures WrapTo(enc, UnwrapFrom(dec, s, t, n, false), t, n) == s
    decreases t
  {
    hide WrapStep;
    hide UnwrapStep;
    if t > 0 {
      WrapUndoesUnwrap(enc, dec, UnwrapStep(dec, s, t, n, false), t - 1, n);
      WrapUndoesUnwrapStep(enc, dec, s, t, n);
    }
  }

  // ----- the code's unwrap

  lemma {:induction false} LowAgrees(dec: seq<byte> -> seq<byte>, s: State, t: nat, n: nat)
    requires 1 <= n && WellFormed(s, n) && t < 256
    ensures UnwrapFrom(dec, s, t, n, true) == UnwrapFrom(dec, s, t, n, false)
    decreases t
  {
    hide XorCounter;
    hide XorLow;
    if t > 0 {
      LowIsCounter(s.a, t);
      LowAgrees(dec, UnwrapStep(dec, s, t, n, false), t - 1, n);
    }
  }

  /** The registers `aes_unwrap` ends with for a wrapped key `c`. */
  ghost function Unwrapped(dec: seq<byte> -> seq<byte>, c: seq<byte>, n: nat): (s: State)
    requires 1 <= n && |c| == 8 * (n + 1)
    ensures WellFormed(s, n)
  {
    UnwrapFrom(dec, State(c[..8], c[8..]), 6 * n, n, true)
  }

  /** For up to 42 registers, `aes_unwrap` accepts `c` with result `plain` exactly when `c` is the wrap of `plain`. */
  lemma AcceptedExactlyWhenWrapped(enc: seq<byte> -> seq<byte>, dec: seq<byte> -> seq<byte>, c: seq<byte>,
                                   plain: seq<byte>, n: nat)
    requires Cipher(enc, dec) && 1 <= n <= 42 && |c| == 8 * (n + 1) && |plain| == 8 * n
    ensures Unwrapped(dec, c, n) == State(Iv(), plain) <==> c == Wrap(enc, plain, n)
  {
    hide UnwrapFrom;
    hide WrapTo;
    var s := State(c[..8], c[8..]);
    LowAgrees(dec, s, 6 * n, n);
    WrapUndoesUnwrap(enc, dec, s, 6 * n, n);
    UnwrapUndoesWrap(enc, dec, State(Iv(), plain), 6 * n, n);
    var w := WrapTo(enc, State(Iv(), plain), 6 * n, n);
    assert c[..8] + c[8..] == c;
    PartsOf(w.a, w.r);
  }

  lemma PartsOf(a: seq<byte>, r: seq<byte>)
    requires |a| == 8
    ensures (a + r)[..8] == a && (a + r)[8..] == r
  {
  }

  // ----- why 42

  function Identity(b: seq<byte>): seq<byte> {
    b
  }

  ghost function XorUpTo(x: byte, k: nat, t: nat): byte {
    if t == 0 then x else Xor(XorUpTo(x, k, t - 1), ByteOf(t, k))
  }

  lemma {:induction false} HigherBytesOfNext(t: nat, k: nat)
    requires t % 2 == 0 && k >= 1
    ensures ByteOf(t + 1, k) == ByteOf(t, k)
  {
    assert (t + 1) / 256 == t / 256;
  }

  lemma {:induction false} ZeroBytes(k: nat)
    ensures ByteOf(0, k) == 0
  {
    if k > 0 {
      ZeroBytes(k - 1);
    }
  }

  /** The exclusive-or of a higher byte over a run of counters does not cancel at even counters. */
  lemma {:induction false} XorUpToIs(x: byte, k: nat, t: nat)
    requires k >= 1
    ensures XorUpTo(x, k, t) == if t % 2 == 0 then Xor(x, ByteOf(t, k)) else x
  {
    hide Xor;
    if t == 0 {
      ZeroBytes(k);
      XorZero(x);
    } else {
      XorUpToIs(x, k, t - 1);
      if t % 2 == 1 {
        HigherBytesOfNext(t - 1, k);
        XorUndo(x, ByteOf(t, k));
      }
    }
  }

  lemma {:induction false} IdentityWrap(s: State, t: nat, n: nat, i: nat)
    requires 1 <= n && WellFormed(s, n) && i < 8
    ensures WrapTo(Identity, s, t, n).r == s.r
    ensures WrapTo(Identity, s, t, n).a[i] == XorUpTo(s.a[i], 7 - i, t)
  {
    hide Xor;
    hide WrapStep;
    hide ByteOf;
    if t > 0 {
      IdentityWrap(s, t - 1, n, i);
      IdentityStep(WrapTo(Identity, s, t - 1, n), t, n);
    }
  }

  lemma IdentityStep(s: State, t: nat, n: nat)
    requires 1 <= t && 1 <= n && WellFormed(s, n)
    ensures WrapStep(Identity, s, t, n) == State(XorCounter(s.a, t), s.r)
    ensures UnwrapStep(Identity, s, t, n, true) == State(XorLow(s.a, t), s.r)
  {
    hide XorCounter;
    hide XorLow;
    var i := Register(t, n);
    var x, y := s.a + Block(s.r, i), XorLow(s.a, t) + Block(s.r, i);
    assert x[..8] == s.a && x[8..] == Block(s.r, i);
    assert y[..8] == XorLow(s.a, t) && y[8..] == Block(s.r, i);
    assert SetBlock(s.r, i, Block(s.r, i)) == s.r;
  }

  lemma {:induction false} IdentityUnwrap(s: State, t: nat, n: nat, i: nat)
    requires 1 <= n && WellFormed(s, n) && i < 7
    ensures UnwrapFrom(Identity, s, t, n, true).a[i] == s.a[i]
    decreases t
  {
    hide Xor;
    hide UnwrapStep;
    if t > 0 {
      IdentityStep(s, t, n);
      IdentityUnwrap(UnwrapStep(Identity, s, t, n, true), t - 1, n, i);
    }
  }

  lemma {:induction false} SomeHigherByte(t: nat, places: nat) returns (k: nat)
    requires 256 <= t && places >= 1 && t < Power256(places + 1)
    ensures 1 <= k <= places && ByteOf(t, k) != 0
    decreases places
  {
    var q := t / 256;
    if q % 256 != 0 {
      k := 1;
    } else {
      var k' := SomeHigherByte(q, places - 1);
      k := k' + 1;
    }
  }

  function Power256(n: nat): (p: nat)
    ensures p > 0
  {
    if n == 0 then 1 else 256 * Power256(n - 1)
  }

  /**
    From 43 registers on the shortcut is wrong: with the identity as cipher, every properly wrapped key is rejected.
  */
  lemma RejectedBeyondFortyTwo(plain: seq<byte>, n: nat)
    requires 43 <= n < 0x1_0000_0000 && |plain| == 8 * n
    ensures Cipher(Identity, Identity)
    ensures Unwrapped(Identity, Wrap(Identity, plain, n), n).a != Iv()
  {
    hide *;
    IdentityIsCipher();
    var k := HigherByteOfCount(n);
    WrappedByte(plain, n, k);
    UnwrappedByte(Wrap(Identity, plain, n), n, k);
    IvAt(7 - k);
    if Xor(0xa6, ByteOf(6 * n, k)) == 0xa6 {
      XorChanges(0xa6, ByteOf(6 * n, k));
    }
  }

  lemma WrappedByte(plain: seq<byte>, n: nat, k: nat)
    requires 1 <= n && |plain| == 8 * n && 1 <= k <= 7
    ensures Wrap(Identity, plain, n)[7 - k] == Xor(0xa6, ByteOf(6 * n, k))
  {
    hide WrapTo;
    hide Xor;
    hide ByteOf;
    hide XorUpTo;
    hide Iv;
    IvAt(7 - k);
    IdentityWrap(State(Iv(), plain), 6 * n, n, 7 - k);
    XorUpToCount(n, k);
  }

  lemma XorUpToCount(n: nat, k: nat)
    requires k >= 1
    ensures XorUpTo(0xa6, k, 6 * n) == Xor(0xa6, ByteOf(6 * n, k))
  {
    hide *;
    assert 6 * n == 2 * (3 * n);
    XorUpToIs(0xa6, k, 6 * n);
  }

  lemma UnwrappedByte(c: seq<byte>, n: nat, k: nat)
    requires 1 <= n && |c| == 8 * (n + 1) && 1 <= k <= 7
    ensures Unwrapped(Identity, c, n).a[7 - k] == c[7 - k]
  {
    hide UnwrapFrom;
    IdentityUnwrap(State(c[..8], c[8..]), 6 * n, n, 7 - k);
  }

  lemma IdentityIsCipher()
    ensures Cipher(Identity, Identity)
  {
  }

  lemma IvAt(i: nat)
    requires i < 8
    ensures Iv()[i] == 0xa6
  {
  }

  lemma HigherByteOfCount(n: nat) returns (k: nat)
    requires 43 <= n < 0x1_0000_0000
    ensures 1 <= k <= 7 && ByteOf(6 * n, k) != 0
  {
    hide ByteOf;
    Powers();
    k := SomeHigherByte(6 * n, 7);
  }

  lemma Powers()
    ensures Power256(4) == 0x1_0000_0000 && Power256(8) == 0x1_0000_0000 * 0x1_0000_0000
  {
    assert Power256(2) == 0x1_0000;
    assert Power256(4) == 0x1_0000_0000;
    assert Power256(6) == 0x1_0000 * 0x1_0000_0000;
  }

  // ----- the loops

  lemma RegisterOf(n: nat, j: nat, i: nat)
    requires 1 <= i <= n
    ensures n * j + i >= 1 && Register(n * j + i, n) == i
  {
    assert n * j >= 0;
    assert n * j + i - 1 == j * n + (i - 1);
    QuotientIs(n * j + i - 1, n, j, i - 1);
  }

  lemma SetBlockIs(r: seq<byte>, now: seq<byte>, i: nat, x: seq<byte>)
    requires 1 <= i && 8 * i <= |r| == |now| && |x| == 8
    requires var at := 8 * (i - 1);
             forall m :: 0 <= m < |r| ==> now[m] == if at <= m < at + 8 then x[m - at] else r[m]
    ensures now == SetBlock(r, i, x)
  {
  }

  method StoreBlock(plain: array<byte>, i: nat, x: seq<byte>)
    requires 1 <= i && 8 * i <= plain.Length && |x| == 8
    modifies plain
    ensures plain[..] == SetBlock(old(plain[..]), i, x)
  {
    ghost var r := plain[..];
    var at := 8 * (i - 1);
    for k := 0 to 8
      invariant forall m :: 0 <= m < plain.Length ==> plain[m] == if at <= m < at + k then x[m - at] else r[m]
    {
      plain[at + k] := x[k];
    }
    SetBlockIs(r, plain[..], i, x);
  }

  /** One turn of the inner loop. */
  method Turn(dec: seq<byte> -> seq<byte>, a0: seq<byte>, plain: array<byte>, n: nat, j: nat, i: nat)
    returns (a: seq<byte>)
    requires forall x: seq<byte> :: |x| == 16 ==> |dec(x)| == 16
    requires |a0| == 8 && plain.Length == 8 * n && 1 <= i <= n
    requires n * j + i >= 1
    modifies plain
    ensures |a| == 8
    ensures State(a, plain[..]) == UnwrapStep(dec, State(a0, old(plain[..])), n * j + i, n, true)
  {
    hide Xor;
    RegisterOf(n, j, i);
    var b := a0;
    b := b[7 := Xor(b[7], (n * j + i) % 256)];
    b := b + plain[8 * (i - 1)..8 * i];
    assert b == XorLow(a0, n * j + i) + Block(plain[..], i);
    b := dec(b);
    a := b[..8];
    StoreBlock(plain, i, b[8..]);
  }

  /** Step 2 of `aes_unwrap`: both loops. */
  method AllTurns(dec: seq<byte> -> seq<byte>, a0: seq<byte>, plain: array<byte>, n: nat) returns (a: seq<byte>)
    requires forall x: seq<byte> :: |x| == 16 ==> |dec(x)| == 16
    requires |a0| == 8 && 1 <= n && plain.Length == 8 * n
    modifies plain
    ensures |a| == 8
    ensures State(a, plain[..]) == UnwrapFrom(dec, State(a0, old(plain[..])), 6 * n, n, true)
  {
    hide UnwrapStep;
    ghost var s := UnwrapFrom(dec, State(a0, plain[..]), 6 * n, n, true);
    a := a0;
    var j := 5;
    while j >= 0
      invariant -1 <= j <= 5 && |a| == 8
      invariant n * (j + 1) >= 0 && s == UnwrapFrom(dec, State(a, plain[..]), n * (j + 1), n, true)
    {
      assert n * (j + 1) == n * j + n && n * j >= 0;
      var i := n;
      while i >= 1
        invariant 0 <= i <= n && |a| == 8
        invariant s == UnwrapFrom(dec, State(a, plain[..]), n * j + i, n, true)
      {
        a := Turn(dec, a, plain, n, j, i);
        i := i - 1;
      }
      j := j - 1;
    }
  }

  method CopyFrom(c: seq<byte>, plain: array<byte>)
    requires |c| == 8 + plain.Length
    modifies plain
    ensures plain[..] == c[8..]
  {
    for k := 0 to plain.Length
      invariant plain[..k] == c[8..8 + k]
    {
      plain[k] := c[8 + k];
    }
  }

  /** `aes_unwrap`. */
  method Unwrap(ghost enc: seq<byte> -> seq<byte>, dec: seq<byte> -> seq<byte>, n: nat, c: seq<byte>,
                plain: array<byte>, allocates: bool)
    returns (ret: int)
    requires Cipher(enc, dec)
    requires 1 <= n && |c| == 8 * (n + 1) && plain.Length == 8 * n
    modifies plain
    ensures ret == 0 || ret == -1
    ensures !allocates ==> ret == -1
    ensures allocates ==> plain[..] == Unwrapped(dec, c, n).r && (ret == 0 <==> Unwrapped(dec, c, n).a == Iv())
    ensures allocates && n <= 42 ==> (ret == 0 <==> c == Wrap(enc, plain[..], n))
    ensures allocates && n <= 42 && ret != 0 ==> forall p: seq<byte> :: |p| == 8 * n ==> c != Wrap(enc, p, n)
  {
    hide UnwrapFrom;
    hide Wrap;
    CopyFrom(c, plain);
    if !allocates {
      return -1;
    }
    var a := AllTurns(dec, c[..8], plain, n);
    ret := if a == Iv() then 0 else -1;
    if n <= 42 {
      forall p: seq<byte> | |p| == 8 * n
        ensures Unwrapped(dec, c, n) == State(Iv(), p) <==> c == Wrap(enc, p, n)
      {
        AcceptedExactlyWhenWrapped(enc, dec, c, p, n);
      }
    }
  }
}
