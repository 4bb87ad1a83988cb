/** What the keyed checksum detects, for every key. */
module Checksum {
  import opened Words
  import opened ShiftRegister

  /** `a` and `b` differ, but only among the `m` positions from `i` on. */
  ghost predicate Burst<T>(a: seq<T>, b: seq<T>, i: nat, m: nat) {
    && |a| == |b|
    && i + m <= |a|
    && a[..i] == b[..i]
    && a[i + m..] == b[i + m..]
    && a != b
  }

  // ----- Resumption and affinity -----

  /** The checksum of a concatenation continues from the checksum of its first part. */
  lemma Resume(k: UInt32, seed: UInt32, a: seq<Byte>, b: seq<Byte>)
    ensures Crc(k, Crc(k, seed, a), b) == Crc(k, seed, a + b)
  {
    BitsAppend(a, b);
    SerialAppend(k, Not32(seed), Bits(a), Bits(b));
  }

  function XorBits(a: seq<bool>, b: seq<bool>): (r: seq<bool>)
    requires |a| == |b|
    ensures |r| == |a|
  {
    seq(|a|, i requires 0 <= i < |a| => a[i] != b[i])
  }

  function XorByte(a: Byte, b: Byte): (r: Byte)
    ensures r == Xor(a, b)
  {
    Pow2Values();
    XorBound(a, b, 8);
    Xor(a, b)
  }

  function XorBytes(a: seq<Byte>, b: seq<Byte>): (r: seq<Byte>)
    requires |a| == |b|
    ensures |r| == |a|
  {
    seq(|a|, i requires 0 <= i < |a| => XorByte(a[i], b[i]))
  }

  lemma {:induction false} XorBitsOf(a: nat, b: nat, n: nat)
    ensures BitsOf(Xor(a, b), n) == XorBits(BitsOf(a, n), BitsOf(b, n))
    decreases n
  {
    if n > 0 {
      XorHalf(a, b);
      XorBitsOf(a / 2, b / 2, n - 1);
    }
  }

  lemma XorBitsAppend(a: seq<bool>, a': seq<bool>, b: seq<bool>, b': seq<bool>)
    requires |a| == |b| && |a'| == |b'|
    ensures XorBits(a + a', b + b') == XorBits(a, b) + XorBits(a', b')
  {
  }

  lemma {:induction false} XorBitsOfBytes(a: seq<Byte>, b: seq<Byte>)
    requires |a| == |b|
    ensures Bits(XorBytes(a, b)) == XorBits(Bits(a), Bits(b))
  {
    if a != [] {
      XorBitsOf(a[0], b[0], 8);
      XorBitsOfBytes(a[1..], b[1..]);
      assert XorBytes(a, b)[1..] == XorBytes(a[1..], b[1..]);
      XorBitsAppend(BitsOf(a[0], 8), Bits(a[1..]), BitsOf(b[0], 8), Bits(b[1..]));
    }
  }

  lemma DigitXor(a: bool, b: bool)
    ensures Digit(a != b) == Xor(Digit(a), Digit(b))
  {
    XorSelf(1);
  }

  /** Superposition: registers and messages add. */
  lemma {:induction false} SerialXor(k: UInt32, x: UInt32, y: UInt32, a: seq<bool>, b: seq<bool>)
    requires |a| == |b|
    ensures Serial(k, Xor32(x, y), XorBits(a, b)) == Xor32(Serial(k, x, a), Serial(k, y, b))
    decreases |a|
  {
    if a != [] {
      var d, e := Digit(a[0]), Digit(b[0]);
      DigitXor(a[0], b[0]);
      XorSwap(x, y, d, e);
      StepLinear(k, Xor32(x, d), Xor32(y, e));
      SerialXor(k, Step(k, Xor32(x, d)), Step(k, Xor32(y, e)), a[1..], b[1..]);
      assert XorBits(a, b)[1..] == XorBits(a[1..], b[1..]);
    }
  }

  lemma NotXor3(a: UInt32, b: UInt32, c: UInt32)
    ensures Xor32(Xor32(Not32(a), Not32(b)), Not32(c)) == Not32(Xor32(Xor32(a, b), c))
  {
    var o: UInt32 := 0xffff_ffff;
    NotIsXor(a);
    NotIsXor(b);
    NotIsXor(c);
    NotIsXor(Xor32(Xor32(a, b), c));
    XorSwap(a, o, b, o);
    XorSelf(o);
    XorZero(Xor(a, b));
    XorAssoc(Xor(a, b), c, o);
  }

  /** The checksum is affine in the buffer. */
  lemma Affine(k: UInt32, seed: UInt32, a: seq<Byte>, b: seq<Byte>, c: seq<Byte>)
    requires |a| == |b| == |c|
    ensures Crc(k, seed, XorBytes(XorBytes(a, b), c))
         == Xor32(Xor32(Crc(k, seed, a), Crc(k, seed, b)), Crc(k, seed, c))
  {
    var r := Not32(seed);
    var x, y, z := Bits(a), Bits(b), Bits(c);
    XorBitsOfBytes(a, b);
    XorBitsOfBytes(XorBytes(a, b), c);
    XorSelf(r);
    XorZero(r);
    SerialXor(k, r, r, x, y);
    SerialXor(k, Xor32(r, r), r, XorBits(x, y), z);
    NotXor3(Serial(k, r, x), Serial(k, r, y), Serial(k, r, z));
  }

  /** Two buffers of one length collide exactly when their difference, started from a
      zero register, leaves a zero register: seeds and contents cancel. */
  lemma CollisionIff(k: UInt32, seed: UInt32, a: seq<Byte>, b: seq<Byte>)
    requires |a| == |b|
    ensures Crc(k, seed, a) == Crc(k, seed, b) <==> Serial(k, 0, Bits(XorBytes(a, b))) == 0
  {
    var r := Not32(seed);
    var x, y := Serial(k, r, Bits(a)), Serial(k, r, Bits(b));
    XorBitsOfBytes(a, b);
    XorSelf(r);
    SerialXor(k, r, r, Bits(a), Bits(b));
    XorSelf(x);
    if Xor(x, y) == 0 {
      XorCancel(x, y);
      XorZero(x);
    }
  }

  // ----- Burst errors -----

  lemma {:induction false} Pow2Monotone(m: nat, n: nat)
    requires m <= n
    ensures Pow2(m) <= Pow2(n)
    decreases n
  {
    if m < n {
      Pow2Monotone(m, n - 1);
    }
  }

  /** A window of at most 32 bits is absorbed injectively. */
  lemma WindowInjective(k: UInt32, c: UInt32, u: seq<bool>, v: seq<bool>)
    requires k >= 0x8000_0000
    requires |u| == |v| <= 32
    requires Serial(k, c, u) == Serial(k, c, v)
    ensures u == v
  {
    var n := |u|;
    FromBitsRoundTrip(u);
    FromBitsRoundTrip(v);
    Pow2Values();
    Pow2Monotone(n, 32);
    SerialOfWord(k, c, FromBits(u), n);
    SerialOfWord(k, c, FromBits(v), n);
    StepsInjective(k, Xor32(c, FromBits(u)), Xor32(c, FromBits(v)), n);
    XorInjective(c, FromBits(u), FromBits(v));
  }

  lemma SerialInWindow(k: UInt32, c: UInt32, a: seq<bool>, i: nat, m: nat)
    requires i + m <= |a|
    ensures Serial(k, c, a) == Serial(k, Serial(k, Serial(k, c, a[..i]), a[i..i + m]), a[i + m..])
  {
    assert a == a[..i] + (a[i..i + m] + a[i + m..]);
    SerialAppend(k, c, a[..i], a[i..i + m] + a[i + m..]);
    SerialAppend(k, Serial(k, c, a[..i]), a[i..i + m], a[i + m..]);
  }

  lemma SameParts(a: seq<bool>, b: seq<bool>, i: nat, m: nat)
    requires |a| == |b| && i + m <= |a|
    requires a[..i] == b[..i] && a[i..i + m] == b[i..i + m] && a[i + m..] == b[i + m..]
    ensures a == b
  {
    assert a == a[..i] + (a[i..i + m] + a[i + m..]);
    assert b == b[..i] + (b[i..i + m] + b[i + m..]);
  }

  /** Equal registers after messages with the same ends mean equal registers after the windows. */
  lemma WindowsMeet(k: UInt32, c: UInt32, a: seq<bool>, b: seq<bool>, i: nat, m: nat)
    requires k >= 0x8000_0000 && |a| == |b| && i + m <= |a|
    requires a[..i] == b[..i] && a[i + m..] == b[i + m..]
    requires Serial(k, c, a) == Serial(k, c, b)
    ensures Serial(k, Serial(k, c, a[..i]), a[i..i + m]) == Serial(k, Serial(k, c, a[..i]), b[i..i + m])
  {
    var r := Serial(k, c, a[..i]);
    SerialInWindow(k, c, a, i, m);
    SerialInWindow(k, c, b, i, m);
    SerialInjective(k, Serial(k, r, a[i..i + m]), Serial(k, r, b[i..i + m]), a[i + m..]);
  }

  /** Every burst of at most 32 bits, at any bit offset, changes the register. */
  lemma BitBurstDetected(k: UInt32, c: UInt32, a: seq<bool>, b: seq<bool>, i: nat, m: nat)
    requires k >= 0x8000_0000
    requires Burst(a, b, i, m) && m <= 32
    ensures Serial(k, c, a) != Serial(k, c, b)
  {
    if Serial(k, c, a) == Serial(k, c, b) {
      WindowsMeet(k, c, a, b, i, m);
      WindowInjective(k, Serial(k, c, a[..i]), a[i..i + m], b[i..i + m]);
      SameParts(a, b, i, m);
      assert false;
    }
  }

  lemma {:induction false} BitsOfInjective(a: nat, b: nat, n: nat)
    requires a < Pow2(n) && b < Pow2(n)
    requires BitsOf(a, n) == BitsOf(b, n)
    ensures a == b
    decreases n
  {
    if n > 0 {
      assert BitsOf(a, n)[0] == BitsOf(b, n)[0];
      assert BitsOf(a, n)[1..] == BitsOf(b, n)[1..];
      BitsOfInjective(a / 2, b / 2, n - 1);
    }
  }

  lemma {:induction false} BitsInjective(a: seq<Byte>, b: seq<Byte>)
    requires |a| == |b| && Bits(a) == Bits(b)
    ensures a == b
  {
    if a != [] {
      Pow2Values();
      assert Bits(a)[..8] == BitsOf(a[0], 8) && Bits(b)[..8] == BitsOf(b[0], 8);
      assert Bits(a)[8..] == Bits(a[1..]) && Bits(b)[8..] == Bits(b[1..]);
      BitsOfInjective(a[0], b[0], 8);
      BitsInjective(a[1..], b[1..]);
    }
  }

  lemma {:induction false} BitsSplit(a: seq<Byte>, i: nat)
    requires i <= |a|
    ensures Bits(a)[..8 * i] == Bits(a[..i]) && Bits(a)[8 * i..] == Bits(a[i..])
  {
    assert a == a[..i] + a[i..];
    BitsAppend(a[..i], a[i..]);
  }

  lemma PrefixBits(a: seq<Byte>, b: seq<Byte>, i: nat)
    requires i <= |a| && i <= |b| && a[..i] == b[..i]
    ensures Bits(a)[..8 * i] == Bits(b)[..8 * i]
  {
    BitsSplit(a, i);
    BitsSplit(b, i);
  }

  lemma SuffixBits(a: seq<Byte>, b: seq<Byte>, i: nat)
    requires i <= |a| && i <= |b| && a[i..] == b[i..]
    ensures Bits(a)[8 * i..] == Bits(b)[8 * i..]
  {
    BitsSplit(a, i);
    BitsSplit(b, i);
  }

  lemma BytesBurstIsBitBurst(a: seq<Byte>, b: seq<Byte>, i: nat, m: nat)
    requires Burst(a, b, i, m)
    ensures Burst(Bits(a), Bits(b), 8 * i, 8 * m)
  {
    PrefixBits(a, b, i);
    SuffixBits(a, b, i + m);
    assert 8 * (i + m) == 8 * i + 8 * m;
    if Bits(a) == Bits(b) {
      BitsInjective(a, b);
      assert false;
    }
  }

  /** A key with its top bit set tells apart any two buffers that differ within four
      adjacent bytes. */
  lemma BurstDetected(k: UInt32, seed: UInt32, a: seq<Byte>, b: seq<Byte>, i: nat, m: nat)
    requires k >= 0x8000_0000
    requires Burst(a, b, i, m) && m <= 4
    ensures Crc(k, seed, a) != Crc(k, seed, b)
  {
    BytesBurstIsBitBurst(a, b, i, m);
    BitBurstDetected(k, Not32(seed), Bits(a), Bits(b), 8 * i, 8 * m);
  }

  lemma {:induction false} BitsOfShl(lo: nat, h: nat, n: nat)
    ensures BitsOf(lo + Shl(h, n), n) == BitsOf(lo, n)
    decreases n
  {
    if n > 0 {
      assert (lo + Shl(h, n)) / 2 == lo / 2 + Shl(h, n - 1);
      BitsOfShl(lo / 2, h, n - 1);
    }
  }

  lemma {:induction false} BitsOfSplit(v: nat, m: nat, n: nat)
    ensures BitsOf(v, m + n) == BitsOf(v, m) + BitsOf(Shr(v, m), n)
    decreases m
  {
    if m > 0 {
      BitsOfSplit(v / 2, m - 1, n);
    } else {
      assert BitsOf(v, 0) == [];
    }
  }

  /** The bytes of a word, low byte first, carry its digits in order. */
  lemma {:induction false} BitsOfLittleEndian(v: nat, n: nat)
    ensures Bits(LittleEndian(v, n)) == BitsOf(v, 8 * n)
  {
    if n > 0 {
      ShiftByte(v);
      ShiftByte(v / 256);
      BitsOfShl(v % 256, v / 256, 8);
      BitsOfSplit(v, 8, 8 * (n - 1));
      BitsOfLittleEndian(v / 256, n - 1);
    }
  }

  /** Without the top bit, from every seed two different four-byte buffers collide. */
  lemma Collides(k: UInt32, seed: UInt32) returns (a: seq<Byte>, b: seq<Byte>)
    requires k < 0x8000_0000
    ensures Burst(a, b, 0, 4)
    ensures Crc(k, seed, a) == Crc(k, seed, b)
  {
    var r: UInt32 := Not32(seed);
    var u, v := Xor32(r, 1), Xor32(r, 2 * k);
    a, b := LittleEndian(u, 4), LittleEndian(v, 4);
    BitsOfLittleEndian(u, 4);
    BitsOfLittleEndian(v, 4);
    Pow2Values();
    SerialOfWord(k, r, u, 32);
    SerialOfWord(k, r, v, 32);
    XorCancel(r, 1);
    XorCancel(r, 2 * k);
    XorZero(k);
    assert Step(k, 1) == k == Step(k, 2 * k);
    assert Steps(k, 1, 32) == Steps(k, 2 * k, 32);
    LittleEndianRoundTrip(u, 4);
    LittleEndianRoundTrip(v, 4);
  }

  ghost predicate DetectsBursts(k: UInt32) {
    forall seed: UInt32, a: seq<Byte>, b: seq<Byte>, i: nat, m: nat | Burst(a, b, i, m) && m <= 4 ::
      Crc(k, seed, a) != Crc(k, seed, b)
  }

  /** Bit 31 of the key is exactly what burst detection needs. */
  lemma DetectsBurstsIff(k: UInt32)
    ensures DetectsBursts(k) <==> k >= 0x8000_0000
  {
    if k >= 0x8000_0000 {
      forall seed: UInt32, a: seq<Byte>, b: seq<Byte>, i: nat, m: nat | Burst(a, b, i, m) && m <= 4
        ensures Crc(k, seed, a) != Crc(k, seed, b)
      {
        BurstDetected(k, seed, a, b, i, m);
      }
    } else {
      var a, b := Collides(k, 0);
      assert Burst(a, b, 0, 4);
    }
  }
}
