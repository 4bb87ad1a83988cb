/** The reference shift register behind the keyed checksum: one message bit at a time,
    feedback polynomial given by an arbitrary 32-bit key in reflected order. */
module ShiftRegister {
  import opened Words

  /** One clock of the register. */
  function Step(k: UInt32, c: UInt32): UInt32 {
    if Odd(c) then Xor32(k, c / 2) else c / 2
  }

  function Steps(k: UInt32, c: UInt32, n: nat): UInt32
    decreases n, c
  {
    if n == 0 then c else Steps(k, Step(k, c), n - 1)
  }

  function Digit(b: bool): UInt32 {
    if b then 1 else 0
  }

  /** The register after absorbing a bit string. */
  function Serial(k: UInt32, c: UInt32, bits: seq<bool>): UInt32
    decreases |bits|
  {
    if bits == [] then c else Serial(k, Step(k, Xor32(c, Digit(bits[0]))), bits[1..])
  }

  /** The `n` low digits of `v`, least significant first. */
  function BitsOf(v: nat, n: nat): (r: seq<bool>)
    ensures |r| == n
    decreases n, v
  {
    if n == 0 then [] else [Odd(v)] + BitsOf(v / 2, n - 1)
  }

  function FromBits(bits: seq<bool>): nat {
    if bits == [] then 0 else Digit(bits[0]) + 2 * FromBits(bits[1..])
  }

  /** Bytes in order, each least significant bit first. */
  function Bits(buf: seq<Byte>): (r: seq<bool>)
    ensures |r| == 8 * |buf|
  {
    if buf == [] then [] else BitsOf(buf[0], 8) + Bits(buf[1..])
  }

  /** The checksum of a buffer: complement, absorb bit by bit, complement. */
  function Crc(k: UInt32, seed: UInt32, buf: seq<Byte>): UInt32 {
    Not32(Serial(k, Not32(seed), Bits(buf)))
  }

  // ----- Linearity -----

  lemma StepLinear(k: UInt32, x: UInt32, y: UInt32)
    ensures Step(k, Xor32(x, y)) == Xor32(Step(k, x), Step(k, y))
  {
    XorHalf(x, y);
    var s, t := x / 2, y / 2;
    if Odd(x) && Odd(y) {
      XorSwap(k, s, k, t);
      XorSelf(k);
      XorZero(Xor(s, t));
    } else if Odd(x) {
      XorAssoc(k, s, t);
    } else if Odd(y) {
      XorAssoc(s, k, t);
      XorComm(s, k);
      XorAssoc(k, s, t);
    }
  }

  lemma {:induction false} StepsLinear(k: UInt32, x: UInt32, y: UInt32, n: nat)
    ensures Steps(k, Xor32(x, y), n) == Xor32(Steps(k, x, n), Steps(k, y, n))
    decreases n
  {
    if n > 0 {
      StepLinear(k, x, y);
      StepsLinear(k, Step(k, x), Step(k, y), n - 1);
    }
  }

  lemma {:induction false} StepsShl(k: UInt32, h: nat, n: nat)
    requires Shl(h, n) < 0x1_0000_0000
    ensures h < 0x1_0000_0000 && Steps(k, Shl(h, n), n) == h
  {
    if n > 0 {
      StepsShl(k, h, n - 1);
    }
  }

  /** Eight clocks of a word: the low byte is folded, the rest moves down. */
  lemma StepsOfByte(k: UInt32, z: UInt32)
    ensures Steps(k, z, 8) == Xor32(Steps(k, z % 256, 8), z / 256)
  {
    var h, lo := z / 256, z % 256;
    ShiftByte(h);
    Pow2Values();
    XorDisjoint(h, lo, 8);
    XorComm(Shl(h, 8), lo);
    StepsLinear(k, lo, Shl(h, 8), 8);
    StepsShl(k, h, 8);
  }

  // ----- Bit by bit equals word by word -----

  lemma StepAbsorb(k: UInt32, c: UInt32, v: UInt32)
    ensures Step(k, Xor32(c, v)) == Xor32(Step(k, Xor32(c, Digit(Odd(v)))), v / 2)
  {
    var b := Digit(Odd(v));
    XorHalf(c, v);
    XorHalf(c, b);
    XorZero(c / 2);
    if Odd(c) != Odd(v) {
      XorAssoc(k, c / 2, v / 2);
    }
  }

  lemma {:induction false} SerialOfWord(k: UInt32, c: UInt32, v: UInt32, n: nat)
    requires v < Pow2(n)
    ensures Serial(k, c, BitsOf(v, n)) == Steps(k, Xor32(c, v), n)
    decreases n
  {
    if n == 0 {
      XorZero(c);
    } else {
      StepAbsorb(k, c, v);
      SerialOfWord(k, Step(k, Xor32(c, Digit(Odd(v)))), v / 2, n - 1);
    }
  }

  lemma {:induction false} SerialAppend(k: UInt32, c: UInt32, a: seq<bool>, b: seq<bool>)
    ensures Serial(k, c, a + b) == Serial(k, Serial(k, c, a), b)
    decreases |a|
  {
    if a == [] {
      assert a + b == b;
    } else {
      assert (a + b)[1..] == a[1..] + b;
      SerialAppend(k, Step(k, Xor32(c, Digit(a[0]))), a[1..], b);
    }
  }

  lemma {:induction false} BitsAppend(a: seq<Byte>, b: seq<Byte>)
    ensures Bits(a + b) == Bits(a) + Bits(b)
  {
    if a == [] {
      assert a + b == b;
    } else {
      assert (a + b)[1..] == a[1..] + b;
      BitsAppend(a[1..], b);
    }
  }

  // ----- Injectivity -----

  /** A key of full degree makes one clock reversible. */
  lemma StepInjective(k: UInt32, x: UInt32, y: UInt32)
    requires k >= 0x8000_0000
    requires Step(k, x) == Step(k, y)
    ensures x == y
  {
    Pow2Values();
    assert Pow2(31 + 1) == Pow2(32);
    if Odd(x) && Odd(y) {
      XorInjective(k, x / 2, y / 2);
    } else if Odd(x) {
      XorTop(k, x / 2, 31);
    } else if Odd(y) {
      XorTop(k, y / 2, 31);
    }
  }

  lemma {:induction false} StepsInjective(k: UInt32, x: UInt32, y: UInt32, n: nat)
    requires k >= 0x8000_0000
    requires Steps(k, x, n) == Steps(k, y, n)
    ensures x == y
    decreases n
  {
    if n > 0 {
      StepsInjective(k, Step(k, x), Step(k, y), n - 1);
      StepInjective(k, x, y);
    }
  }

  lemma {:induction false} SerialInjective(k: UInt32, x: UInt32, y: UInt32, bits: seq<bool>)
    requires k >= 0x8000_0000
    requires Serial(k, x, bits) == Serial(k, y, bits)
    ensures x == y
    decreases |bits|
  {
    if bits != [] {
      var d := Digit(bits[0]);
      SerialInjective(k, Step(k, Xor32(x, d)), Step(k, Xor32(y, d)), bits[1..]);
      StepInjective(k, Xor32(x, d), Xor32(y, d));
      XorComm(x, d);
      XorComm(y, d);
      XorInjective(d, x, y);
    }
  }

  lemma {:induction false} FromBitsRoundTrip(bits: seq<bool>)
    ensures FromBits(bits) < Pow2(|bits|)
    ensures BitsOf(FromBits(bits), |bits|) == bits
  {
    if bits != [] {
      FromBitsRoundTrip(bits[1..]);
      assert FromBits(bits) / 2 == FromBits(bits[1..]);
    }
  }
}
