/** The checksum register as polynomial division (the reading of section 8 of RFC 1952,
    with the fixed polynomial replaced by a key). */
module CrcPolynomial {
  import opened Words
  import opened ShiftRegister
  import opened Polynomial
  import Checksum

  predicate BitAt(c: nat, i: nat)
    decreases i
  {
    if i == 0 then Odd(c) else BitAt(c / 2, i - 1)
  }

  lemma {:induction false} BitAtXor(a: nat, b: nat, i: nat)
    ensures BitAt(Xor(a, b), i) <==> BitAt(a, i) != BitAt(b, i)
    decreases i
  {
    XorHalf(a, b);
    if i > 0 {
      BitAtXor(a / 2, b / 2, i - 1);
    }
  }

  lemma {:induction false} BitAtBeyond(c: nat, n: nat)
    requires c < Pow2(n)
    ensures !BitAt(c, n)
    decreases n
  {
    if n > 0 {
      BitAtBeyond(c / 2, n - 1);
    }
  }

  lemma BitAtZero(i: nat)
    ensures !BitAt(0, i)
    decreases i
  {
    if i > 0 {
      BitAtZero(i - 1);
    }
  }

  predicate ReflectedAt(c: UInt32, i: nat) {
    i < 32 && BitAt(c, 31 - i)
  }

  predicate CoefficientAt(bits: seq<bool>, j: nat) {
    j < |bits| && bits[|bits| - 1 - j]
  }

  /** A register read in reflected order: bit 0 is the coefficient of x^31. */
  function RegisterPoly(c: UInt32): (p: Poly)
    ensures Below(p, 32)
  {
    set i: nat | i < 32 && ReflectedAt(c, i)
  }

  /** The generator a key stands for: x^32 plus the key in reflected order. */
  function KeyPoly(k: UInt32): (p: Poly)
    ensures HasDegree(p, 32)
  {
    {32} + RegisterPoly(k)
  }

  /** The first bit is the highest coefficient. */
  function MessagePoly(bits: seq<bool>): (p: Poly)
    ensures Below(p, |bits|)
  {
    set j: nat | j < |bits| && CoefficientAt(bits, j)
  }

  /** R0 times x^n plus M times x^32. */
  function Dividend(c: UInt32, bits: seq<bool>): (p: Poly)
    ensures Below(p, |bits| + 32)
  {
    Add(Shift(RegisterPoly(c), |bits|), Shift(MessagePoly(bits), 32))
  }

  /** One clock multiplies the register by x modulo the generator. */
  lemma StepBits(k: UInt32, c: UInt32, i: nat)
    requires i < 32
    ensures i in RegisterPoly(Step(k, c)) <==> (i > 0 && i - 1 in RegisterPoly(c)) != (Odd(c) && i in RegisterPoly(k))
  {
    if i == 0 {
      Pow2Values();
      BitAtBeyond(c, 32);
      assert !BitAt(c / 2, 31);
    } else {
      assert BitAt(c, 32 - i) == BitAt(c / 2, 31 - i);
    }
    if Odd(c) {
      BitAtXor(k, c / 2, 31 - i);
    }
  }

  /** Feeding a bit toggles the coefficient of x^31. */
  lemma FeedBits(c: UInt32, b: bool, i: nat)
    requires i < 32
    ensures i in RegisterPoly(Xor32(c, Digit(b))) <==> (i in RegisterPoly(c)) != (i == 31 && b)
  {
    BitAtXor(c, Digit(b), 31 - i);
    if i < 31 {
      BitAtZero(30 - i);
      assert !BitAt(Digit(b), 31 - i);
    }
  }

  function AfterBit(k: UInt32, c: UInt32, b: bool): UInt32 {
    Step(k, Xor32(c, Digit(b)))
  }

  /** One clock with one message bit, at one coefficient of the register. */
  lemma ClockBits(k: UInt32, c: UInt32, b: bool, i: nat)
    requires i < 32
    ensures i in RegisterPoly(AfterBit(k, c, b))
       <==> (i > 0 && i - 1 in RegisterPoly(c)) != ((31 in RegisterPoly(c)) != b && i in RegisterPoly(k))
  {
    var f := Xor32(c, Digit(b));
    StepBits(k, f, i);
    FeedBits(c, b, 31);
    assert BitAt(f, 0) == Odd(f);
    if i > 0 {
      FeedBits(c, b, i - 1);
    }
  }

  lemma DividendAt(c: UInt32, bits: seq<bool>, e: nat)
    ensures e in Dividend(c, bits)
       <==> (e >= |bits| && e - |bits| in RegisterPoly(c)) != (e >= 32 && CoefficientAt(bits, e - 32))
  {
  }

  lemma ShiftedKeyAt(k: UInt32, n: nat, e: nat)
    ensures e in Shift(KeyPoly(k), n) <==> e == n + 32 || (e >= n && e - n in RegisterPoly(k))
  {
  }

  /** After a bit is taken, the rest of the message keeps its coefficients. */
  lemma RestAt(bits: seq<bool>, e: nat)
    requires bits != []
    ensures e >= 32 ==> (CoefficientAt(bits[1..], e - 32) <==> e != |bits| + 31 && CoefficientAt(bits, e - 32))
    ensures CoefficientAt(bits, |bits| - 1) <==> bits[0]
  {
  }

  /** One step of long division, at one exponent. */
  lemma ClockDividesAt(k: UInt32, c: UInt32, bits: seq<bool>, e: nat)
    requires bits != []
    ensures e in Dividend(AfterBit(k, c, bits[0]), bits[1..])
       <==> (e in Dividend(c, bits))
            != (|bits| + 31 in Dividend(c, bits) && e in Shift(KeyPoly(k), |bits| - 1))
  {
    var n, c' := |bits|, AfterBit(k, c, bits[0]);
    DividendAt(c, bits, e);
    DividendAt(c, bits, n + 31);
    ShiftedKeyAt(k, n - 1, e);
    DividendAt(c', bits[1..], e);
    RestAt(bits, e);
    if n - 1 <= e < n + 31 {
      var i := e - (n - 1);
      ClockBits(k, c, bits[0], i);
      assert e in Shift(KeyPoly(k), n - 1) <==> i in RegisterPoly(k);
    }
  }

  /** One clock with one message bit is one step of long division. */
  lemma ClockDivides(k: UInt32, c: UInt32, bits: seq<bool>)
    requires bits != []
    ensures var n, a := |bits|, Dividend(c, bits);
            Dividend(AfterBit(k, c, bits[0]), bits[1..])
            == if n - 1 + 32 in a then Add(a, Shift(KeyPoly(k), n - 1)) else a
  {
    forall e: nat {
      ClockDividesAt(k, c, bits, e);
    }
  }

  /** Clocking in a message is long division by the key's generator. */
  lemma {:induction false} SerialIsLongDivision(k: UInt32, c: UInt32, bits: seq<bool>)
    ensures RegisterPoly(Serial(k, c, bits)) == Remainder(Dividend(c, bits), KeyPoly(k), 32, |bits|)
    decreases |bits|
  {
    if bits == [] {
      assert Dividend(c, bits) == RegisterPoly(c);
    } else {
      ClockDivides(k, c, bits);
      SerialIsLongDivision(k, Step(k, Xor32(c, Digit(bits[0]))), bits[1..]);
    }
  }

  lemma RegisterIsRemainder(k: UInt32, c: UInt32, bits: seq<bool>, r: Poly)
    ensures IsRemainder(Dividend(c, bits), KeyPoly(k), 32, r) <==> r == RegisterPoly(Serial(k, c, bits))
  {
    var n, a, p := |bits|, Dividend(c, bits), KeyPoly(k);
    SerialIsLongDivision(k, c, bits);
    RemainderIff(a, p, 32, n, r);
  }

  lemma ComplementOfCrc(k: UInt32, seed: UInt32, buf: seq<Byte>)
    ensures Not32(Crc(k, seed, buf)) == Serial(k, Not32(seed), Bits(buf))
  {
  }

  /** The complement of the checksum of n bytes is the remainder of R0 x^(8n) + M x^32
      modulo the generator, where R0 is the complemented seed; and nothing else is. */
  lemma {:induction false} CrcIsRemainder(k: UInt32, seed: UInt32, buf: seq<Byte>, r: Poly)
    ensures IsRemainder(Dividend(Not32(seed), Bits(buf)), KeyPoly(k), 32, r)
       <==> r == RegisterPoly(Not32(Crc(k, seed, buf)))
  {
    ComplementOfCrc(k, seed, buf);
    RegisterIsRemainder(k, Not32(seed), Bits(buf), r);
  }

  lemma {:induction false} SomeBitSet(c: nat, n: nat) returns (i: nat)
    requires 0 < c < Pow2(n)
    ensures i < n && BitAt(c, i)
    decreases n
  {
    if Odd(c) {
      i := 0;
    } else {
      i := SomeBitSet(c / 2, n - 1);
      i := i + 1;
    }
  }

  lemma ZeroRegister(c: UInt32)
    ensures RegisterPoly(c) == {} <==> c == 0
  {
    if c > 0 {
      Pow2Values();
      var i := SomeBitSet(c, 32);
      assert 31 - i in RegisterPoly(c);
    } else {
      forall i: nat ensures !BitAt(0, i) {
        BitAtZero(i);
      }
    }
  }

  /** An altered buffer of the same length goes unnoticed exactly when the generator
      divides the difference times x^32. */
  lemma CollisionIffDivides(k: UInt32, seed: UInt32, a: seq<Byte>, b: seq<Byte>)
    requires |a| == |b|
    ensures Crc(k, seed, a) == Crc(k, seed, b)
       <==> IsRemainder(Shift(MessagePoly(Bits(Checksum.XorBytes(a, b))), 32), KeyPoly(k), 32, {})
  {
    var bits := Bits(Checksum.XorBytes(a, b));
    Checksum.CollisionIff(k, seed, a, b);
    SerialIsLongDivision(k, 0, bits);
    ZeroRegister(0);
    ZeroRegister(Serial(k, 0, bits));
    assert Dividend(0, bits) == Shift(MessagePoly(bits), 32);
    RemainderIff(Dividend(0, bits), KeyPoly(k), 32, |bits|, {});
  }
}
