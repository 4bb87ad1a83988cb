/** Fixed-width unsigned words as bounded naturals, with exclusive or on naturals.
    Shifting right by one is `/ 2`, masking with 0xff is `% 256`, and so on. Wrap-around is a
    remainder written out where the code has it, and what is said of exclusive or is proved by
    induction on the bits. */
module Words {

  type Byte = b: nat | b < 0x100
  type UInt16 = w: nat | w < 0x1_0000
  type UInt32 = w: nat | w < 0x1_0000_0000

  function Pow2(n: nat): (p: nat)
    ensures p >= 1
  {
    if n == 0 then 1 else 2 * Pow2(n - 1)
  }

  predicate Odd(a: nat) {
    a % 2 == 1
  }

  /** Bitwise exclusive or: addition of binary digits without carry. */
  function Xor(a: nat, b: nat): nat
    decreases a + b
  {
    if a == 0 && b == 0 then 0 else 2 * Xor(a / 2, b / 2) + (if Odd(a) != Odd(b) then 1 else 0)
  }

  lemma XorHalf(a: nat, b: nat)
    ensures Xor(a, b) / 2 == Xor(a / 2, b / 2)
    ensures Odd(Xor(a, b)) <==> Odd(a) != Odd(b)
  {
  }

  lemma SameHalves(a: nat, b: nat)
    requires a / 2 == b / 2 && Odd(a) == Odd(b)
    ensures a == b
  {
  }

  lemma {:induction false} XorZero(a: nat)
    ensures Xor(a, 0) == a == Xor(0, a)
  {
    if a > 0 {
      XorZero(a / 2);
    }
  }

  lemma {:induction false} XorSelf(a: nat)
    ensures Xor(a, a) == 0
  {
    if a > 0 {
      XorSelf(a / 2);
    }
  }

  lemma {:induction false} XorComm(a: nat, b: nat)
    ensures Xor(a, b) == Xor(b, a)
    decreases a + b
  {
    if a + b > 0 {
      XorComm(a / 2, b / 2);
    }
  }

  lemma {:induction false} XorAssoc(a: nat, b: nat, c: nat)
    ensures Xor(Xor(a, b), c) == Xor(a, Xor(b, c))
    decreases a + b + c
  {
    if a + b + c > 0 {
      var ab, bc := Xor(a, b), Xor(b, c);
      XorHalf(a, b);
      XorHalf(b, c);
      XorHalf(ab, c);
      XorHalf(a, bc);
      XorAssoc(a / 2, b / 2, c / 2);
      SameHalves(Xor(ab, c), Xor(a, bc));
    }
  }

  lemma XorSwap(a: nat, b: nat, c: nat, d: nat)
    ensures Xor(Xor(a, b), Xor(c, d)) == Xor(Xor(a, c), Xor(b, d))
  {
    calc {
      Xor(Xor(a, b), Xor(c, d));
      { XorAssoc(a, b, Xor(c, d)); XorAssoc(b, c, d); }
      Xor(a, Xor(Xor(b, c), d));
      { XorComm(b, c); XorAssoc(c, b, d); XorAssoc(a, c, Xor(b, d)); }
      Xor(Xor(a, c), Xor(b, d));
    }
  }

  lemma XorCancel(a: nat, b: nat)
    ensures Xor(a, Xor(a, b)) == b
  {
    XorAssoc(a, a, b);
    XorSelf(a);
    XorZero(b);
  }

  lemma XorInjective(a: nat, b: nat, c: nat)
    requires Xor(a, b) == Xor(a, c)
    ensures b == c
  {
    XorCancel(a, b);
    XorCancel(a, c);
  }

  lemma {:induction false} XorBound(a: nat, b: nat, n: nat)
    requires a < Pow2(n) && b < Pow2(n)
    ensures Xor(a, b) < Pow2(n)
  {
    if n > 0 && a + b > 0 {
      XorBound(a / 2, b / 2, n - 1);
    }
  }

  lemma Pow2Values()
    ensures Pow2(8) == 0x100 && Pow2(31) == 0x8000_0000 && Pow2(32) == 0x1_0000_0000
  {
    assert Pow2(8) == 0x100;
    assert Pow2(16) == 0x1_0000;
    assert Pow2(24) == 0x100_0000;
    assert Pow2(31) == 0x8000_0000;
  }

  /** Exclusive or stays within the 32-bit words. */
  function Xor32(a: UInt32, b: UInt32): (r: UInt32)
    ensures r == Xor(a, b)
  {
    Pow2Values();
    XorBound(a, b, 32);
    Xor(a, b)
  }

  /** Bitwise complement of a 32-bit word. */
  function Not32(a: UInt32): UInt32 {
    0xffff_ffff - a
  }

  /** The word of `n` ones. */
  function Ones(n: nat): nat {
    if n == 0 then 0 else 2 * Ones(n - 1) + 1
  }

  lemma {:induction false} XorOnes(a: nat, n: nat)
    requires a <= Ones(n)
    ensures Xor(a, Ones(n)) == Ones(n) - a
  {
    if n > 0 {
      XorOnes(a / 2, n - 1);
    }
  }

  lemma NotIsXor(a: UInt32)
    ensures Not32(a) == Xor(a, 0xffff_ffff)
  {
    assert Ones(8) == 0xff;
    assert Ones(16) == 0xffff;
    assert Ones(24) == 0xff_ffff;
    assert Ones(32) == 0xffff_ffff;
    XorOnes(a, 32);
  }

  /** A leading one survives exclusive or with a shorter word. */
  lemma {:induction false} XorTop(a: nat, b: nat, n: nat)
    requires Pow2(n) <= a < Pow2(n + 1) && b < Pow2(n)
    ensures Xor(a, b) >= Pow2(n)
  {
    if n == 0 {
      assert Pow2(0) == 1 && Pow2(1) == 2;
      XorZero(a);
    } else {
      XorTop(a / 2, b / 2, n - 1);
    }
  }

  /** `h` shifted left by `n`. */
  function Shl(h: nat, n: nat): nat {
    if n == 0 then h else 2 * Shl(h, n - 1)
  }

  /** `c` shifted right by `n`. */
  function Shr(c: nat, n: nat): nat
    decreases n
  {
    if n == 0 then c else Shr(c / 2, n - 1)
  }

  lemma ShiftByte(c: nat)
    ensures Shl(c, 8) == 256 * c && Shr(c, 8) == c / 256
  {
    assert Shl(c, 1) == 2 * c;
    assert Shl(c, 3) == 8 * c;
    assert Shl(c, 5) == 32 * c;
    assert Shl(c, 7) == 128 * c;
    assert Shr(c, 8) == Shr(c / 4, 6) == Shr(c / 16, 4) == Shr(c / 64, 2);
  }

  /** Words without a common digit: exclusive or is addition. */
  lemma {:induction false} XorDisjoint(h: nat, lo: nat, n: nat)
    requires lo < Pow2(n)
    ensures Xor(Shl(h, n), lo) == Shl(h, n) + lo
  {
    if n == 0 {
      XorZero(h);
    } else {
      XorDisjoint(h, lo / 2, n - 1);
    }
  }

  /** Shifting right after an exclusive or with a word that is shifted out. */
  lemma {:induction false} XorShiftedOut(c: nat, b: nat, n: nat)
    requires b < Pow2(n)
    ensures Shr(Xor(c, b), n) == Shr(c, n)
  {
    if n == 0 {
      XorZero(c);
    } else {
      XorHalf(c, b);
      XorShiftedOut(c / 2, b / 2, n - 1);
    }
  }

  // ----- Packed little-endian fields -----

  function LittleEndian(v: nat, n: nat): (r: seq<Byte>)
    ensures |r| == n
    decreases n, v
  {
    if n == 0 then [] else [v % 256] + LittleEndian(v / 256, n - 1)
  }

  function FromLittleEndian(s: seq<Byte>): nat {
    if s == [] then 0 else s[0] + 256 * FromLittleEndian(s[1..])
  }

  lemma Pow2Byte(n: nat)
    ensures Pow2(n + 8) == 256 * Pow2(n)
  {
    assert Pow2(n + 2) == 4 * Pow2(n);
    assert Pow2(n + 4) == 16 * Pow2(n);
    assert Pow2(n + 6) == 64 * Pow2(n);
  }

  lemma {:induction false} LittleEndianRoundTrip(v: nat, n: nat)
    requires v < Pow2(8 * n)
    ensures FromLittleEndian(LittleEndian(v, n)) == v
    decreases n
  {
    if n > 0 {
      Pow2Byte(8 * n - 8);
      LittleEndianRoundTrip(v / 256, n - 1);
    }
  }

  lemma LowByte(b: Byte, v: nat)
    ensures (b + 256 * v) % 256 == b && (b + 256 * v) / 256 == v
  {
  }

  lemma LittleEndianCons(b: Byte, v: nat, n: nat)
    ensures LittleEndian(b + 256 * v, n + 1) == [b] + LittleEndian(v, n)
  {
    var w := b + 256 * v;
    LowByte(b, v);
    assert LittleEndian(w, n + 1) == [w % 256] + LittleEndian(w / 256, n);
  }

  lemma {:induction false} FromLittleEndianRoundTrip(s: seq<Byte>)
    ensures FromLittleEndian(s) < Pow2(8 * |s|)
    ensures LittleEndian(FromLittleEndian(s), |s|) == s
  {
    if s != [] {
      FromLittleEndianRoundTrip(s[1..]);
      Pow2Byte(8 * |s| - 8);
      LittleEndianCons(s[0], FromLittleEndian(s[1..]), |s| - 1);
    }
  }
}
