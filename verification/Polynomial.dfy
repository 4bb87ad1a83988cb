/** Polynomials over the two-element field, as the finite set of exponents whose
    coefficient is one. */
module Polynomial {

  type Poly = set<nat>

  function Add(p: Poly, q: Poly): Poly {
    (p - q) + (q - p)
  }

  /** `p` times x to the power `n`. */
  function Shift(p: Poly, n: nat): (r: Poly)
    ensures forall e :: e in r <==> e >= n && e - n in p
  {
    set e | e in p :: e + n
  }

  /** `q` times `p`, for `q` of degree below `n`. */
  function Mul(q: Poly, p: Poly, n: nat): Poly {
    if n == 0 then {} else Add(Mul(q, p, n - 1), if n - 1 in q then Shift(p, n - 1) else {})
  }

  predicate Below(p: Poly, n: nat) {
    forall e :: e in p ==> e < n
  }

  predicate HasDegree(p: Poly, d: nat) {
    d in p && Below(p, d + 1)
  }

  /** Long division: clear the exponents `n - 1 + d` down to `d` one after the other. */
  function Remainder(a: Poly, p: Poly, d: nat, n: nat): Poly
    decreases n
  {
    if n == 0 then a
    else Remainder(if n - 1 + d in a then Add(a, Shift(p, n - 1)) else a, p, d, n - 1)
  }

  /** `r` is what is left of `a` after division by `p` of degree `d`. */
  ghost predicate IsRemainder(a: Poly, p: Poly, d: nat, r: Poly) {
    Below(r, d) && exists q, n :: Below(q, n) && a == Add(Mul(q, p, n), r)
  }

  lemma {:induction false} MulOutside(q: Poly, p: Poly, n: nat, m: nat)
    requires m >= n
    ensures Mul(q + {m}, p, n) == Mul(q, p, n)
  {
    if n > 0 {
      MulOutside(q, p, n - 1, m);
    }
  }

  lemma {:induction false} MulAdd(q: Poly, s: Poly, p: Poly, n: nat)
    ensures Mul(Add(q, s), p, n) == Add(Mul(q, p, n), Mul(s, p, n))
  {
    if n > 0 {
      MulAdd(q, s, p, n - 1);
    }
  }

  lemma {:induction false} MulWiden(q: Poly, p: Poly, n: nat, m: nat)
    requires Below(q, n) && n <= m
    ensures Mul(q, p, m) == Mul(q, p, n)
    decreases m
  {
    if n < m {
      MulWiden(q, p, n, m - 1);
    }
  }

  lemma {:induction false} MulBelow(q: Poly, p: Poly, d: nat, n: nat)
    requires HasDegree(p, d)
    ensures Below(Mul(q, p, n), n + d)
  {
    if n > 0 {
      MulBelow(q, p, d, n - 1);
    }
  }

  /** A nonzero multiple has at least the degree of its divisor. */
  lemma {:induction false} MulReaches(q: Poly, p: Poly, d: nat, n: nat)
    requires HasDegree(p, d) && Below(q, n) && q != {}
    ensures exists e :: e in Mul(q, p, n) && e >= d
  {
    if n - 1 in q {
      MulBelow(q, p, d, n - 1);
      assert n - 1 + d in Mul(q, p, n);
    } else {
      assert Below(q, n - 1);
      MulReaches(q, p, d, n - 1);
      assert Mul(q, p, n) == Mul(q, p, n - 1);
    }
  }

  /** Long division finds a quotient. */
  lemma {:induction false} DivisionExists(a: Poly, p: Poly, d: nat, n: nat) returns (q: Poly)
    requires HasDegree(p, d) && Below(a, n + d)
    ensures Below(Remainder(a, p, d, n), d)
    ensures Below(q, n) && a == Add(Mul(q, p, n), Remainder(a, p, d, n))
    decreases n
  {
    if n == 0 {
      q := {};
    } else if n - 1 + d in a {
      var a' := Add(a, Shift(p, n - 1));
      assert Below(a', n - 1 + d);
      var q' := DivisionExists(a', p, d, n - 1);
      q := q' + {n - 1};
      MulOutside(q', p, n - 1, n - 1);
      assert Mul(q, p, n) == Add(Mul(q', p, n - 1), Shift(p, n - 1));
    } else {
      q := DivisionExists(a, p, d, n - 1);
      MulWiden(q, p, n - 1, n);
    }
  }

  lemma AddCancels(x: Poly, y: Poly, r: Poly, s: Poly)
    requires Add(x, r) == Add(y, s)
    ensures Add(x, y) == Add(r, s)
  {
    assert forall e :: e in Add(x, r) <==> e in Add(y, s);
  }

  lemma AddNothing(p: Poly, q: Poly)
    ensures Add(p, q) == {} <==> p == q
  {
    if Add(p, q) == {} {
      assert p - q == {} && q - p == {};
    }
  }

  /** A difference of remainders is a multiple, and too small for one. */
  lemma RemaindersAgree(p: Poly, d: nat, u: Poly, w: nat, r: Poly, s: Poly)
    requires HasDegree(p, d) && Below(u, w) && Below(r, d) && Below(s, d)
    requires Mul(u, p, w) == Add(r, s)
    ensures u == {}
  {
    if u != {} {
      MulReaches(u, p, d, w);
    }
  }

  lemma {:induction false} MulNothing(p: Poly, n: nat)
    ensures Mul({}, p, n) == {}
  {
    if n > 0 {
      MulNothing(p, n - 1);
    }
  }

  lemma RemainderUnique(a: Poly, p: Poly, d: nat, r: Poly, s: Poly)
    requires HasDegree(p, d)
    requires IsRemainder(a, p, d, r) && IsRemainder(a, p, d, s)
    ensures r == s
  {
    var q, n :| Below(q, n) && a == Add(Mul(q, p, n), r);
    var t, m :| Below(t, m) && a == Add(Mul(t, p, m), s);
    var w := if n < m then m else n;
    MulWiden(q, p, n, w);
    MulWiden(t, p, m, w);
    MulAdd(q, t, p, w);
    AddCancels(Mul(q, p, w), Mul(t, p, w), r, s);
    RemaindersAgree(p, d, Add(q, t), w, r, s);
    MulNothing(p, w);
    AddNothing(r, s);
  }

  /** Division with remainder: long division computes the remainder, and there is no other. */
  lemma RemainderIff(a: Poly, p: Poly, d: nat, n: nat, r: Poly)
    requires HasDegree(p, d) && Below(a, n + d)
    ensures IsRemainder(a, p, d, r) <==> r == Remainder(a, p, d, n)
  {
    var q := DivisionExists(a, p, d, n);
    if IsRemainder(a, p, d, r) {
      RemainderUnique(a, p, d, r, Remainder(a, p, d, n));
    }
  }
}
