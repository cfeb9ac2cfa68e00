/**
 Bitwise operations of the C code on unsigned values, defined digit by digit, and what they
 compute for powers of two.
 */
module Bits {

  function Pow2(k: nat): (p: nat)
    ensures p >= 1
  {
    if k == 0 then 1 else 2 * Pow2(k - 1)
  }

  /** `a & b`, one binary digit at a time. */
  function BitAnd(a: nat, b: nat): nat
    decreases a
  {
    if a == 0 || b == 0 then 0
    else (if a % 2 == 1 && b % 2 == 1 then 1 else 0) + 2 * BitAnd(a / 2, b / 2)
  }

  /** `a >> k`, one binary digit at a time. */
  function ShiftRight(a: nat, k: nat): nat
    decreases k
  {
    if k == 0 then a else ShiftRight(a / 2, k - 1)
  }

  /** Masking with 2^k - 1 is reduction modulo 2^k. */
  lemma {:induction false} MaskIsMod(a: nat, k: nat)
    ensures BitAnd(a, Pow2(k) - 1) == a % Pow2(k)
    decreases k
  {
    hide Pow2, BitAnd;
    Power(k);
    if k == 0 {
      MaskNone(a);
    } else {
      MaskIsMod(a / 2, k - 1);
      MaskStep(a, Pow2(k - 1), Pow2(k));
    }
  }

  lemma Power(k: nat)
    ensures Pow2(k) == if k == 0 then 1 else Pow2(k - 1) + Pow2(k - 1)
  {
  }

  lemma MaskNone(a: nat)
    ensures BitAnd(a, 0) == 0 == a % 1
  {
  }

  lemma MaskStep(a: nat, p: nat, m: nat)
    requires p >= 1 && m == p + p && BitAnd(a / 2, p - 1) == (a / 2) % p
    ensures BitAnd(a, m - 1) == a % m
  {
    ModSplit(a, p, m);
    if a > 0 {
      BitAndOdd(a, p);
    }
  }

  lemma BitAndOdd(a: nat, p: nat)
    requires a > 0 && p >= 1
    ensures BitAnd(a, p + p - 1) == a % 2 + 2 * BitAnd(a / 2, p - 1)
  {
    assert (p + p - 1) / 2 == p - 1;
    assert (p + p - 1) % 2 == 1;
  }

  lemma ModSplit(a: nat, p: nat, m: nat)
    requires p >= 1 && m == p + p
    ensures a % m == a % 2 + 2 * ((a / 2) % p)
    ensures a / m == (a / 2) / p
  {
    var h := a / 2;
    var q, r := h / p, h % p;
    assert h == p * q + r;
    DoubleTerm(p, m, q);
    assert p * (q + q) == p * q + p * q;
    DivModUnique(a, m, q, a % 2 + 2 * r);
  }

  lemma {:induction false} MulMonotone(d: nat, x: nat, y: nat)
    requires x < y
    ensures d * x + d <= d * y
  {
    assert d * y == d * (y - 1) + d;
    if x + 1 < y {
      MulMonotone(d, x, y - 1);
    }
  }

  lemma DivModUnique(a: nat, d: nat, q: nat, r: nat)
    requires a == d * q + r && r < d
    ensures a / d == q && a % d == r
  {
    var q', r' := a / d, a % d;
    assert d * q' + r' == d * q + r;
    if q < q' {
      MulMonotone(d, q, q');
    } else if q' < q {
      MulMonotone(d, q', q);
    }
  }

  /** Shifting right by k is division by 2^k. */
  lemma {:induction false} ShiftIsDiv(a: nat, k: nat)
    ensures ShiftRight(a, k) == a / Pow2(k)
    decreases k
  {
    if k > 0 {
      ShiftIsDiv(a / 2, k - 1);
      ModSplit(a, Pow2(k - 1), Pow2(k));
    }
  }

  /** Doubling the modulus keeps a residue or moves it up by the old modulus. */
  lemma ModDouble(a: nat, p: nat, m: nat)
    requires p >= 1 && m == p + p
    ensures (a % m) % p == a % p
    ensures a % m == a % p || a % m == a % p + p
  {
    var q, r := a / m, a % m;
    assert a == m * q + r;
    DoubleTerm(p, m, q);
    Residue(a, p, q + q, r);
  }

  lemma DoubleTerm(p: nat, m: nat, q: nat)
    requires m == p + p
    ensures m * q == p * (q + q)
  {
  }

  lemma Residue(a: nat, p: nat, q: nat, r: nat)
    requires p >= 1 && a == p * q + r && r < p + p
    ensures r % p == a % p
    ensures r == a % p || r == a % p + p
  {
    if r < p {
      DivModUnique(a, p, q, r);
      DivModUnique(r, p, 0, r);
    } else {
      assert p * (q + 1) == p * q + p;
      DivModUnique(a, p, q + 1, r - p);
      DivModUnique(r, p, 1, r - p);
    }
  }
}
