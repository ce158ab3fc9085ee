/** Bitwise operations on unbounded naturals, and what they compute on the masks the crates use. */
module Bits {
  function Pow2(k: nat): (p: nat)
    ensures p >= 1
  {
    if k == 0 then 1 else 2 * Pow2(k - 1)
  }

  function Or(a: nat, b: nat): nat {
    if a == 0 && b == 0 then 0 else 2 * Or(a / 2, b / 2) + (if a % 2 == 1 || b % 2 == 1 then 1 else 0)
  }

  function And(a: nat, b: nat): nat {
    if a == 0 && b == 0 then 0 else 2 * And(a / 2, b / 2) + (if a % 2 == 1 && b % 2 == 1 then 1 else 0)
  }

  function Xor(a: nat, b: nat): nat {
    if a == 0 && b == 0 then 0 else 2 * Xor(a / 2, b / 2) + (if a % 2 != b % 2 then 1 else 0)
  }

  predicate Bit(n: nat, i: nat) {
    n / Pow2(i) % 2 == 1
  }

  lemma {:induction false} Pow2Sum(j: nat, k: nat)
    ensures Pow2(j + k) == Pow2(j) * Pow2(k)
  {
    if j > 0 {
      Pow2Sum(j - 1, k);
    }
  }

  lemma Square(k: nat, p: nat)
    requires Pow2(k) == p
    ensures Pow2(2 * k) == p * p
  {
    Pow2Sum(k, k);
  }

  lemma Halve(k: nat)
    requires k > 0
    ensures Pow2(k) == 2 * Pow2(k - 1)
  {
  }

  lemma {:induction false} OrZero(a: nat)
    ensures Or(a, 0) == a && Or(0, a) == a
  {
    if a > 0 {
      OrZero(a / 2);
    }
  }

  /** Bits that do not meet are combined by addition. */
  lemma {:induction false} OrDisjoint(a: nat, b: nat, k: nat)
    requires a < Pow2(k)
    ensures Or(a, b * Pow2(k)) == a + b * Pow2(k)
  {
    if k == 0 {
      OrZero(b);
    } else {
      var p := b * Pow2(k - 1);
      assert b * Pow2(k) == 2 * p;
      OrDisjoint(a / 2, b, k - 1);
    }
  }

  lemma {:induction false} AndZero(a: nat)
    ensures And(a, 0) == 0
  {
    if a > 0 {
      AndZero(a / 2);
    }
  }

  lemma {:induction false} AndOnes(a: nat, w: nat)
    requires a < Pow2(w)
    ensures And(a, Pow2(w) - 1) == a
  {
    if w > 0 {
      AndOnes(a / 2, w - 1);
    }
  }

  /** Masking away the low `k` bits rounds down to a multiple of `2^k`. */
  lemma {:induction false} AndHighMask(a: nat, w: nat, k: nat)
    requires a < Pow2(w) && k <= w
    ensures Pow2(w) >= Pow2(k)
    ensures And(a, Pow2(w) - Pow2(k)) == a / Pow2(k) * Pow2(k)
  {
    if k == 0 {
      AndOnes(a, w);
    } else {
      AndHighMask(a / 2, w - 1, k - 1);
      AndHighStep(a, Pow2(w - 1) - Pow2(k - 1), Pow2(k - 1));
    }
  }

  lemma AndHighStep(a: nat, m: nat, p: nat)
    requires p > 0 && And(a / 2, m) == a / 2 / p * p
    ensures And(a, 2 * m) == a / (2 * p) * (2 * p)
  {
    hide And;
    AndEven(a, m);
    HalveThenDivide(a, p);
    Regroup(a / 2 / p, p);
  }

  lemma AndEven(a: nat, m: nat)
    ensures And(a, 2 * m) == 2 * And(a / 2, m)
  {
  }

  lemma Regroup(q: nat, p: nat)
    ensures q * (2 * p) == 2 * (q * p)
  {
  }

  lemma HalveThenDivide(a: nat, p: nat)
    requires p > 0
    ensures a / 2 / p == a / (2 * p)
  {
    var q, r := a / 2 / p, a / 2 % p;
    assert a / 2 == q * p + r;
    assert a == q * (2 * p) + (2 * r + a % 2);
    DivisionIsUnique(a, 2 * p, q, 2 * r + a % 2);
  }

  lemma DivisionIsUnique(a: int, d: int, q: int, r: int)
    requires d > 0 && a == q * d + r && 0 <= r < d
    ensures a / d == q && a % d == r
  {
    SameQuotient(d, q, r, a / d, a % d);
  }

  lemma SameQuotient(d: int, q: int, r: int, q': int, r': int)
    requires q * d + r == q' * d + r' && 0 <= r < d && 0 <= r' < d
    ensures q == q' && r == r'
  {
    var diff := q - q';
    assert diff * d == r' - r;
    if diff >= 1 {
      AtLeastOnce(diff, d);
    } else if diff <= -1 {
      AtLeastOnce(-diff, d);
    }
  }

  lemma AtLeastOnce(n: int, d: int)
    requires n >= 1 && d > 0
    ensures n * d >= d
  {
  }

  lemma {:induction false} XorZero(a: nat)
    ensures Xor(a, 0) == a
  {
    if a > 0 {
      XorZero(a / 2);
    }
  }

  lemma XorEven(a: nat, m: nat)
    ensures Xor(a, 2 * m) == 2 * Xor(a / 2, m) + a % 2
  {
  }

  /** Xor with the top bit of `k + 1` flips it. */
  lemma {:induction false} XorTopBit(a: nat, k: nat)
    requires a < 2 * Pow2(k)
    ensures Xor(a, Pow2(k)) == if a >= Pow2(k) then a - Pow2(k) else a + Pow2(k)
  {
    if k == 0 {
      assert Xor(a / 2, 0) == 0;
    } else {
      XorTopBit(a / 2, k - 1);
      XorEven(a, Pow2(k - 1));
    }
  }

  /** Setting a bit above all others. */
  lemma SetTopBit(a: nat, k: nat)
    requires a < Pow2(k)
    ensures Or(a, Pow2(k)) == a + Pow2(k) < Pow2(k + 1)
    ensures forall i: nat | i < k :: Bit(a + Pow2(k), i) == Bit(a, i)
    ensures Bit(a + Pow2(k), k) && !Bit(a, k)
  {
    OrDisjoint(a, 1, k);
    DivisionIsUnique(a + Pow2(k), Pow2(k), 1, a);
    DivisionIsUnique(a, Pow2(k), 0, a);
    forall i: nat | i < k ensures Bit(a + Pow2(k), i) == Bit(a, i) {
      LowBitsStay(a, i, k);
    }
  }

  lemma LowBitsStay(a: nat, i: nat, k: nat)
    requires i < k
    ensures Bit(a + Pow2(k), i) == Bit(a, i)
  {
    var p, n := Pow2(i), Pow2(k - i);
    assert n % 2 == 0;
    Pow2Sum(k - i, i);
    hide Pow2;
    DivideSum(a, n, p);
  }

  lemma DivideSum(a: nat, n: nat, p: nat)
    requires p > 0
    ensures (a + n * p) / p == a / p + n
  {
    assert a + n * p == (a / p + n) * p + a % p;
    DivisionIsUnique(a + n * p, p, a / p + n, a % p);
  }
}
