/**
 * The signed 256-bit integer: a `U256` read as two's complement. `U256` is the integers modulo `2^256`.
 */
module Int256 {
  import opened Bits
  import opened Bytes
  import opened AbiTypes
  import opened AbiSpec
  import opened AbiRoundTrip

  const TWO_255: nat := 0x8000000000000000_0000000000000000_0000000000000000_0000000000000000
  const TWO_256: nat := 0x1_0000000000000000_0000000000000000_0000000000000000_0000000000000000

  type U256 = n: nat | n < TWO_256

  /** `U256` arithmetic that wraps. */
  function Wrap(n: int): U256 {
    n % TWO_256
  }

  datatype I256 = I256(raw: U256) {
    /** The number the bits stand for. */
    function ToInt(): int {
      if raw < TWO_255 then raw else raw - TWO_256
    }

    /** The top bit. */
    predicate IsNegative() {
      raw >= TWO_255
    }

    function UnsignedAbs(): U256 {
      if IsNegative() then Wrap(0 - raw) else raw
    }

    function OverflowingAdd(rhs: I256): (I256, bool) {
      var result := I256(Wrap(raw + rhs.raw));
      (result, IsNegative() == rhs.IsNegative() && result.IsNegative() != IsNegative())
    }

    function OverflowingSub(rhs: I256): (I256, bool) {
      var result := I256(Wrap(raw - rhs.raw));
      (result, IsNegative() != rhs.IsNegative() && result.IsNegative() == rhs.IsNegative())
    }

    function OverflowingMul(rhs: I256): (I256, bool) {
      if raw == 0 || rhs.raw == 0 then (I256(0), false)
      else
        var resultNegative := IsNegative() != rhs.IsNegative();
        var product: nat := UnsignedAbs() * rhs.UnsignedAbs();
        var abs, absOverflow := Wrap(product), product >= TWO_256;
        var signed := if resultNegative then I256(Wrap(0 - abs)) else I256(abs);
        var rangeOverflow := if resultNegative then abs > MIN.UnsignedAbs() else abs > MAX.raw;
        (signed, absOverflow || rangeOverflow)
    }

    // The operators work on the bits, without a flag.

    function Plus(rhs: I256): I256 {
      I256(Wrap(raw + rhs.raw))
    }

    function Minus(rhs: I256): I256 {
      I256(Wrap(raw - rhs.raw))
    }

    function Times(rhs: I256): I256 {
      I256(Wrap(raw * rhs.raw))
    }

    function Negated(): I256 {
      I256(Wrap(0 - raw))
    }

    function WrappingAbs(): I256 {
      if IsNegative() then Negated() else this
    }

    /** Arithmetic right shift; `wrapping_shr` by 256 or more gives zero. */
    function Shr(n: nat): I256 {
      var logical: U256 := if n >= 256 then 0 else ShiftDown(raw, n);
      if IsNegative() && n > 0 then
        if n >= 256 then MINUS_ONE
        else I256(Wrap(Or(logical, Wrap((TWO_256 - 1) * Pow2(256 - n)))))
      else I256(logical)
    }

    function Div(rhs: I256): I256
      requires rhs.raw != 0
    {
      if this == MIN && rhs == MINUS_ONE then MIN
      else
        var abs: U256 := QuotientFits(UnsignedAbs(), rhs.UnsignedAbs());
        if IsNegative() != rhs.IsNegative() then I256(Wrap(0 - abs)) else I256(abs)
    }

    function Rem(rhs: I256): I256
      requires rhs.raw != 0
    {
      if this == MIN && rhs == MINUS_ONE then I256(0)
      else
        var abs: U256 := RemainderFits(UnsignedAbs(), rhs.UnsignedAbs());
        if IsNegative() then I256(Wrap(0 - abs)) else I256(abs)
    }

    /** `cmp`: flip both sign bits and compare unsigned; the result is the sign of the difference. */
    function Compare(rhs: I256): int {
      var a, b := Xor(raw, TWO_255), Xor(rhs.raw, TWO_255);
      if a < b then -1 else if a > b then 1 else 0
    }
  }

  const MIN := I256(TWO_255)
  const MAX := I256(TWO_255 - 1)
  const MINUS_ONE := I256(TWO_256 - 1)

  function ShiftDown(a: U256, n: nat): U256 {
    AtMost(a, Pow2(n));
    a / Pow2(n)
  }

  function QuotientFits(a: U256, b: nat): U256
    requires b > 0
  {
    AtMost(a, b);
    a / b
  }

  function RemainderFits(a: U256, b: U256): U256
    requires b > 0
  {
    a % b
  }

  lemma AtMost(a: nat, b: nat)
    requires b > 0
    ensures 0 <= a / b <= a
  {
    var q := a / b;
    assert a == q * b + a % b;
    TimesAtLeastOne(q, b);
  }

  lemma TimesAtLeastOne(q: nat, b: nat)
    requires b > 0
    ensures q * b >= q
  {
  }

  predicate InRange(n: int) {
    0 - TWO_255 <= n < TWO_255
  }

  /** The two's complement number that `n` wraps to. */
  function Of(n: int): I256 {
    I256(Wrap(n))
  }

  // ---------------------------------------------------------------------------
  // Addition, subtraction, multiplication
  // ---------------------------------------------------------------------------

  /** The wrapped result is the exact one iff that is in range; otherwise it is off by `2^256`. */
  lemma OfInRange(n: int)
    ensures Of(n).ToInt() == n <==> InRange(n)
  {
  }

  /** A number that is off by at most one modulus. */
  lemma WrapOnce(n: int)
    requires 0 - TWO_256 <= n < 2 * TWO_256
    ensures Wrap(n) == if n < 0 then n + TWO_256 else if n < TWO_256 then n else n - TWO_256
  {
  }

  /** The flag of `overflowing_add` says exactly whether the integer sum is out of range. */
  lemma AddIsExact(a: I256, b: I256)
    ensures var (r, overflow) := a.OverflowingAdd(b);
            && r == Of(a.ToInt() + b.ToInt()) && (overflow <==> !InRange(a.ToInt() + b.ToInt()))
            && (overflow <==> r.ToInt() != a.ToInt() + b.ToInt())
  {
    OfInRange(a.ToInt() + b.ToInt());
    WrapOnce(a.raw + b.raw);
    WrapOnce(a.ToInt() + b.ToInt());
    hide Wrap;
  }

  lemma SubIsExact(a: I256, b: I256)
    ensures var (r, overflow) := a.OverflowingSub(b);
            && r == Of(a.ToInt() - b.ToInt()) && (overflow <==> !InRange(a.ToInt() - b.ToInt()))
            && (overflow <==> r.ToInt() != a.ToInt() - b.ToInt())
  {
    OfInRange(a.ToInt() - b.ToInt());
    WrapOnce(a.raw - b.raw);
    WrapOnce(a.ToInt() - b.ToInt());
    hide Wrap;
  }

  /** `unsigned_abs` is the absolute value, also of the least number. */
  lemma AbsIsExact(a: I256)
    ensures a.UnsignedAbs() == if a.ToInt() < 0 then -a.ToInt() else a.ToInt()
    ensures a.IsNegative() <==> a.ToInt() < 0
    ensures a.raw == 0 <==> a.ToInt() == 0
  {
  }

  lemma SignedProduct(a: int, b: int)
    ensures var p := (if a < 0 then -a else a) * (if b < 0 then -b else b);
            p >= 0 && a * b == if (a < 0) != (b < 0) then -p else p
  {
  }

  /** Also when the product of the absolute values itself wraps. */
  lemma MulIsExact(a: I256, b: I256)
    ensures var (r, overflow) := a.OverflowingMul(b);
            && r == Of(a.ToInt() * b.ToInt()) && (overflow <==> !InRange(a.ToInt() * b.ToInt()))
            && (overflow <==> r.ToInt() != a.ToInt() * b.ToInt())
  {
    MulWraps(a, b);
    OfInRange(a.ToInt() * b.ToInt());
    hide *;
  }

  lemma MulWraps(a: I256, b: I256)
    ensures var (r, overflow) := a.OverflowingMul(b);
            r == Of(a.ToInt() * b.ToInt()) && (overflow <==> !InRange(a.ToInt() * b.ToInt()))
  {
    AbsIsExact(a);
    AbsIsExact(b);
    SignedProduct(a.ToInt(), b.ToInt());
    if a.raw != 0 && b.raw != 0 {
      assert MIN.UnsignedAbs() == TWO_255;
      hide I256.UnsignedAbs, I256.ToInt, I256.IsNegative, Wrap;
      PositiveProduct(a.UnsignedAbs(), b.UnsignedAbs());
      SignedWrap(a.UnsignedAbs() * b.UnsignedAbs(), a.IsNegative() != b.IsNegative());
    }
  }

  lemma PositiveProduct(a: nat, b: nat)
    requires a > 0 && b > 0
    ensures a * b > 0
  {
  }

  /** The core of multiplication, on the product `p` of the absolute values. */
  lemma SignedWrap(p: nat, negative: bool)
    requires p > 0
    ensures var n := if negative then 0 - p else p;
            var abs := Wrap(p);
            && (if negative then I256(Wrap(0 - abs)) else I256(abs)) == Of(n)
            && ((p >= TWO_256 || (if negative then abs > TWO_255 else abs > TWO_255 - 1)) <==> !InRange(n))
  {
    if negative {
      NegatedRemainder(p, TWO_256);
    }
  }

  lemma NegatedRemainder(p: nat, m: nat)
    requires m > 0
    ensures (0 - p % m) % m == (0 - p) % m
  {
    var q, r := p / m, p % m;
    assert p == q * m + r;
    if r == 0 {
      DivisionIsUnique(0 - p, m, -q, 0);
    } else {
      DivisionIsUnique(0 - p, m, -q - 1, m - r);
      DivisionIsUnique(0 - r, m, -1, m - r);
    }
  }

  /** A multiple of the modulus makes no difference. */
  lemma WrapShift(n: int, k: int)
    ensures Wrap(n + k * TWO_256) == Wrap(n)
  {
    DivisionIsUnique(n + k * TWO_256, TWO_256, n / TWO_256 + k, n % TWO_256);
  }

  /** The bits are the number, up to a multiple of the modulus. */
  lemma RawIs(a: I256) returns (k: int)
    ensures a.raw == a.ToInt() + k * TWO_256
  {
    k := if a.IsNegative() then 1 else 0;
  }

  lemma ProductShift(a: int, j: int, b: int, k: int, m: int)
    ensures (a + j * m) * (b + k * m) == a * b + (a * k + j * b + j * k * m) * m
  {
  }

  /** The operators, which work on the bits alone, are integer arithmetic modulo `2^256`. */
  lemma OperatorsAreModular(a: I256, b: I256)
    ensures a.Plus(b) == Of(a.ToInt() + b.ToInt())
    ensures a.Minus(b) == Of(a.ToInt() - b.ToInt())
    ensures a.Times(b) == Of(a.ToInt() * b.ToInt())
    ensures a.Negated() == Of(-a.ToInt())
    ensures a.WrappingAbs() == Of(if a.ToInt() < 0 then -a.ToInt() else a.ToInt())
  {
    AbsIsExact(a);
    var j := RawIs(a);
    var k := RawIs(b);
    hide Wrap, I256.ToInt, I256.IsNegative, I256.UnsignedAbs;
    WrapShift(a.ToInt() + b.ToInt(), j + k);
    WrapShift(a.ToInt() - b.ToInt(), j - k);
    WrapShift(-a.ToInt(), -j);
    WrapShift(a.ToInt(), j);
    ProductShift(a.ToInt(), j, b.ToInt(), k, TWO_256);
    WrapShift(a.ToInt() * b.ToInt(), a.ToInt() * k + j * b.ToInt() + j * k * TWO_256);
    WrapRaw(a);
  }

  lemma WrapRaw(a: I256)
    ensures Wrap(a.raw) == a.raw
  {
  }

  // ---------------------------------------------------------------------------
  // Division and remainder
  // ---------------------------------------------------------------------------

  /** Division truncates toward zero and the remainder takes the dividend's sign, except for `MIN / -1`. */
  lemma DivRemIsExact(a: I256, b: I256)
    requires b.raw != 0 && !(a == MIN && b == MINUS_ONE)
    ensures var (q, r) := (a.Div(b).ToInt(), a.Rem(b).ToInt());
            && a.ToInt() == q * b.ToInt() + r
            && Abs(r) < Abs(b.ToInt())
            && (r != 0 ==> (r < 0 <==> a.ToInt() < 0))
  {
    AbsIsExact(a);
    AbsIsExact(b);
    DivToInt(a, b);
    RemToInt(a, b);
    SignedDivision(a.ToInt(), b.ToInt());
  }

  function Abs(n: int): nat {
    if n < 0 then -n else n
  }

  /** Dividing absolute values and restoring signs is division over the integers. */
  lemma SignedDivision(a: int, b: int)
    requires b != 0
    ensures var abs, rem := Abs(a) / Abs(b), Abs(a) % Abs(b);
            a == (if (a < 0) != (b < 0) then 0 - abs else abs) * b + (if a < 0 then 0 - rem else rem)
  {
    var abs, rem := Abs(a) / Abs(b), Abs(a) % Abs(b);
    assert Abs(a) == abs * Abs(b) + rem;
    Negate(abs, Abs(b));
  }

  lemma DivToInt(a: I256, b: I256)
    requires b.raw != 0 && !(a == MIN && b == MINUS_ONE)
    ensures a.Div(b).ToInt() ==
            var abs := a.UnsignedAbs() / b.UnsignedAbs();
            if a.IsNegative() != b.IsNegative() then 0 - abs else abs
  {
    var abs := QuotientFits(a.UnsignedAbs(), b.UnsignedAbs());
    QuotientInRange(a, b, abs);
    RestoreSign(abs, a.IsNegative() != b.IsNegative());
  }

  lemma RemToInt(a: I256, b: I256)
    requires b.raw != 0 && !(a == MIN && b == MINUS_ONE)
    ensures a.Rem(b).ToInt() ==
            var rem := a.UnsignedAbs() % b.UnsignedAbs();
            if a.IsNegative() then 0 - rem else rem
  {
    var rem := RemainderFits(a.UnsignedAbs(), b.UnsignedAbs());
    AbsIsExact(b);
    RestoreSign(rem, a.IsNegative());
  }

  /** Negating the bits negates the number. */
  lemma RestoreSign(abs: U256, negative: bool)
    requires abs <= TWO_255 && (abs == TWO_255 ==> negative)
    ensures (if negative then I256(Wrap(0 - abs)) else I256(abs)).ToInt() == if negative then 0 - abs else abs
  {
  }

  lemma Negate(q: int, n: int)
    ensures (-q) * n == -(q * n) == q * (-n) && (-q) * (-n) == q * n
  {
  }

  /** The absolute quotient fits with its sign; it is `2^255` only for a negative result. */
  lemma QuotientInRange(a: I256, b: I256, abs: nat)
    requires b.raw != 0 && !(a == MIN && b == MINUS_ONE)
    requires abs == a.UnsignedAbs() / b.UnsignedAbs()
    ensures abs <= TWO_255 && (abs == TWO_255 ==> a.IsNegative() != b.IsNegative())
  {
    AbsIsExact(a);
    AbsIsExact(b);
    hide I256.UnsignedAbs;
    var m, n := a.UnsignedAbs(), b.UnsignedAbs();
    AtMost(m, n);
    assert m == abs * n + m % n;
    if n >= 2 {
      TimesAtLeastTwo(abs, n);
    }
  }

  lemma TimesAtLeastTwo(q: nat, n: nat)
    requires n >= 2
    ensures q * n >= 2 * q
  {
  }

  /** In the one excluded case the quotient `2^255` is out of range, and wraps to `MIN`. */
  lemma DivOverflowsOnlyOnce()
    ensures MIN.Div(MINUS_ONE) == MIN && MIN.ToInt() * MINUS_ONE.ToInt() == TWO_255 && !InRange(TWO_255)
    ensures MIN.Rem(MINUS_ONE) == I256(0)
  {
  }

  // ---------------------------------------------------------------------------
  // Shift and comparison
  // ---------------------------------------------------------------------------

  /** `a >> n` is the floor of `a / 2^n`, for every `n`. */
  lemma ShrIsFloor(a: I256, n: nat)
    ensures a.Shr(n).ToInt() == a.ToInt() / Pow2(n)
  {
    if n >= 256 {
      LargeShift(a.ToInt(), n);
    } else if a.IsNegative() && n > 0 {
      NegativeShift(a, n);
    } else {
      AtMost(a.raw, Pow2(n));
    }
  }

  lemma TwoTo256()
    ensures Pow2(256) == TWO_256 && Pow2(255) == TWO_255
  {
    assert Pow2(4) == 16;
    Halve(256);
    hide Pow2;
    Square(4, 16);
    Square(8, 0x100);
    Square(16, 0x1_0000);
    Square(32, 0x1_0000_0000);
    Square(64, 0x1_0000_0000_0000_0000);
    Square(128, 0x1_0000_0000_0000_0000_0000_0000_0000_0000);
  }

  lemma LargeShift(n: int, k: nat)
    requires InRange(n) && k >= 256
    ensures n / Pow2(k) == if n < 0 then -1 else 0
  {
    TwoTo256();
    Pow2Sum(k - 256, 256);
    AtLeastOnce(Pow2(k - 256), Pow2(256));
    DivisionIsUnique(n, Pow2(k), if n < 0 then -1 else 0, if n < 0 then n + Pow2(k) else n);
  }

  lemma NegativeShift(a: I256, n: nat)
    requires a.IsNegative() && 0 < n < 256
    ensures a.Shr(n).ToInt() == a.ToInt() / Pow2(n)
  {
    ShiftProduct(n);
    ShrUnfolds(a, n);
    hide Pow2, Or, I256.Shr, Wrap;
    var p, m := Pow2(n), Pow2(256 - n);
    NegativeShiftBits(a.raw, p, m, 256 - n);
    MaskBits(m);
    WrapSmall(Or(a.raw / p, TWO_256 - m));
  }

  lemma WrapSmall(n: nat)
    requires n < TWO_256
    ensures Wrap(n) == n
  {
  }

  lemma ShiftProduct(n: nat)
    requires 0 < n < 256
    ensures Pow2(n) >= 2 && Pow2(256 - n) * Pow2(n) == TWO_256
  {
    TwoTo256();
    Pow2Sum(256 - n, n);
  }

  lemma ShrUnfolds(a: I256, n: nat)
    requires a.IsNegative() && 0 < n < 256
    ensures 0 <= a.raw / Pow2(n) < TWO_256
    ensures a.Shr(n) == I256(Wrap(Or(a.raw / Pow2(n), Wrap((TWO_256 - 1) * Pow2(256 - n)))))
  {
    hide Pow2, Or;
    AtMost(a.raw, Pow2(n));
  }

  lemma NegativeShiftBits(raw: U256, p: nat, m: nat, k: nat)
    requires p >= 2 && m == Pow2(k) && m * p == TWO_256 && raw >= TWO_255
    ensures raw / p < TWO_256 && m < TWO_256
    ensures var q := (raw - TWO_256) / p; 0 - TWO_255 <= q < 0 && Or(raw / p, TWO_256 - m) == q + TWO_256
  {
    hide Pow2, Or;
    ShiftedBits(raw, p, m);
    MaskTimes(p, m);
    OrDisjoint(raw / p, p - 1, k);
  }

  lemma MaskTimes(p: nat, m: nat)
    requires m * p == TWO_256 && p >= 2
    ensures m < TWO_256 && (p - 1) * m == TWO_256 - m
  {
    TimesAtLeastTwo(m, p);
  }

  /** Shifting the bits of `raw - 2^256`, seen unsigned. */
  lemma ShiftedBits(raw: U256, p: nat, m: nat)
    requires p >= 2 && m > 0 && m * p == TWO_256 && raw >= TWO_255
    ensures var q := (raw - TWO_256) / p;
            0 - TWO_255 <= q < 0 && q + m >= 0 && raw / p == q + m
  {
    var q, r := (raw - TWO_256) / p, (raw - TWO_256) % p;
    assert raw - TWO_256 == q * p + r;
    assert raw == (q + m) * p + r;
    DivisionIsUnique(raw, p, q + m, r);
    AtMost(raw, p);
  }

  /** The low bits of `2^256 - 1` times `m`. */
  lemma MaskBits(m: nat)
    requires 0 < m <= TWO_256
    ensures Wrap((TWO_256 - 1) * m) == if m == TWO_256 then 0 else TWO_256 - m
  {
    var k := m - 1;
    assert (TWO_256 - 1) * m == TWO_256 * k + (TWO_256 - m);
  }

  /** `cmp` is the integer order. */
  lemma CompareIsOrder(a: I256, b: I256)
    ensures a.Compare(b) < 0 <==> a.ToInt() < b.ToInt()
    ensures a.Compare(b) == 0 <==> a == b
    ensures a.Compare(b) > 0 <==> a.ToInt() > b.ToInt()
  {
    TwoTo256();
    XorTopBit(a.raw, 255);
    XorTopBit(b.raw, 255);
  }

  // ---------------------------------------------------------------------------
  // Conversion from the native integers
  // ---------------------------------------------------------------------------

  /** The 32-byte buffer of `From<iN>`: fill bytes, then the `w` bytes of `v` in two's complement. */
  function SignExtended(w: nat, v: int): (buf: seq<byte>)
    requires w <= 32
    ensures |buf| == 32
  {
    Fill(32 - w, if v < 0 then 0xff else 0) + BE(w, v % Pow256(w))
  }

  lemma Pow256OfWord()
    ensures Pow256(32) == TWO_256
  {
    Pow256OfEight();
    Pow256Sum(8, 8);
    Pow256Sum(16, 16);
  }

  /** Sign extension keeps the number, and its bytes are the ABI encoding of `int<8w>`. */
  lemma FromIsExact(w: nat, v: int)
    requires w <= 32 && FitsInt(v, w)
    ensures SignExtended(w, v) == SignedWord(v)
    ensures FromBE(SignExtended(w, v)) < TWO_256 && I256(FromBE(SignExtended(w, v))).ToInt() == v
  {
    SignedWide(32, w, v);
    TwosComplement(v, Pow256(w));
    Pow256OfWord();
    Pow256Monotone(w, 32);
    FromBEInvertsBE(32, v % Pow256(32));
    hide BE, FromBE, Fill, Pow256;
    TwosComplement(v, TWO_256);
  }
}
