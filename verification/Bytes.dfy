/**
 * Bytes, big-endian integers and the `usize` arithmetic the codec is written in.
 */
module Bytes {
  import Bits
  import opened Wrappers

  type byte = b: int | 0 <= b < 256

  /** `usize` is 64 bits wide on the contract target. */
  const USIZE_LIMIT: nat := 0x1_0000_0000_0000_0000

  /** No Rust object, so no slice, is larger than `isize::MAX` bytes. */
  const ISIZE_MAX: nat := 0x7fff_ffff_ffff_ffff

  function Pow256(k: nat): (p: nat)
    ensures p >= 1
  {
    if k == 0 then 1 else 256 * Pow256(k - 1)
  }

  /** The low `k` base-256 digits of `n`, most significant first. */
  function BE(k: nat, n: nat): (bs: seq<byte>)
    ensures |bs| == k
  {
    if k == 0 then [] else BE(k - 1, n / 256) + [n % 256]
  }

  function FromBE(bs: seq<byte>): (n: nat)
    ensures n < Pow256(|bs|)
  {
    if |bs| == 0 then 0 else FromBE(bs[..|bs| - 1]) * 256 + bs[|bs| - 1]
  }

  function Fill(k: nat, b: byte): (bs: seq<byte>)
    ensures |bs| == k
  {
    seq(k, i => b)
  }

  lemma {:induction false} FromBEInvertsBE(k: nat, n: nat)
    requires n < Pow256(k)
    ensures FromBE(BE(k, n)) == n
  {
    if k > 0 {
      FromBEInvertsBE(k - 1, n / 256);
      assert BE(k, n)[..k - 1] == BE(k - 1, n / 256);
    }
  }

  lemma {:induction false} BEInvertsFromBE(bs: seq<byte>)
    ensures BE(|bs|, FromBE(bs)) == bs
  {
    if |bs| > 0 {
      var front, last := bs[..|bs| - 1], bs[|bs| - 1];
      BEInvertsFromBE(front);
      var n := FromBE(front);
      assert FromBE(bs) == n * 256 + last;
      assert (n * 256 + last) / 256 == n && (n * 256 + last) % 256 == last;
      assert BE(|bs|, FromBE(bs)) == BE(|bs| - 1, n) + [last];
      hide *;
      assert bs == front + [last];
    }
  }

  /** Digit by digit: the byte at `i` is the digit of weight `256^(k - 1 - i)`. */
  lemma {:induction false} BEDigit(k: nat, n: nat, i: nat)
    requires i < k
    ensures BE(k, n)[i] == n / Pow256(k - 1 - i) % 256
  {
    if i < k - 1 {
      BEDigit(k - 1, n / 256, i);
      DivideTwice(n, 256, Pow256(k - 2 - i));
    }
  }

  lemma DivideTwice(n: nat, a: nat, b: nat)
    requires a > 0 && b > 0
    ensures a * b > 0 && n / a / b == n / (a * b)
  {
    var x := n / a;
    assert n == x * a + n % a && x == (x / b) * b + x % b;
    DivideParts(n, x, n % a, x / b, x % b, a, b);
  }

  lemma DivideParts(n: nat, x: nat, s: nat, q: nat, r: nat, a: nat, b: nat)
    requires s < a && r < b && n == x * a + s && x == q * b + r
    ensures a * b > 0 && n / (a * b) == q
  {
    Expand(q, b, r, a);
    SmallRemainder(r, b, s, a);
    assert n == q * (a * b) + (r * a + s);
    Bits.DivisionIsUnique(n, a * b, q, r * a + s);
  }

  lemma Expand(q: nat, b: nat, r: nat, a: nat)
    ensures (q * b + r) * a == q * (a * b) + r * a
  {
  }

  lemma SmallRemainder(r: nat, b: nat, s: nat, a: nat)
    requires r < b && s < a
    ensures r * a + s < a * b
  {
    assert r * a <= (b - 1) * a;
  }

  /** Writing the high and the low digits separately writes the whole number. */
  lemma {:induction false} BESplit(j: nat, k: nat, high: nat, low: nat)
    requires low < Pow256(k)
    ensures BE(j + k, high * Pow256(k) + low) == BE(j, high) + BE(k, low)
  {
    if k > 0 {
      var n := high * Pow256(k) + low;
      assert high * Pow256(k) == 256 * (high * Pow256(k - 1));
      assert n / 256 == high * Pow256(k - 1) + low / 256;
      BESplit(j, k - 1, high, low / 256);
    }
  }

  lemma {:induction false} BEOfZero(k: nat)
    ensures BE(k, 0) == Fill(k, 0)
  {
    if k > 0 {
      BEOfZero(k - 1);
    }
  }

  lemma {:induction false} BEOfOnes(k: nat)
    ensures BE(k, Pow256(k) - 1) == Fill(k, 255)
  {
    if k > 0 {
      BEOfOnes(k - 1);
    }
  }

  /** Zero-extension: a small number in a wide field is zeros, then its own digits. */
  lemma ZeroExtend(j: nat, k: nat, n: nat)
    requires n < Pow256(k)
    ensures BE(j + k, n) == Fill(j, 0) + BE(k, n)
  {
    BESplit(j, k, 0, n);
    BEOfZero(j);
  }

  /** Sign-extension: `n - 256^k` modulo `256^(j+k)` is `0xff` bytes, then the digits of `n`. */
  lemma SignExtend(j: nat, k: nat, n: nat)
    requires n < Pow256(k)
    ensures Pow256(j) * Pow256(k) == Pow256(j + k)
    ensures Pow256(j + k) - Pow256(k) + n >= 0
    ensures BE(j + k, Pow256(j + k) - Pow256(k) + n) == Fill(j, 255) + BE(k, n)
  {
    Pow256Sum(j, k);
    assert (Pow256(j) - 1) * Pow256(k) == Pow256(j + k) - Pow256(k);
    BESplit(j, k, Pow256(j) - 1, n);
    BEOfOnes(j);
  }

  lemma {:induction false} Pow256Sum(j: nat, k: nat)
    ensures Pow256(j) * Pow256(k) == Pow256(j + k)
  {
    if j > 0 {
      Pow256Sum(j - 1, k);
      assert Pow256(j) * Pow256(k) == 256 * (Pow256(j - 1) * Pow256(k));
    }
  }

  lemma Pow256Monotone(j: nat, k: nat)
    requires j <= k
    ensures Pow256(j) <= Pow256(k)
  {
  }

  lemma Pow256OfEight()
    ensures Pow256(8) == USIZE_LIMIT
  {
    assert Pow256(2) == 65536;
    Pow256Sum(2, 2);
    Pow256Sum(4, 4);
  }

  /** `usize::checked_add`. */
  function CheckedAdd(a: nat, b: nat): Option<nat> {
    if a + b < USIZE_LIMIT then Some(a + b) else None
  }

  /** `a + b` on `usize` without overflow checks. */
  function WrappingAdd(a: nat, b: nat): nat {
    (a + b) % USIZE_LIMIT
  }

  /** `slice.get(start..end)`. */
  function Get(input: seq<byte>, start: nat, end: nat): (r: Option<seq<byte>>)
    ensures r.Some? ==> |r.value| == end - start
  {
    if start <= end <= |input| then Some(input[start..end]) else None
  }
}
