/**
 * `ValidUtf8` accepts exactly the byte sequences that encode a sequence of Unicode scalar values by the
 * table of RFC 3629, section 3.
 */
module Utf8 {
  import opened Bytes
  import opened AbiTypes

  /** A code point that is no surrogate. */
  predicate IsScalar(c: nat) {
    c <= 0x10FFFF && !(0xD800 <= c <= 0xDFFF)
  }

  /** One to four bytes: the lead byte tells how many, the others carry six bits each. */
  function EncodeScalar(c: nat): (bs: seq<byte>)
    requires IsScalar(c)
    ensures 1 <= |bs| <= 4
  {
    if c < 0x80 then [c]
    else if c < 0x800 then [0xC0 + c / 64, 0x80 + c % 64]
    else if c < 0x10000 then [0xE0 + c / 4096, 0x80 + c / 64 % 64, 0x80 + c % 64]
    else [0xF0 + c / 262144, 0x80 + c / 4096 % 64, 0x80 + c / 64 % 64, 0x80 + c % 64]
  }

  predicate AreScalars(cs: seq<nat>) {
    forall i | 0 <= i < |cs| :: IsScalar(cs[i])
  }

  function EncodeScalars(cs: seq<nat>): seq<byte>
    requires AreScalars(cs)
  {
    if cs == [] then [] else EncodeScalar(cs[0]) + EncodeScalars(cs[1..])
  }

  function SixBits(b: byte): int {
    b as int - 0x80
  }

  lemma TwoBytes(a: byte, b: byte) returns (c: nat)
    requires 0xC2 <= a <= 0xDF && IsTail(b)
    ensures IsScalar(c) && EncodeScalar(c) == [a, b]
  {
    c := (a as int - 0xC0) * 64 + SixBits(b);
  }

  lemma ThreeBytes(a: byte, b: byte, d: byte) returns (c: nat)
    requires 0xE0 <= a <= 0xEF && IsTail(b) && IsTail(d)
    requires (a == 0xE0 ==> b >= 0xA0) && (a == 0xED ==> b <= 0x9F)
    ensures IsScalar(c) && EncodeScalar(c) == [a, b, d]
  {
    var high := (a as int - 0xE0) * 64 + SixBits(b);
    c := high * 64 + SixBits(d);
    assert c / 64 == high && c / 4096 == high / 64;
  }

  lemma FourBytes(a: byte, b: byte, d: byte, e: byte) returns (c: nat)
    requires 0xF0 <= a <= 0xF4 && IsTail(b) && IsTail(d) && IsTail(e)
    requires (a == 0xF0 ==> b >= 0x90) && (a == 0xF4 ==> b <= 0x8F)
    ensures IsScalar(c) && EncodeScalar(c) == [a, b, d, e]
  {
    var top := (a as int - 0xF0) * 64 + SixBits(b);
    var high := top * 64 + SixBits(d);
    c := high * 64 + SixBits(e);
    assert c / 64 == high && c / 4096 == top && c / 262144 == top / 64;
  }

  /** What a valid sequence starts with is one scalar value, and the rest is valid. */
  lemma FirstScalar(bs: seq<byte>) returns (c: nat)
    requires ValidUtf8(bs) && bs != []
    ensures IsScalar(c) && |EncodeScalar(c)| <= |bs|
    ensures bs[..|EncodeScalar(c)|] == EncodeScalar(c) && ValidUtf8(bs[|EncodeScalar(c)|..])
  {
    if bs[0] < 0x80 {
      c := bs[0];
    } else if bs[0] <= 0xDF {
      c := TwoBytes(bs[0], bs[1]);
      hide EncodeScalar, IsScalar;
    } else if bs[0] <= 0xEF {
      c := ThreeBytes(bs[0], bs[1], bs[2]);
      hide EncodeScalar, IsScalar;
    } else {
      c := FourBytes(bs[0], bs[1], bs[2], bs[3]);
      hide EncodeScalar, IsScalar;
    }
  }

  lemma TwoInFront(a: byte, b: byte, rest: seq<byte>)
    requires 0xC2 <= a <= 0xDF && IsTail(b) && ValidUtf8(rest)
    ensures ValidUtf8([a, b] + rest)
  {
    assert ([a, b] + rest)[2..] == rest;
  }

  lemma ThreeInFront(a: byte, b: byte, d: byte, rest: seq<byte>)
    requires 0xE0 <= a <= 0xEF && IsTail(b) && IsTail(d) && ValidUtf8(rest)
    requires (a == 0xE0 ==> b >= 0xA0) && (a == 0xED ==> b <= 0x9F)
    ensures ValidUtf8([a, b, d] + rest)
  {
    assert ([a, b, d] + rest)[3..] == rest;
  }

  lemma FourInFront(a: byte, b: byte, d: byte, e: byte, rest: seq<byte>)
    requires 0xF0 <= a <= 0xF4 && IsTail(b) && IsTail(d) && IsTail(e) && ValidUtf8(rest)
    requires (a == 0xF0 ==> b >= 0x90) && (a == 0xF4 ==> b <= 0x8F)
    ensures ValidUtf8([a, b, d, e] + rest)
  {
    assert ([a, b, d, e] + rest)[4..] == rest;
  }

  /** A scalar value in front of a valid sequence is a valid sequence. */
  lemma ScalarInFront(c: nat, rest: seq<byte>)
    requires IsScalar(c) && ValidUtf8(rest)
    ensures ValidUtf8(EncodeScalar(c) + rest)
  {
    if c < 0x80 {
      assert ([c] + rest)[1..] == rest;
    } else if c < 0x800 {
      hide ValidUtf8;
      TwoInFront(0xC0 + c / 64, 0x80 + c % 64, rest);
    } else if c < 0x10000 {
      hide ValidUtf8;
      assert c / 64 / 64 == c / 4096;
      ThreeInFront(0xE0 + c / 4096, 0x80 + c / 64 % 64, 0x80 + c % 64, rest);
    } else {
      hide ValidUtf8;
      assert c / 4096 / 64 == c / 262144;
      FourInFront(0xF0 + c / 262144, 0x80 + c / 4096 % 64, 0x80 + c / 64 % 64, 0x80 + c % 64, rest);
    }
  }

  lemma {:induction false} ScalarsOf(bs: seq<byte>) returns (cs: seq<nat>)
    requires ValidUtf8(bs)
    ensures AreScalars(cs) && EncodeScalars(cs) == bs
    decreases |bs|
  {
    cs := [];
    if bs != [] {
      var c := FirstScalar(bs);
      var n := |EncodeScalar(c)|;
      hide ValidUtf8, EncodeScalar;
      var rest := ScalarsOf(bs[n..]);
      cs := [c] + rest;
      assert cs[1..] == rest && bs == bs[..n] + bs[n..];
    }
  }

  lemma {:induction false} ScalarsAreValid(cs: seq<nat>)
    requires AreScalars(cs)
    ensures ValidUtf8(EncodeScalars(cs))
    decreases |cs|
  {
    if cs != [] {
      ScalarsAreValid(cs[1..]);
      ScalarInFront(cs[0], EncodeScalars(cs[1..]));
    }
  }

  lemma ValidMeansScalars(bs: seq<byte>)
    ensures ValidUtf8(bs) <==> exists cs :: AreScalars(cs) && EncodeScalars(cs) == bs
  {
    if ValidUtf8(bs) {
      var cs := ScalarsOf(bs);
    }
    if cs :| AreScalars(cs) && EncodeScalars(cs) == bs {
      ScalarsAreValid(cs);
    }
  }
}
