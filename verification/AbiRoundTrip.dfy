/**
 * Decoding inverts the standard's encoding, wherever in the input the encoding lies.
 *
 * `Vec::decode_tail` refuses a length above `input.len() / 32`. That guard is the only way a decoder
 * can refuse an honest encoding, so the round trip is stated with it as an exact condition.
 */
module AbiRoundTrip {
  import opened Wrappers
  import opened Bytes
  import opened AbiTypes
  import opened AbiSpec
  import opened AbiSizes
  import opened AbiDecoder

  /** `cells` lie in `input` at `off`; what is in the holes does not matter. */
  ghost predicate At(input: seq<byte>, off: nat, cells: seq<Cell>) {
    off + |cells| <= |input| && forall i | 0 <= i < |cells| :: cells[i] == Hole || cells[i] == Byte(input[off + i])
  }

  /** Every `Vec` inside `v` has at most `cap` elements. */
  predicate VecsFit(t: Type, v: Value, cap: nat)
    requires HasType(t, v)
    decreases t
  {
    match t
    case Vec(e) => |v.items| <= cap && forall i | 0 <= i < |v.items| :: VecsFit(e, v.items[i], cap)
    case FixedArray(e, n) => forall i | 0 <= i < n :: VecsFit(e, v.items[i], cap)
    case Tuple(ts) => forall i | 0 <= i < |ts| :: VecsFit(ts[i], v.items[i], cap)
    case _ => true
  }

  /** What decoding `v` from an input of `size` bytes yields. */
  ghost function Expected(t: Type, v: Value, size: nat): Result<Value>
    requires HasType(t, v)
  {
    if VecsFit(t, v, size / 32) then Ok(v) else Err
  }

  lemma AtConcat(input: seq<byte>, off: nat, a: seq<Cell>, b: seq<Cell>)
    ensures At(input, off, a + b) <==> At(input, off, a) && At(input, off + |a|, b)
  {
    var ab := a + b;
    if At(input, off, ab) {
      forall i | 0 <= i < |a| ensures a[i] == ab[i] {
      }
      forall i | 0 <= i < |b| ensures b[i] == ab[|a| + i] {
      }
    }
  }

  lemma AtSolid(input: seq<byte>, off: nat, bs: seq<byte>)
    ensures At(input, off, Solid(bs)) <==> off + |bs| <= |input| && input[off..off + |bs|] == bs
  {
    if At(input, off, Solid(bs)) {
      forall i | 0 <= i < |bs| ensures input[off + i] == bs[i] {
        assert Solid(bs)[i] == Byte(bs[i]);
      }
    } else if off + |bs| <= |input| {
      var s := input[off..off + |bs|];
      var i :| 0 <= i < |bs| && Solid(bs)[i] != Byte(input[off + i]);
      assert s[i] != bs[i];
    }
  }

  /** Consecutive stretches of bytes. */
  lemma AtBoth(input: seq<byte>, off: nat, a: seq<byte>, b: seq<byte>)
    requires At(input, off, Solid(a + b))
    ensures off + |a| + |b| <= |input|
    ensures input[off..off + |a|] == a && input[off + |a|..off + |a| + |b|] == b
  {
    SolidConcat(a, b);
    AtConcat(input, off, Solid(a), Solid(b));
    AtSolid(input, off, a);
    AtSolid(input, off + |a|, b);
  }

  // ---------------------------------------------------------------------------
  // Words and leaves
  // ---------------------------------------------------------------------------

  lemma WordReads(input: seq<byte>, off: nat, n: nat)
    requires At(input, off, Solid(Word(n))) && n < USIZE_LIMIT && |input| <= ISIZE_MAX
    ensures ReadWordOffset(input, off) == Some(n)
  {
    Pow256OfEight();
    ZeroExtend(24, 8, n);
    AtBoth(input, off, Fill(24, 0), BE(8, n));
    FromBEInvertsBE(8, n);
  }

  /** Two's complement: a negative number modulo `p` has `p` added once. */
  lemma TwosComplement(n: int, p: int)
    requires -p <= n < p
    ensures n % p == if n >= 0 then n else n + p
  {
    if n < 0 {
      assert n == -1 * p + (n + p);
    }
  }

  /** A leaf's word is its fill bytes, then the `LeafWidth` bytes its decoder reads. */
  lemma LeafWord(t: Type, v: Value) returns (fill: seq<byte>, bs: seq<byte>)
    requires IsLeaf(t) && !t.FixedBytes? && WellFormed(t) && HasType(t, v)
    ensures LeafBytes(t, v) == fill + bs && |bs| == LeafWidth(t) && |fill| == 32 - |bs|
    ensures LeafValue(t, bs) == v
  {
    match t
    case Uint(w) =>
      ZeroExtend(32 - w, w, v.n);
      FromBEInvertsBE(w, v.n);
      fill, bs := Fill(32 - w, 0), BE(w, v.n);
    case Int(w) =>
      fill, bs := IntWord(32, w, v.n);
    case Bool =>
      ZeroExtend(31, 1, if v.b then 1 else 0);
      fill, bs := Fill(31, 0), BE(1, if v.b then 1 else 0);
    case Address =>
      fill, bs := Fill(12, 0), v.bytes;
  }

  lemma IntWord(k: nat, w: nat, n: int) returns (fill: seq<byte>, bs: seq<byte>)
    requires w <= k && FitsInt(n, w)
    ensures BE(k, n % Pow256(k)) == fill + bs && |bs| == w && |fill| == k - w
    ensures LeafValue(Int(w), bs) == Num(n)
  {
    hide BE, FromBE, Fill;
    SignedWide(k, w, n);
    var m: nat := if n >= 0 then n else n + Pow256(w);
    FromBEInvertsBE(w, m);
    fill, bs := Fill(k - w, if n >= 0 then 0 else 255), BE(w, m);
  }

  /** A `w`-byte two's complement number, sign-extended to `k` bytes. */
  lemma SignedWide(k: nat, w: nat, n: int)
    requires w <= k && FitsInt(n, w)
    ensures 0 <= (if n >= 0 then n else n + Pow256(w)) < Pow256(w)
    ensures BE(k, n % Pow256(k)) ==
            Fill(k - w, if n >= 0 then 0 else 255) + BE(w, if n >= 0 then n else n + Pow256(w))
  {
    hide Pow256, BE, Fill;
    Pow256Monotone(w, k);
    TwosComplement(n, Pow256(k));
    if n >= 0 {
      ZeroExtend(k - w, w, n);
    } else {
      SignExtend(k - w, w, n + Pow256(w));
    }
  }

  lemma GetReads(input: seq<byte>, off: nat, fill: seq<byte>, bs: seq<byte>)
    requires At(input, off, Solid(fill + bs)) && |input| <= ISIZE_MAX
    ensures WrappingAdd(off, 0) == off
    ensures Get(input, WrappingAdd(off, |fill|), WrappingAdd(off, |fill| + |bs|)) == Some(bs)
  {
    AtBoth(input, off, fill, bs);
  }

  lemma FixedBytesWord(t: Type, v: Value)
    requires t.FixedBytes? && WellFormed(t) && HasType(t, v)
    ensures v.Raw? && 1 <= t.size <= 32
    ensures LeafBytes(t, v) == v.bytes + Fill(32 - t.size, 0) && |v.bytes| == t.size
    ensures LeafValue(t, v.bytes) == v
  {
  }

  lemma LeafReads(t: Type, v: Value, input: seq<byte>, off: nat)
    requires IsLeaf(t) && WellFormed(t) && HasType(t, v)
    requires At(input, off, Enc(t, v)) && |input| <= ISIZE_MAX
    ensures DecodeLeaf(t, input, off) == Ok(v)
  {
    assert Enc(t, v) == Solid(LeafBytes(t, v));
    hide At, LeafValue, Enc, LeafBytes, HasType, WellFormed, Solid, WrappingAdd, Get, LeafWidth;
    if t.FixedBytes? {
      FixedBytesWord(t, v);
      SolidConcat(v.bytes, Fill(32 - t.size, 0));
      AtConcat(input, off, Solid(v.bytes), Solid(Fill(32 - t.size, 0)));
      assert [] + v.bytes == v.bytes;
      GetReads(input, off, [], v.bytes);
    } else {
      var fill, bs := LeafWord(t, v);
      GetReads(input, off, fill, bs);
    }
  }

  // ---------------------------------------------------------------------------
  // Composites
  // ---------------------------------------------------------------------------

  lemma {:induction false} HeadAt(ts: seq<Type>, vs: seq<Value>, k: nat, i: nat, input: seq<byte>, base: nat)
    requires HasTypes(ts, vs) && i < k <= |ts|
    requires forall j | 0 <= j < |ts| :: WellFormed(ts[j])
    requires At(input, base, Heads(ts, vs, k))
    ensures At(input, base + SlotSum(ts, i), Head(ts, vs, i))
  {
    AtConcat(input, base, Heads(ts, vs, k - 1), Head(ts, vs, k - 1));
    if i == k - 1 {
      FieldsLength(ts, vs, i);
    } else {
      HeadAt(ts, vs, k - 1, i, input, base);
    }
  }

  lemma {:induction false} TailAt(ts: seq<Type>, vs: seq<Value>, k: nat, i: nat, input: seq<byte>, base: nat)
    requires HasTypes(ts, vs) && i < k <= |ts|
    requires At(input, base, Tails(ts, vs, k))
    ensures At(input, base + |Tails(ts, vs, i)|, Tail(ts, vs, i))
  {
    AtConcat(input, base, Tails(ts, vs, k - 1), Tail(ts, vs, k - 1));
    if i < k - 1 {
      TailAt(ts, vs, k - 1, i, input, base);
    }
  }

  /** Where component `i` of an encoded composite lies: its slot, and its tail if it has one. */
  lemma ComponentAt(ts: seq<Type>, vs: seq<Value>, i: nat, input: seq<byte>, base: nat)
    requires HasTypes(ts, vs) && i < |ts|
    requires forall j | 0 <= j < |ts| :: WellFormed(ts[j])
    requires At(input, base, EncFields(ts, vs))
    ensures At(input, base + SlotSum(ts, i), Head(ts, vs, i))
    ensures |Head(ts, vs, i)| == SlotSize(ts[i])
    ensures IsDynamic(ts[i]) ==>
              At(input, base + HeadLen(ts, vs, |ts|) + |Tails(ts, vs, i)|, Enc(ts[i], vs[i]))
  {
    hide HasType, WellFormed, Enc, BodyLen;
    var heads, tails := Heads(ts, vs, |ts|), Tails(ts, vs, |ts|);
    AtConcat(input, base, heads, tails);
    HeadAt(ts, vs, |ts|, i, input, base);
    TailAt(ts, vs, |ts|, i, input, base + |heads|);
    FieldsLength(ts, vs, |ts|);
    EncLength(ts[i], vs[i]);
  }

  /** Component `i` of a composite decodes from its head, whether it is there or behind an offset. */
  lemma {:induction false} ComponentRoundTrip(ts: seq<Type>, vs: seq<Value>, i: nat, input: seq<byte>, base: nat)
    requires HasTypes(ts, vs) && i < |ts|
    requires forall j | 0 <= j < |ts| :: WellFormed(ts[j])
    requires At(input, base, EncFields(ts, vs)) && |input| <= ISIZE_MAX
    ensures base + SlotSum(ts, i) + SlotSize(ts[i]) <= |input|
    ensures Component(ts[i], input, base, base + SlotSum(ts, i)) == Expected(ts[i], vs[i], |input|)
    decreases vs, 0
  {
    hide HasType, WellFormed, Enc, DecodeAt, DecodeTail;
    ComponentAt(ts, vs, i, input, base);
    if IsDynamic(ts[i]) {
      var distance := HeadLen(ts, vs, |ts|) + |Tails(ts, vs, i)|;
      WordReads(input, base + SlotSum(ts, i), distance);
      TailRoundTrip(ts[i], vs[i], input, base + distance);
    } else if ts[i].Unit? {
      UnitReads(vs[i], input, base + SlotSum(ts, i));
    } else {
      TailRoundTrip(ts[i], vs[i], input, base + SlotSum(ts, i));
    }
  }

  /** `()` decodes anywhere, without a read. */
  lemma UnitReads(v: Value, input: seq<byte>, off: nat)
    requires HasType(Unit, v)
    ensures DecodeAt(Unit, input, off) == DecodeTail(Unit, input, off) == Expected(Unit, v, |input|) == Ok(v)
  {
  }

  lemma CollectExpected(rs: seq<Result<Value>>, ts: seq<Type>, vs: seq<Value>, size: nat)
    requires HasTypes(ts, vs) && |rs| == |ts|
    requires forall i | 0 <= i < |ts| :: rs[i] == Expected(ts[i], vs[i], size)
    ensures Collect(rs) ==
            if forall i | 0 <= i < |ts| :: VecsFit(ts[i], vs[i], size / 32) then Ok(Items(vs)) else Err
  {
    if forall i | 0 <= i < |ts| :: VecsFit(ts[i], vs[i], size / 32) {
      assert Collect(rs).value.items == vs;
    } else {
      var i :| 0 <= i < |ts| && !VecsFit(ts[i], vs[i], size / 32);
      assert rs[i].Err?;
    }
  }

  /** The round trip for the element loops of `[T; N]` and `Vec<T>`. */
  lemma {:induction false} ElementsRoundTrip(e: Type, vs: seq<Value>, i: nat, input: seq<byte>, base: nat)
    requires WellFormed(e) && HasTypes(Copies(e, |vs|), vs) && i < |vs|
    requires At(input, base, EncFields(Copies(e, |vs|), vs)) && |input| <= ISIZE_MAX
    ensures HasType(e, vs[i])
    ensures ArrayElem(e, input, base, i) == Expected(e, vs[i], |input|)
    ensures !IsDynamic(e) ==> VecElem(e, input, base, i) == Expected(e, vs[i], |input|)
    decreases vs, 1
  {
    hide HasType, WellFormed, EncFields, DecodeAt, DecodeTail;
    var ts := Copies(e, |vs|);
    assert HasType(ts[i], vs[i]);
    ComponentRoundTrip(ts, vs, i, input, base);
    ArraySums(e, vs, i);
    assert base + SlotSum(ts, i) == base + i * SlotSize(e);
    assert (i + 1) * SlotSize(e) == i * SlotSize(e) + SlotSize(e);
  }

  /**
   * Round trip at any position: where the encoding of `v` lies in the input at `off`,
   * `decode_tail` returns `v` if the length guard admits every `Vec` in it, and fails otherwise.
   */
  lemma {:induction false} TailRoundTrip(t: Type, v: Value, input: seq<byte>, off: nat)
    requires WellFormed(t) && HasType(t, v)
    requires At(input, off, Enc(t, v)) && |input| <= ISIZE_MAX
    ensures DecodeTail(t, input, off) == Expected(t, v, |input|)
    ensures !IsPointer(t) ==> DecodeAt(t, input, off) == Expected(t, v, |input|)
    decreases v, 2
  {
    if IsLeaf(t) {
      LeafReads(t, v, input, off);
    } else if t.Unit? {
      UnitReads(v, input, off);
    } else if t.DynBytes? || t.Str? {
      RawReads(v.bytes, input, off);
    } else if t.FixedArray? {
      ArrayRoundTrip(t, v, input, off);
    } else if t.Tuple? {
      TupleRoundTrip(t, v, input, off);
    } else {
      VecRoundTrip(t, v, input, off);
    }
  }

  lemma RawReads(bs: seq<byte>, input: seq<byte>, off: nat)
    requires At(input, off, Solid(RawBytes(bs))) && |input| <= ISIZE_MAX
    ensures DecodeRaw(input, off) == Ok(Raw(bs))
  {
    AtBoth(input, off, Word(|bs|) + bs, Fill(Padding(|bs|), 0));
    AtSolid(input, off, Word(|bs|) + bs);
    AtBoth(input, off, Word(|bs|), bs);
    AtSolid(input, off, Word(|bs|));
    WordReads(input, off, |bs|);
  }

  lemma {:induction false} ArrayRoundTrip(t: Type, v: Value, input: seq<byte>, off: nat)
    requires t.FixedArray? && WellFormed(t) && HasType(t, v)
    requires At(input, off, Enc(t, v)) && |input| <= ISIZE_MAX
    ensures DecodeAt(t, input, off) == Expected(t, v, |input|)
    decreases v, 1
  {
    var e, vs := t.elem, v.items;
    forall i | 0 <= i < |vs| ensures ArrayElem(e, input, off, i) == Expected(e, vs[i], |input|) {
      ElementsRoundTrip(e, vs, i, input, off);
    }
    CollectExpected(seq(t.len, i requires 0 <= i < t.len => ArrayElem(e, input, off, i)),
                    Copies(e, |vs|), vs, |input|);
  }

  lemma {:induction false} TupleRoundTrip(t: Type, v: Value, input: seq<byte>, off: nat)
    requires t.Tuple? && WellFormed(t) && HasType(t, v)
    requires At(input, off, Enc(t, v)) && |input| <= ISIZE_MAX
    ensures DecodeAt(t, input, off) == Expected(t, v, |input|)
    decreases v, 1
  {
    hide Component, EncFields;
    var ts, vs := t.fields, v.items;
    forall i | 0 <= i < |ts| ensures TupleField(ts, input, off, i) == Expected(ts[i], vs[i], |input|) {
      ComponentRoundTrip(ts, vs, i, input, off);
    }
    CollectExpected(seq(|ts|, i requires 0 <= i < |ts| => TupleField(ts, input, off, i)), ts, vs, |input|);
  }

  lemma {:induction false} VecRoundTrip(t: Type, v: Value, input: seq<byte>, off: nat)
    requires t.Vec? && WellFormed(t) && HasType(t, v)
    requires At(input, off, Enc(t, v)) && |input| <= ISIZE_MAX
    ensures DecodeTail(t, input, off) == Expected(t, v, |input|)
    decreases v, 1
  {
    var e, vs := t.elem, v.items;
    VecParts(e, vs);
    hide Enc, EncItems, At, HasTypes, VecItems, ReadWordOffset, Solid, Word;
    AtConcat(input, off, Solid(Word(|vs|)), EncItems(e, vs));
    WordReads(input, off, |vs|);
    if |vs| <= |input| / 32 {
      VecItemsRoundTrip(e, vs, input, off + 32);
    }
  }

  lemma VecParts(e: Type, vs: seq<Value>)
    requires HasType(Vec(e), Items(vs))
    ensures HasTypes(Copies(e, |vs|), vs)
    ensures Enc(Vec(e), Items(vs)) == Solid(Word(|vs|)) + EncItems(e, vs)
  {
  }

  lemma {:induction false} VecItemsRoundTrip(e: Type, vs: seq<Value>, input: seq<byte>, start: nat)
    requires WellFormed(e) && HasTypes(Copies(e, |vs|), vs)
    requires At(input, start, EncItems(e, vs)) && |vs| <= |input| / 32 && |input| <= ISIZE_MAX
    ensures forall i | 0 <= i < |vs| :: HasType(e, vs[i])
    ensures VecItems(e, input, start, |vs|) ==
            if forall i | 0 <= i < |vs| :: VecsFit(e, vs[i], |input| / 32) then Ok(Items(vs)) else Err
    decreases vs, 2
  {
    var ts := Copies(e, |vs|);
    forall i | 0 <= i < |vs| ensures VecStep(e, input, start, i) == Expected(ts[i], vs[i], |input|) {
      if e.Unit? {
        assert HasType(ts[i], vs[i]);
        UnitStep(vs[i], input, start, i);
      } else {
        ElementsRoundTrip(e, vs, i, input, start);
      }
    }
    var rs := seq(|vs|, i requires 0 <= i < |vs| => VecStep(e, input, start, i));
    CollectExpected(rs, ts, vs, |input|);
    assert forall i | 0 <= i < |vs| :: HasType(ts[i], vs[i]);
  }

  /** Element `i` of a `Vec<()>`: the running offset leaves the input, but it does not overflow. */
  lemma UnitStep(v: Value, input: seq<byte>, start: nat, i: nat)
    requires HasType(Unit, v) && start <= |input| <= ISIZE_MAX && i < |input| / 32
    ensures VecStep(Unit, input, start, i) == Expected(Unit, v, |input|)
  {
    UnitReads(v, input, start + i * 32);
    assert start + (i + 1) * 32 < USIZE_LIMIT;
  }

  // ---------------------------------------------------------------------------
  // Top level
  // ---------------------------------------------------------------------------

  /** `encode_to`: a dynamic value that is not a tuple is preceded by the offset word 32. */
  ghost function EncTop(t: Type, v: Value): seq<Cell>
    requires HasType(t, v)
  {
    if t.Tuple? || !IsDynamic(t) then Enc(t, v) else Solid(Word(32)) + Enc(t, v)
  }

  /**
   * `decode` inverts `encode_to`, whatever follows and whatever is in the holes, exactly when the length
   * guard admits the value.
   */
  lemma DecodeInvertsEncode(t: Type, v: Value, input: seq<byte>)
    requires WellFormed(t) && HasType(t, v)
    requires At(input, 0, EncTop(t, v)) && |input| <= ISIZE_MAX
    ensures Decode(t, input) == Expected(t, v, |input|)
  {
    if t.Tuple? || !IsDynamic(t) {
      TailRoundTrip(t, v, input, 0);
    } else {
      AtConcat(input, 0, Solid(Word(32)), Enc(t, v));
      AtSolid(input, 0, Word(32));
      WordReads(input, 0, 32);
      TailRoundTrip(t, v, input, 32);
    }
  }

  lemma BytesLieAtStart(bs: seq<byte>, junk: seq<byte>)
    ensures At(bs + junk, 0, Solid(bs))
  {
    AtSolid(bs + junk, 0, bs);
  }

  /** The same for a type without `()`, whose encoding is bytes, and any bytes behind it. */
  lemma DecodeInvertsBytes(t: Type, v: Value, junk: seq<byte>) returns (bs: seq<byte>)
    requires WellFormed(t) && UnitFree(t) && HasType(t, v) && |EncTop(t, v)| + |junk| <= ISIZE_MAX
    ensures EncTop(t, v) == Solid(bs)
    ensures Decode(t, bs + junk) == Expected(t, v, |bs| + |junk|)
  {
    TopIsStandard(t, v);
    hide *;
    bs := BytesOf(EncTop(t, v));
    BytesAreSolid(EncTop(t, v));
    DecodeSolid(t, v, bs, junk);
  }

  lemma DecodeSolid(t: Type, v: Value, bs: seq<byte>, junk: seq<byte>)
    requires WellFormed(t) && HasType(t, v) && EncTop(t, v) == Solid(bs) && |bs| + |junk| <= ISIZE_MAX
    ensures Decode(t, bs + junk) == Expected(t, v, |bs| + |junk|)
  {
    hide *;
    BytesLieAtStart(bs, junk);
    DecodeInvertsEncode(t, v, bs + junk);
  }

  lemma TopIsStandard(t: Type, v: Value)
    requires HasType(t, v) && UnitFree(t)
    ensures NoHoles(EncTop(t, v))
  {
    Standard(t, v);
  }

  function BytesOf(cells: seq<Cell>): (bs: seq<byte>)
    requires NoHoles(cells)
    ensures |bs| == |cells|
  {
    seq(|cells|, i requires 0 <= i < |cells| => cells[i].b)
  }

  lemma BytesAreSolid(cells: seq<Cell>)
    requires NoHoles(cells)
    ensures Solid(BytesOf(cells)) == cells
  {
  }

  /** Every element of every `Vec` takes up space: there is no `Vec<()>`, no `Vec<[T; 0]>` and the like. */
  predicate ElementsTakeSpace(t: Type) {
    match t
    case FixedArray(e, n) => n == 0 || ElementsTakeSpace(e)
    case Vec(e) => !e.Unit? && SlotSize(e) > 0 && ElementsTakeSpace(e)
    case Tuple(ts) => forall i | 0 <= i < |ts| :: ElementsTakeSpace(ts[i])
    case _ => true
  }

  lemma ProductAtLeast(a: nat, b: nat, n: nat)
    requires a >= b
    ensures a * n >= b * n
  {
  }

  /** Slots are whole words, so one that takes up space takes up 32 bytes. */
  lemma {:induction false} SlotsAreWords(t: Type)
    ensures SlotSize(t) % 32 == 0 && (SlotSize(t) > 0 ==> SlotSize(t) >= 32)
    decreases t, 1
  {
    match t
    case FixedArray(e, n) =>
      SlotsAreWords(e);
      var words := SlotSize(e) / 32;
      assert SlotSize(e) * n == 32 * (words * n);
    case Tuple(ts) =>
      SlotSumsAreWords(ts, |ts|);
    case _ =>
  }

  lemma {:induction false} SlotSumsAreWords(ts: seq<Type>, k: nat)
    requires k <= |ts|
    ensures SlotSum(ts, k) % 32 == 0
    decreases ts, k
  {
    if k > 0 {
      SlotSumsAreWords(ts, k - 1);
      SlotsAreWords(ts[k - 1]);
    }
  }

  lemma {:induction false} StaticFits(t: Type, v: Value, cap: nat)
    requires !IsDynamic(t) && HasType(t, v)
    ensures VecsFit(t, v, cap)
    decreases t
  {
    match t
    case FixedArray(e, n) =>
      forall i | 0 <= i < n ensures VecsFit(e, v.items[i], cap) {
        StaticFits(e, v.items[i], cap);
      }
    case Tuple(ts) =>
      forall i | 0 <= i < |ts| ensures VecsFit(ts[i], v.items[i], cap) {
        StaticFits(ts[i], v.items[i], cap);
      }
    case _ =>
  }

  lemma {:induction false} FitsMore(t: Type, v: Value, cap: nat, more: nat)
    requires HasType(t, v) && VecsFit(t, v, cap) && cap <= more
    ensures VecsFit(t, v, more)
    decreases t
  {
    match t
    case Vec(e) =>
      forall i | 0 <= i < |v.items| ensures VecsFit(e, v.items[i], more) {
        FitsMore(e, v.items[i], cap, more);
      }
    case FixedArray(e, n) =>
      forall i | 0 <= i < n ensures VecsFit(e, v.items[i], more) {
        FitsMore(e, v.items[i], cap, more);
      }
    case Tuple(ts) =>
      forall i | 0 <= i < |ts| ensures VecsFit(ts[i], v.items[i], more) {
        FitsMore(ts[i], v.items[i], cap, more);
      }
    case _ =>
  }

  /** An input that holds the body of `v` is long enough for the guard to admit `v`. */
  lemma {:induction false} GuardAdmits(t: Type, v: Value, size: nat)
    requires WellFormed(t) && ElementsTakeSpace(t) && HasType(t, v) && BodyLen(t, v) <= size
    ensures VecsFit(t, v, size / 32)
    decreases t
  {
    if !IsDynamic(t) {
      StaticFits(t, v, size / 32);
    } else if t.Tuple? {
      var ts, vs := t.fields, v.items;
      forall i | 0 <= i < |ts| ensures VecsFit(ts[i], vs[i], size / 32) {
        if IsDynamic(ts[i]) {
          DynamicSumBounds(ts, vs, |ts|, i);
          GuardAdmits(ts[i], vs[i], size);
        } else {
          StaticFits(ts[i], vs[i], size / 32);
        }
      }
    } else if t.Vec? || t.FixedArray? {
      var e, vs := t.elem, v.items;
      forall i | 0 <= i < |vs| ensures VecsFit(e, vs[i], size / 32) {
        BodySumBounds(e, vs, |vs|, i);
        GuardAdmits(e, vs[i], size);
      }
      if t.Vec? {
        VecLongEnough(e, vs);
      }
    }
  }

  lemma VecLongEnough(e: Type, vs: seq<Value>)
    requires WellFormed(e) && !e.Unit? && SlotSize(e) > 0 && HasType(Vec(e), Items(vs))
    ensures BodyLen(Vec(e), Items(vs)) >= 32 + 32 * |vs|
  {
    assert forall i | 0 <= i < |vs| :: HasType(Copies(e, |vs|)[i], vs[i]);
    if !IsDynamic(e) {
      ElementsLength(e, vs);
      SlotsAreWords(e);
      ProductAtLeast(HeadSize(e), 32, |vs|);
    }
  }

  lemma {:induction false} BodySumBounds(e: Type, vs: seq<Value>, k: nat, i: nat)
    requires i < k <= |vs| && forall j | 0 <= j < |vs| :: HasType(e, vs[j])
    ensures BodyLen(e, vs[i]) <= BodySum(e, vs, k)
  {
    if i < k - 1 {
      BodySumBounds(e, vs, k - 1, i);
    }
  }

  lemma {:induction false} DynamicSumBounds(ts: seq<Type>, vs: seq<Value>, k: nat, i: nat)
    requires HasTypes(ts, vs) && i < k <= |ts| && IsDynamic(ts[i])
    ensures BodyLen(ts[i], vs[i]) <= DynamicSum(ts, vs, k)
  {
    if i < k - 1 {
      DynamicSumBounds(ts, vs, k - 1, i);
    }
  }

  /** For types whose `Vec` elements all take up space the round trip is unconditional. */
  lemma RoundTrip(t: Type, v: Value, input: seq<byte>)
    requires WellFormed(t) && ElementsTakeSpace(t) && HasType(t, v)
    requires At(input, 0, EncTop(t, v)) && |input| <= ISIZE_MAX
    ensures Decode(t, input) == Ok(v)
  {
    EncLength(t, v);
    GuardAdmits(t, v, |input|);
    DecodeInvertsEncode(t, v, input);
  }

  lemma AtLonger(input: seq<byte>, off: nat, cells: seq<Cell>, more: seq<byte>)
    requires At(input, off, cells)
    ensures At(input + more, off, cells)
  {
  }

  /**
   * Two values of one type, with no `Vec` beyond what any input could admit, never have encodings at the
   * start of the same bytes: encodings differ, and none is a prefix of another.
   */
  lemma EncodingIsPrefixFree(t: Type, v: Value, w: Value, input: seq<byte>)
    requires WellFormed(t) && HasType(t, v) && HasType(t, w) && |input| <= ISIZE_MAX
    requires VecsFit(t, v, ISIZE_MAX / 32) && VecsFit(t, w, ISIZE_MAX / 32)
    requires At(input, 0, EncTop(t, v)) && At(input, 0, EncTop(t, w))
    ensures v == w
  {
    var more := Fill(ISIZE_MAX - |input|, 0);
    AtLonger(input, 0, EncTop(t, v), more);
    AtLonger(input, 0, EncTop(t, w), more);
    DecodeInvertsEncode(t, v, input + more);
    DecodeInvertsEncode(t, w, input + more);
  }

  /**
   * The guard does refuse honest encodings: a `Vec` of elements that take no space, `()` or `[T; 0]`,
   * encodes to 64 bytes whatever its length, and 64 bytes admit only two elements.
   */
  lemma EmptyElementsAreRefused(e: Type, vs: seq<Value>, v: Value, input: seq<byte>)
    requires WellFormed(e) && !IsDynamic(e) && (e.Unit? || HeadSize(e) == 0)
    requires v == Items(vs) && HasType(Vec(e), v) && |vs| > 2
    requires At(input, 0, EncTop(Vec(e), v)) && |input| == |EncTop(Vec(e), v)|
    ensures |input| == 64
    ensures Decode(Vec(e), input) == Err
  {
    var t := Vec(e);
    EmptyBody(e, vs);
    EncLength(t, v);
    hide Decode, Enc, BodyLen;
    DecodeInvertsEncode(t, v, input);
  }

  lemma EmptyBody(e: Type, vs: seq<Value>)
    requires WellFormed(e) && !IsDynamic(e) && (e.Unit? || HeadSize(e) == 0) && HasType(Vec(e), Items(vs))
    ensures BodyLen(Vec(e), Items(vs)) == 32
  {
    assert forall i | 0 <= i < |vs| :: HasType(Copies(e, |vs|)[i], vs[i]);
    ElementsLength(e, vs);
    hide HasType, WellFormed, HeadSize, EncFields, BodySum;
  }
}
