/**
 * What the encoding looks like cell by cell, and what "dynamic" means, stated without the functions that
 * compute them.
 */
module AbiMeaning {
  import Bits
  import opened Bytes
  import opened AbiTypes
  import opened AbiSpec
  import opened AbiSizes
  import opened AbiRoundTrip

  // ---------------------------------------------------------------------------
  // Words
  // ---------------------------------------------------------------------------

  /** The cells are the big-endian digits of `n` modulo `2^256`. */
  predicate IsWordOf(cells: seq<Cell>, n: nat) {
    |cells| == 32 && forall i | 0 <= i < 32 :: cells[i] == Byte(n / Pow256(31 - i) % 256)
  }

  lemma WordDigits(n: nat)
    ensures IsWordOf(Solid(Word(n)), n)
  {
    forall i: nat | i < 32 ensures Word(n)[i] == n / Pow256(31 - i) % 256 {
      BEDigit(32, n, i);
    }
  }

  predicate ZeroFrom(cells: seq<Cell>, from: nat, to: nat)
    requires from <= to <= |cells|
  {
    forall i | from <= i < to :: cells[i] == Byte(0)
  }

  /** Numbers are big-endian, negative ones modulo `2^256`; addresses are right-aligned, `bytesN` left-aligned. */
  lemma LeafCells(t: Type, v: Value)
    requires IsLeaf(t) && WellFormed(t) && HasType(t, v)
    ensures |Enc(t, v)| == 32
    ensures t.Uint? ==> IsWordOf(Enc(t, v), v.n)
    ensures t.Int? ==> IsWordOf(Enc(t, v), v.n % Pow256(32))
    ensures t.Bool? ==> IsWordOf(Enc(t, v), if v.b then 1 else 0)
    ensures t.Address? ==> ZeroFrom(Enc(t, v), 0, 12) && Enc(t, v)[12..] == Solid(v.bytes)
    ensures t.FixedBytes? ==> Enc(t, v)[..t.size] == Solid(v.bytes) && ZeroFrom(Enc(t, v), t.size, 32)
  {
    LeafIsSolid(t, v);
    hide Enc, IsWordOf, Solid, ZeroFrom, WellFormed, Pow256, SignedWord, Word;
    if t.Address? {
      Aligned(Fill(12, 0), v.bytes);
    } else if t.FixedBytes? {
      Aligned(v.bytes, Fill(32 - t.size, 0));
    } else {
      NumberCells(t, v);
    }
  }

  lemma NumberCells(t: Type, v: Value)
    requires (t.Uint? || t.Int? || t.Bool?) && HasType(t, v)
    ensures t.Uint? ==> IsWordOf(Solid(LeafBytes(t, v)), v.n)
    ensures t.Int? ==> IsWordOf(Solid(LeafBytes(t, v)), v.n % Pow256(32))
    ensures t.Bool? ==> IsWordOf(Solid(LeafBytes(t, v)), if v.b then 1 else 0)
  {
    hide IsWordOf, Solid, Word, Pow256;
    WordDigits(if t.Bool? then (if v.b then 1 else 0) else if t.Uint? then v.n else v.n % Pow256(32));
  }

  lemma LeafIsSolid(t: Type, v: Value)
    requires IsLeaf(t) && WellFormed(t) && HasType(t, v)
    ensures Enc(t, v) == Solid(LeafBytes(t, v)) && |LeafBytes(t, v)| == 32
    ensures t.FixedBytes? ==> 1 <= t.size <= 32 && v.Raw? && |v.bytes| == t.size
  {
  }

  /** Two stretches of bytes as cells. */
  lemma Aligned(a: seq<byte>, b: seq<byte>)
    ensures |Solid(a + b)| == |a| + |b|
    ensures Solid(a + b)[..|a|] == Solid(a) && Solid(a + b)[|a|..] == Solid(b)
    ensures (forall i | 0 <= i < |a| :: a[i] == 0) ==> ZeroFrom(Solid(a + b), 0, |a|)
    ensures (forall i | 0 <= i < |b| :: b[i] == 0) ==> ZeroFrom(Solid(a + b), |a|, |a| + |b|)
  {
  }

  // ---------------------------------------------------------------------------
  // `bytes` and `string`
  // ---------------------------------------------------------------------------

  /** Length word, data, zeros; as many of these as bring the whole to a multiple of 32 bytes, and no more. */
  lemma RawCells(t: Type, v: Value)
    requires (t.DynBytes? || t.Str?) && HasType(t, v)
    ensures |Enc(t, v)| % 32 == 0 && 32 + |v.bytes| <= |Enc(t, v)|
    ensures forall m: nat | m % 32 == 0 && 32 + |v.bytes| <= m :: |Enc(t, v)| <= m
    ensures IsWordOf(Enc(t, v)[..32], |v.bytes|)
    ensures Enc(t, v)[32..32 + |v.bytes|] == Solid(v.bytes)
    ensures ZeroFrom(Enc(t, v), 32 + |v.bytes|, |Enc(t, v)|)
  {
    assert Enc(t, v) == Solid(RawBytes(v.bytes));
    RawIsWords(|v.bytes|);
    RawParts(v.bytes);
    hide *;
  }

  lemma RawIsWords(n: nat)
    ensures (32 + n + Padding(n)) % 32 == 0
    ensures forall m: nat | m % 32 == 0 && 32 + n <= m :: 32 + n + Padding(n) <= m
  {
  }

  lemma RawParts(bs: seq<byte>)
    ensures |Solid(RawBytes(bs))| == 32 + |bs| + Padding(|bs|)
    ensures IsWordOf(Solid(RawBytes(bs))[..32], |bs|)
    ensures Solid(RawBytes(bs))[32..32 + |bs|] == Solid(bs)
    ensures ZeroFrom(Solid(RawBytes(bs)), 32 + |bs|, 32 + |bs| + Padding(|bs|))
  {
    var zeros := Fill(Padding(|bs|), 0);
    WordDigits(|bs|);
    Aligned(Word(|bs|) + bs, zeros);
    Aligned(Word(|bs|), bs);
    var all := Solid(RawBytes(bs));
    hide IsWordOf, Word, Padding;
    assert all[..32 + |bs|][..32] == all[..32] && all[..32 + |bs|][32..] == all[32..32 + |bs|];
  }

  /** Every encoding is a whole number of words. */
  lemma {:induction false} EncodingIsWords(t: Type, v: Value)
    requires WellFormed(t) && HasType(t, v)
    ensures |Enc(t, v)| % 32 == 0
    decreases v, 2
  {
    if IsLeaf(t) {
      LeafIsSolid(t, v);
    } else if t.DynBytes? || t.Str? {
      RawCells(t, v);
    } else if t.Tuple? {
      TupleIsWords(t.fields, v.items);
    } else if t.FixedArray? {
      TupleIsWords(Copies(t.elem, t.len), v.items);
    } else if t.Vec? {
      VecParts(t.elem, v.items);
      if !t.elem.Unit? {
        TupleIsWords(Copies(t.elem, |v.items|), v.items);
      }
    }
  }

  lemma {:induction false} TupleIsWords(ts: seq<Type>, vs: seq<Value>)
    requires HasTypes(ts, vs) && forall i | 0 <= i < |ts| :: WellFormed(ts[i])
    ensures |EncFields(ts, vs)| % 32 == 0
    decreases vs, 1, |vs| + 1
  {
    FieldsAreWords(ts, vs, |ts|);
    hide HasTypes, WellFormed, Heads, Tails;
  }

  lemma {:induction false} FieldsAreWords(ts: seq<Type>, vs: seq<Value>, k: nat)
    requires HasTypes(ts, vs) && k <= |ts| && forall i | 0 <= i < |ts| :: WellFormed(ts[i])
    ensures |Heads(ts, vs, k)| % 32 == 0 && |Tails(ts, vs, k)| % 32 == 0
    decreases vs, 1, k
  {
    hide HasType, WellFormed, Enc, Head, Tail;
    if k > 0 {
      EncodingIsWords(ts[k - 1], vs[k - 1]);
      FieldsAreWords(ts, vs, k - 1);
      LastPart(ts, vs, k);
      hide Heads, Tails;
      WordsAdd(|Heads(ts, vs, k - 1)|, |Head(ts, vs, k - 1)|);
      WordsAdd(|Tails(ts, vs, k - 1)|, |Tail(ts, vs, k - 1)|);
    }
  }

  lemma WordsAdd(a: nat, b: nat)
    requires a % 32 == 0 && b % 32 == 0
    ensures (a + b) % 32 == 0
  {
  }

  lemma LastPart(ts: seq<Type>, vs: seq<Value>, k: nat)
    requires HasTypes(ts, vs) && 0 < k <= |ts| && |Enc(ts[k - 1], vs[k - 1])| % 32 == 0
    ensures |Heads(ts, vs, k)| == |Heads(ts, vs, k - 1)| + |Head(ts, vs, k - 1)|
    ensures |Tails(ts, vs, k)| == |Tails(ts, vs, k - 1)| + |Tail(ts, vs, k - 1)|
    ensures |Head(ts, vs, k - 1)| % 32 == 0 && |Tail(ts, vs, k - 1)| % 32 == 0
  {
    hide Enc, HasType, IsDynamic, HeadLen;
  }

  // ---------------------------------------------------------------------------
  // Offsets
  // ---------------------------------------------------------------------------

  /**
   * The head of a dynamic component is a number of bytes: as many as its encoding lies behind the start of the
   * composite. The tails lie in order, one right behind the other, the first right behind the heads.
   */
  lemma HeadPointsToTail(ts: seq<Type>, vs: seq<Value>, i: nat, input: seq<byte>, base: nat)
    requires HasTypes(ts, vs) && i < |ts| && IsDynamic(ts[i]) && forall j | 0 <= j < |ts| :: WellFormed(ts[j])
    requires At(input, base, EncFields(ts, vs)) && |input| <= ISIZE_MAX
    ensures PointsTo(input, base, SlotSum(ts, i), SlotSum(ts, |ts|) + DynamicSum(ts, vs, i), Enc(ts[i], vs[i]))
  {
    hide HasType, WellFormed, Enc, BodyLen, Word, Solid, PointsTo, SlotSum, DynamicSum, At, EncFields, Head, Tails;
    hide HeadLen, IsDynamic;
    DynamicHead(ts, vs, i);
    ComponentAt(ts, vs, i, input, base);
    Points(input, base, SlotSum(ts, i), SlotSum(ts, |ts|) + DynamicSum(ts, vs, i), Enc(ts[i], vs[i]));
  }

  /** The word at `slot` reads as `distance`, and the cells lie so far behind `base`. */
  ghost predicate PointsTo(input: seq<byte>, base: nat, slot: nat, distance: nat, cells: seq<Cell>) {
    && base + slot + 32 <= |input| && input[base + slot..base + slot + 32] == Word(distance)
    && FromBE(Word(distance)) == distance && At(input, base + distance, cells)
  }

  lemma Points(input: seq<byte>, base: nat, slot: nat, distance: nat, cells: seq<Cell>)
    requires |input| <= ISIZE_MAX
    requires At(input, base + slot, Solid(Word(distance))) && At(input, base + distance, cells)
    ensures PointsTo(input, base, slot, distance, cells)
  {
    AtSolid(input, base + slot, Word(distance));
    SmallWord(distance);
  }

  lemma DynamicHead(ts: seq<Type>, vs: seq<Value>, i: nat)
    requires HasTypes(ts, vs) && i < |ts| && IsDynamic(ts[i]) && forall j | 0 <= j < |ts| :: WellFormed(ts[j])
    ensures HeadLen(ts, vs, |ts|) + |Tails(ts, vs, i)| == SlotSum(ts, |ts|) + DynamicSum(ts, vs, i)
    ensures Head(ts, vs, i) == Solid(Word(SlotSum(ts, |ts|) + DynamicSum(ts, vs, i)))
  {
    hide HasType, WellFormed, Enc, BodyLen, HeadLen, SlotSum, DynamicSum, Word, Solid, Tails;
    FieldsLength(ts, vs, |ts|);
    FieldsLength(ts, vs, i);
  }

  lemma SmallWord(n: nat)
    requires n <= ISIZE_MAX
    ensures FromBE(Word(n)) == n
  {
    Pow256OfEight();
    Pow256Monotone(8, 32);
    FromBEInvertsBE(32, n);
  }

  /** The integer widths of Rust: 8 bits, doubled up to five times. */
  lemma WidthsArePowers(w: nat)
    ensures IsWidth(w) <==> exists k: nat :: k <= 5 && w == Bits.Pow2(k)
  {
    SmallPowers();
    hide Bits.Pow2;
  }

  lemma SmallPowers()
    ensures Bits.Pow2(0) == 1 && Bits.Pow2(1) == 2 && Bits.Pow2(2) == 4 && Bits.Pow2(3) == 8
    ensures Bits.Pow2(4) == 16 && Bits.Pow2(5) == 32
  {
  }

  /** The slot of a `()` among other components is left as it is in the buffer. */
  lemma UnitSlotIsHole(ts: seq<Type>, vs: seq<Value>, i: nat)
    requires HasTypes(ts, vs) && i < |ts| && ts[i].Unit? && forall j | 0 <= j < |ts| :: WellFormed(ts[j])
    ensures AreHoles(EncFields(ts, vs), SlotSum(ts, i), SlotSum(ts, i) + 32)
  {
    HeadIsHole(ts, vs, |ts|, i);
    hide Heads, Tails, HasTypes, WellFormed, SlotSum;
  }

  predicate AreHoles(cells: seq<Cell>, from: nat, to: nat) {
    to <= |cells| && forall j | from <= j < to :: cells[j] == Hole
  }

  lemma {:induction false} HeadIsHole(ts: seq<Type>, vs: seq<Value>, k: nat, i: nat)
    requires HasTypes(ts, vs) && i < k <= |ts| && ts[i].Unit? && forall j | 0 <= j < |ts| :: WellFormed(ts[j])
    ensures AreHoles(Heads(ts, vs, k), SlotSum(ts, i), SlotSum(ts, i) + 32)
  {
    hide HasType, WellFormed, Enc;
    if i < k - 1 {
      HeadIsHole(ts, vs, k - 1, i);
    } else {
      FieldsLength(ts, vs, i);
    }
  }

  // ---------------------------------------------------------------------------
  // A value on its own is a tuple of one
  // ---------------------------------------------------------------------------

  /** `encode_to` writes a value as the argument list that consists of it alone. */
  lemma TopIsTupleOfOne(t: Type, v: Value)
    requires WellFormed(t) && HasType(t, v) && !t.Tuple? && !t.Unit?
    ensures HasType(Tuple([t]), Items([v]))
    ensures EncTop(t, v) == EncTop(Tuple([t]), Items([v]))
  {
    var ts, vs := [t], [v];
    assert HasTypes(ts, vs);
    FieldsLength(ts, vs, 1);
    OneField(t, v);
  }

  lemma OneField(t: Type, v: Value)
    requires HasTypes([t], [v]) && !t.Unit? && HeadLen([t], [v], 1) == SlotSum([t], 1)
    ensures EncFields([t], [v]) == if IsDynamic(t) then Solid(Word(32)) + Enc(t, v) else Enc(t, v)
  {
    var ts, vs := [t], [v];
    hide Enc, HasType, Word, Solid, HeadLen, IsDynamic, HeadSize;
    assert Heads(ts, vs, 0) == [] && Tails(ts, vs, 0) == [];
    assert Heads(ts, vs, 1) == Head(ts, vs, 0) && Tails(ts, vs, 1) == Tail(ts, vs, 0);
    assert SlotSum(ts, 1) == SlotSize(t);
  }

  // ---------------------------------------------------------------------------
  // What "dynamic" means
  // ---------------------------------------------------------------------------

  /** No array of length 0, and no `Vec` whose elements take up no space, at any depth. */
  predicate Substantial(t: Type) {
    match t
    case FixedArray(e, n) => n > 0 && Substantial(e)
    case Vec(e) => !e.Unit? && SlotSize(e) > 0 && Substantial(e)
    case Tuple(ts) => forall i | 0 <= i < |ts| :: Substantial(ts[i])
    case _ => true
  }

  /** A `bytes` or `string`, or a `Vec` whose elements take up space, occurs outside every array of length 0. */
  predicate CanVary(t: Type) {
    match t
    case DynBytes => true
    case Str => true
    case FixedArray(e, n) => n > 0 && CanVary(e)
    case Vec(e) => !e.Unit? && SlotSize(e) > 0
    case Tuple(ts) => exists i | 0 <= i < |ts| :: CanVary(ts[i])
    case _ => false
  }

  lemma {:induction false} VaryingIsDynamic(t: Type)
    ensures CanVary(t) ==> IsDynamic(t)
    ensures Substantial(t) && IsDynamic(t) ==> CanVary(t)
    decreases t
  {
    match t
    case FixedArray(e, _) => VaryingIsDynamic(e);
    case Tuple(ts) =>
      forall i | 0 <= i < |ts|
        ensures CanVary(ts[i]) ==> IsDynamic(ts[i])
        ensures Substantial(ts[i]) && IsDynamic(ts[i]) ==> CanVary(ts[i])
      {
        VaryingIsDynamic(ts[i]);
      }
    case _ =>
  }

  /** Some value of the type, with `n` bytes, characters or elements wherever the length is free. */
  function Sample(t: Type, n: nat): (v: Value)
    requires WellFormed(t) && n <= 1
    ensures HasType(t, v)
    decreases t, 0
  {
    match t
    case Uint(w) => Num(0)
    case Int(w) =>
      ZeroFits(w);
      Num(0)
    case Bool => Flag(false)
    case Address => Raw(Fill(20, 0))
    case FixedBytes(k) => Raw(Fill(k, 0))
    case Unit => Nothing
    case DynBytes => Raw(Fill(n, 0))
    case Str => Raw(SampleText(n))
    case FixedArray(e, k) => Items(Repeated(Sample(e, n), k))
    case Vec(e) => Items(Repeated(Sample(e, n), n))
    case Tuple(ts) => Items(Samples(ts, n))
  }

  lemma ZeroFits(w: nat)
    requires w > 0
    ensures FitsInt(0, w)
  {
  }

  function SampleText(n: nat): (text: seq<byte>)
    requires n <= 1
    ensures |text| == n && ValidUtf8(text)
  {
    if n == 0 then [] else [0x61]
  }

  function Repeated(v: Value, n: nat): (vs: seq<Value>)
    ensures |vs| == n && forall i | 0 <= i < n :: vs[i] == v
  {
    seq(n, i => v)
  }

  function Samples(ts: seq<Type>, n: nat): (vs: seq<Value>)
    requires n <= 1 && forall i | 0 <= i < |ts| :: WellFormed(ts[i])
    ensures |vs| == |ts| && forall i | 0 <= i < |ts| :: vs[i] == Sample(ts[i], n) && HasType(ts[i], vs[i])
    decreases ts, 0
  {
    seq(|ts|, i requires 0 <= i < |ts| => Sample(ts[i], n))
  }

  /** The longer sample is not shorter, and longer if the type has a length that can vary. */
  predicate SampleGrows(t: Type)
    requires WellFormed(t)
  {
    var short, long := BodyLen(t, Sample(t, 0)), BodyLen(t, Sample(t, 1));
    short <= long && (CanVary(t) ==> short < long)
  }

  lemma {:induction false} SamplesDiffer(t: Type)
    requires WellFormed(t)
    ensures SampleGrows(t)
    decreases t, 0
  {
    match t
    case FixedArray(e, n) =>
      SamplesDiffer(e);
      ArraySamplesDiffer(e, n);
    case Vec(e) =>
      VecLength(e, Sample(t, 0).items);
      VecLength(e, Sample(t, 1).items);
    case Tuple(ts) =>
      forall i | 0 <= i < |ts| ensures SampleGrows(ts[i]) {
        SamplesDiffer(ts[i]);
      }
      TupleSamplesDiffer(ts);
    case _ =>
  }

  lemma ArraySamplesDiffer(e: Type, n: nat)
    requires WellFormed(e) && SampleGrows(e)
    ensures SampleGrows(FixedArray(e, n))
  {
    VaryingIsDynamic(e);
    SumsDiffer(e, Sample(FixedArray(e, n), 0).items, Sample(FixedArray(e, n), 1).items, n);
  }

  lemma TupleSamplesDiffer(ts: seq<Type>)
    requires forall i | 0 <= i < |ts| :: WellFormed(ts[i]) && SampleGrows(ts[i])
    ensures SampleGrows(Tuple(ts))
  {
    forall i | 0 <= i < |ts| ensures CanVary(ts[i]) ==> IsDynamic(ts[i]) {
      VaryingIsDynamic(ts[i]);
    }
    FieldSumsDiffer(ts, Samples(ts, 0), Samples(ts, 1), |ts|);
  }

  /** Otherwise all encodings have one length. */
  lemma {:induction false} NeverVaries(t: Type, v: Value, w: Value)
    requires WellFormed(t) && HasType(t, v) && HasType(t, w) && !CanVary(t)
    ensures BodyLen(t, v) == BodyLen(t, w)
    decreases t
  {
    match t
    case FixedArray(e, n) =>
      forall i | 0 <= i < n ensures BodyLen(e, v.items[i]) == BodyLen(e, w.items[i]) {
        NeverVaries(e, v.items[i], w.items[i]);
      }
      SumsDiffer(e, v.items, w.items, n);
      SumsDiffer(e, w.items, v.items, n);
    case Vec(e) =>
      VecLength(e, v.items);
      VecLength(e, w.items);
    case Tuple(ts) =>
      forall i | 0 <= i < |ts| ensures BodyLen(ts[i], v.items[i]) == BodyLen(ts[i], w.items[i]) {
        NeverVaries(ts[i], v.items[i], w.items[i]);
      }
      FieldSumsDiffer(ts, v.items, w.items, |ts|);
      FieldSumsDiffer(ts, w.items, v.items, |ts|);
    case _ =>
  }

  lemma VecLength(e: Type, vs: seq<Value>)
    requires WellFormed(e) && HasType(Vec(e), Items(vs))
    ensures CanVary(Vec(e)) && |vs| == 1 ==> BodyLen(Vec(e), Items(vs)) > 32
    ensures !CanVary(Vec(e)) ==> BodyLen(Vec(e), Items(vs)) == 32
  {
    assert HasTypes(Copies(e, |vs|), vs);
    ElementsLength(e, vs);
    NoneAreNothing(HeadSize(e), |vs|);
  }

  lemma NoneAreNothing(size: nat, n: nat)
    ensures size == 0 ==> size * n == 0
    ensures n == 1 ==> size * n == size
  {
  }

  lemma {:induction false} SumsDiffer(e: Type, vs: seq<Value>, ws: seq<Value>, k: nat)
    requires k <= |vs| == |ws|
    requires forall i | 0 <= i < |vs| :: HasType(e, vs[i]) && HasType(e, ws[i])
    requires forall i | 0 <= i < |vs| :: BodyLen(e, vs[i]) <= BodyLen(e, ws[i])
    ensures BodySum(e, vs, k) <= BodySum(e, ws, k)
    ensures k > 0 && (forall i | 0 <= i < |vs| :: BodyLen(e, vs[i]) < BodyLen(e, ws[i])) ==>
              BodySum(e, vs, k) < BodySum(e, ws, k)
  {
    hide BodyLen, HasType;
    if k > 0 {
      SumsDiffer(e, vs, ws, k - 1);
    }
  }

  lemma {:induction false} FieldSumsDiffer(ts: seq<Type>, vs: seq<Value>, ws: seq<Value>, k: nat)
    requires HasTypes(ts, vs) && HasTypes(ts, ws) && k <= |ts|
    requires forall i | 0 <= i < |ts| :: BodyLen(ts[i], vs[i]) <= BodyLen(ts[i], ws[i])
    requires forall i | 0 <= i < |ts| && CanVary(ts[i]) ::
               IsDynamic(ts[i]) && BodyLen(ts[i], vs[i]) < BodyLen(ts[i], ws[i])
    ensures DynamicSum(ts, vs, k) <= DynamicSum(ts, ws, k)
    ensures (exists i | 0 <= i < k :: CanVary(ts[i])) ==> DynamicSum(ts, vs, k) < DynamicSum(ts, ws, k)
  {
    hide CanVary, BodyLen, HasType, IsDynamic;
    if k > 0 {
      FieldSumsDiffer(ts, vs, ws, k - 1);
    }
  }

  /** Two values of the type have encodings of different lengths. */
  ghost predicate LengthVaries(t: Type) {
    exists v, w :: HasType(t, v) && HasType(t, w) && |Enc(t, v)| != |Enc(t, w)|
  }

  /**
   * Exactly which types have encodings of different lengths: only dynamic ones, and all of these if no array in
   * them has length 0 and no `Vec` has elements without space.
   */
  lemma DynamicMeansLengthVaries(t: Type)
    requires WellFormed(t)
    ensures LengthVaries(t) <==> CanVary(t)
    ensures LengthVaries(t) ==> IsDynamic(t)
    ensures Substantial(t) && IsDynamic(t) ==> LengthVaries(t)
  {
    VaryingIsDynamic(t);
    hide CanVary, IsDynamic, Substantial, HasType, Enc, BodyLen, WellFormed, Sample;
    if v, w :| HasType(t, v) && HasType(t, w) && |Enc(t, v)| != |Enc(t, w)| {
      EncLength(t, v);
      EncLength(t, w);
      if !CanVary(t) {
        NeverVaries(t, v, w);
      }
    }
    if CanVary(t) {
      SamplesDiffer(t);
      EncLength(t, Sample(t, 0));
      EncLength(t, Sample(t, 1));
    }
  }
}
