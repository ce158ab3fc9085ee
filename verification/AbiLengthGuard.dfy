/**
 * How far the length guard of `Vec` reaches: it refuses an honest encoding of some value of a type exactly
 * when the type has a `Vec`, at any depth, whose elements take up no space.
 */
module AbiLengthGuard {
  import opened Wrappers
  import opened Bytes
  import opened AbiTypes
  import opened AbiSpec
  import opened AbiSizes
  import opened AbiDecoder
  import opened AbiRoundTrip
  import opened AbiEncoder

  /** The elements of a `Vec` of this type take up no space in it. */
  predicate TakesNoSpace(e: Type) {
    e.Unit? || SlotSize(e) == 0
  }

  /**
   * A value in which one `Vec` on every way to such elements has `n` of them, and every other `Vec` is as
   * short as that allows.
   */
  function Witness(t: Type, n: nat): (v: Value)
    requires WellFormed(t) && n < USIZE_LIMIT
    ensures HasType(t, v)
    decreases t, 0
  {
    match t
    case Uint(w) => Num(0)
    case Int(w) =>
      assert Pow256(w) >= 1;
      Num(0)
    case Bool => Flag(false)
    case Address => Raw(Fill(20, 0))
    case FixedBytes(k) => Raw(Fill(k, 0))
    case Unit => Nothing
    case DynBytes => Raw([])
    case Str => Raw([])
    case FixedArray(e, k) => Items(seq(k, i => Witness(e, n)))
    case Vec(e) =>
      if TakesNoSpace(e) then Items(seq(n, i => Witness(e, n)))
      else if ElementsTakeSpace(e) then Items([])
      else Items([Witness(e, n)])
    case Tuple(ts) => Items(Witnesses(ts, n))
  }

  function Witnesses(ts: seq<Type>, n: nat): (vs: seq<Value>)
    requires n < USIZE_LIMIT && forall i | 0 <= i < |ts| :: WellFormed(ts[i])
    ensures |vs| == |ts| && forall i | 0 <= i < |ts| :: vs[i] == Witness(ts[i], n) && HasType(ts[i], vs[i])
    decreases ts, 0
  {
    seq(|ts|, i requires 0 <= i < |ts| => Witness(ts[i], n))
  }

  /** Elements that take up no space are static. */
  lemma NoSpaceIsStatic(e: Type)
    requires TakesNoSpace(e)
    ensures !IsDynamic(e)
  {
  }

  /** The witness's encoding is equally long for every `n`. */
  lemma {:induction false} WitnessLength(t: Type, n: nat, m: nat)
    requires WellFormed(t) && n < USIZE_LIMIT && m < USIZE_LIMIT
    ensures BodyLen(t, Witness(t, n)) == BodyLen(t, Witness(t, m))
    decreases t, 0
  {
    match t
    case FixedArray(e, k) =>
      WitnessLength(e, n, m);
      SameSums(e, Witness(t, n).items, Witness(t, m).items, k);
    case Vec(e) =>
      if TakesNoSpace(e) {
        EmptyLength(e, Witness(t, n).items);
        EmptyLength(e, Witness(t, m).items);
      } else {
        WitnessLength(e, n, m);
        SameSums(e, Witness(t, n).items, Witness(t, m).items, |Witness(t, n).items|);
      }
    case Tuple(ts) =>
      forall i | 0 <= i < |ts| ensures BodyLen(ts[i], Witness(ts[i], n)) == BodyLen(ts[i], Witness(ts[i], m)) {
        WitnessLength(ts[i], n, m);
      }
      SameDynamicSums(ts, Witnesses(ts, n), Witnesses(ts, m), |ts|);
    case _ =>
  }

  lemma EmptyLength(e: Type, vs: seq<Value>)
    requires WellFormed(e) && TakesNoSpace(e) && HasType(Vec(e), Items(vs))
    ensures BodyLen(Vec(e), Items(vs)) == 32
  {
    NoSpaceIsStatic(e);
    EmptyBody(e, vs);
  }

  lemma {:induction false} SameSums(e: Type, vs: seq<Value>, ws: seq<Value>, k: nat)
    requires k <= |vs| == |ws|
    requires forall i | 0 <= i < |vs| :: HasType(e, vs[i]) && HasType(e, ws[i])
    requires forall i | 0 <= i < |vs| :: BodyLen(e, vs[i]) == BodyLen(e, ws[i])
    ensures BodySum(e, vs, k) == BodySum(e, ws, k)
  {
    if k > 0 {
      SameSums(e, vs, ws, k - 1);
    }
  }

  lemma {:induction false} SameDynamicSums(ts: seq<Type>, vs: seq<Value>, ws: seq<Value>, k: nat)
    requires HasTypes(ts, vs) && HasTypes(ts, ws) && k <= |ts|
    requires forall i | 0 <= i < |ts| :: BodyLen(ts[i], vs[i]) == BodyLen(ts[i], ws[i])
    ensures DynamicSum(ts, vs, k) == DynamicSum(ts, ws, k)
  {
    if k > 0 {
      SameDynamicSums(ts, vs, ws, k - 1);
    }
  }

  /** With more elements than the guard's bound, the witness is refused. */
  lemma {:induction false} WitnessIsTooLong(t: Type, n: nat, cap: nat)
    requires WellFormed(t) && !ElementsTakeSpace(t) && cap < n < USIZE_LIMIT
    ensures !VecsFit(t, Witness(t, n), cap)
    decreases t
  {
    var v := Witness(t, n);
    match t
    case FixedArray(e, k) =>
      WitnessIsTooLong(e, n, cap);
      assert v.items[0] == Witness(e, n);
    case Vec(e) =>
      if !TakesNoSpace(e) {
        WitnessIsTooLong(e, n, cap);
        assert v.items[0] == Witness(e, n);
      }
    case Tuple(ts) =>
      var i :| 0 <= i < |ts| && !ElementsTakeSpace(ts[i]);
      WitnessIsTooLong(ts[i], n, cap);
      assert v.items[i] == Witness(ts[i], n);
  }

  /** An input that is just the value's encoding, with zeros in the holes. */
  lemma EncodingExists(cells: seq<Cell>) returns (input: seq<byte>)
    ensures |input| == |cells| && At(input, 0, cells)
  {
    input := seq(|cells|, i requires 0 <= i < |cells| => if cells[i].Byte? then cells[i].b else 0);
  }

  /** Every value of the type that has an encoding decodes from it. */
  ghost predicate AlwaysDecodes(t: Type)
    requires WellFormed(t)
  {
    forall v, input | HasType(t, v) && Lies(t, v, input) :: Decode(t, input) == Ok(v)
  }

  /** The input is an encoding of the value. */
  ghost predicate Lies(t: Type, v: Value, input: seq<byte>)
    requires HasType(t, v)
  {
    At(input, 0, EncTop(t, v)) && |input| == |EncTop(t, v)| && |input| <= ISIZE_MAX
  }

  /**
   * The types that always decode from their own encodings are exactly those in which the elements of every
   * `Vec` take up space. (Of a type so large that not even its witness fits in memory nothing is said.)
   */
  lemma GuardRefusesOnlyEmptyElements(t: Type)
    requires WellFormed(t) && EncodeLen(t, Witness(t, 0)) <= ISIZE_MAX
    ensures AlwaysDecodes(t) <==> ElementsTakeSpace(t)
  {
    if ElementsTakeSpace(t) {
      forall v, input | HasType(t, v) && Lies(t, v, input) ensures Decode(t, input) == Ok(v) {
        RoundTrip(t, v, input);
      }
    } else {
      var v, input := RefusedEncoding(t);
      assert Lies(t, v, input);
    }
  }

  lemma RefusedEncoding(t: Type) returns (v: Value, input: seq<byte>)
    requires WellFormed(t) && EncodeLen(t, Witness(t, 0)) <= ISIZE_MAX && !ElementsTakeSpace(t)
    ensures HasType(t, v) && Lies(t, v, input) && Decode(t, input) == Err
  {
    var size := EncodeLen(t, Witness(t, 0));
    var n := size / 32 + 1;
    v := Witness(t, n);
    hide Witness, WellFormed, HasType, ElementsTakeSpace, Decode, Enc, BodyLen;
    WitnessLength(t, n, 0);
    EncLength(t, v);
    input := EncodingExists(EncTop(t, v));
    WitnessIsTooLong(t, n, size / 32);
    DecodeInvertsEncode(t, v, input);
  }
}
