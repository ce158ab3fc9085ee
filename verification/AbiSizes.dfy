/**
 * The sizes computed by the codec's traits are the lengths of the standard's encoding.
 */
module AbiSizes {
  import opened AbiTypes
  import opened AbiSpec

  /** `encode_body_len` is the length of `enc(v)`; for a static type other than `()` so is `HEAD_SIZE`. */
  lemma {:induction false} EncLength(t: Type, v: Value)
    requires HasType(t, v) && WellFormed(t)
    ensures |Enc(t, v)| == BodyLen(t, v)
    ensures !IsDynamic(t) && !t.Unit? ==> |Enc(t, v)| == HeadSize(t)
    decreases v, 2
  {
    match t
    case FixedArray(e, n) =>
      ElementsLength(e, v.items);
    case Vec(e) =>
      ElementsLength(e, v.items);
    case Tuple(ts) =>
      FieldsLength(ts, v.items, |ts|);
      if !IsDynamic(t) {
        NoDynamicSum(ts, v.items, |ts|);
      }
    case _ =>
  }

  lemma {:induction false} ElementsLength(e: Type, vs: seq<Value>)
    requires WellFormed(e) && HasTypes(Copies(e, |vs|), vs)
    ensures forall i | 0 <= i < |vs| :: HasType(e, vs[i])
    ensures |EncFields(Copies(e, |vs|), vs)|
         == if IsDynamic(e) then |vs| * 32 + BodySum(e, vs, |vs|) else HeadSize(e) * |vs|
    ensures !IsDynamic(e) ==> BodySum(e, vs, |vs|) == if e.Unit? then 0 else HeadSize(e) * |vs|
    decreases vs, 2
  {
    FieldsLength(Copies(e, |vs|), vs, |vs|);
    ArraySums(e, vs, |vs|);
  }

  /** The first `k` heads fill `SLOT_SIZE` bytes each, and the tails hold the dynamic bodies. */
  lemma {:induction false} FieldsLength(ts: seq<Type>, vs: seq<Value>, k: nat)
    requires HasTypes(ts, vs) && k <= |ts|
    requires forall i | 0 <= i < |ts| :: WellFormed(ts[i])
    ensures HeadLen(ts, vs, k) == |Heads(ts, vs, k)| == SlotSum(ts, k)
    ensures |Tails(ts, vs, k)| == DynamicSum(ts, vs, k)
    decreases vs, 1, k
  {
    if k > 0 {
      FieldsLength(ts, vs, k - 1);
      EncLength(ts[k - 1], vs[k - 1]);
    }
  }

  /** An array's sizes, computed with products, are those of its elements as tuple fields. */
  lemma {:induction false} ArraySums(e: Type, vs: seq<Value>, k: nat)
    requires HasTypes(Copies(e, |vs|), vs) && k <= |vs|
    requires WellFormed(e)
    ensures forall i | 0 <= i < |vs| :: HasType(e, vs[i])
    ensures SlotSum(Copies(e, |vs|), k) == SlotSize(e) * k
    ensures DynamicSum(Copies(e, |vs|), vs, k) == if IsDynamic(e) then BodySum(e, vs, k) else 0
    ensures !IsDynamic(e) ==> BodySum(e, vs, k) == if e.Unit? then 0 else HeadSize(e) * k
    decreases vs, 0, k
  {
    CopiesSlots(e, |vs|, k);
    assert forall i | 0 <= i < |vs| :: HasType(Copies(e, |vs|)[i], vs[i]);
    hide HasType, WellFormed, Enc, SlotSize, SlotSum;
    if k > 0 {
      ArraySums(e, vs, k - 1);
      EncLength(e, vs[k - 1]);
      ProductStep(HeadSize(e), k);
    }
  }

  lemma {:induction false} CopiesSlots(e: Type, n: nat, k: nat)
    requires k <= n
    ensures SlotSum(Copies(e, n), k) == SlotSize(e) * k
  {
    if k > 0 {
      CopiesSlots(e, n, k - 1);
      ProductStep(SlotSize(e), k);
    }
  }

  lemma ProductStep(a: nat, k: nat)
    requires k > 0
    ensures a * k == a * (k - 1) + a
  {
  }

  lemma {:induction false} NoDynamicSum(ts: seq<Type>, vs: seq<Value>, k: nat)
    requires HasTypes(ts, vs) && k <= |ts|
    requires forall i | 0 <= i < |ts| :: !IsDynamic(ts[i])
    ensures DynamicSum(ts, vs, k) == 0
  {
    if k > 0 {
      NoDynamicSum(ts, vs, k - 1);
    }
  }
}
