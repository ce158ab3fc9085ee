/**
 * What holds of decoding arbitrary bytes, not only encoder output: a result does not change when the
 * input grows, and it is always a value of the Rust type.
 */
module AbiStability {
  import opened Wrappers
  import opened Bytes
  import opened AbiTypes
  import opened AbiDecoder
  import opened AbiRoundTrip

  /** `r` is settled by `q`: once `q` succeeds, `r` is the same. */
  predicate Keeps<T(==)>(q: Result<T>, r: Result<T>) {
    q.Ok? ==> r == q
  }

  lemma GetExtends(input: seq<byte>, junk: seq<byte>, start: nat, end: nat)
    ensures Get(input, start, end).Some? ==> Get(input + junk, start, end) == Get(input, start, end)
  {
    if start <= end <= |input| {
      assert (input + junk)[start..end] == input[start..end];
    }
  }

  lemma OffsetExtends(input: seq<byte>, junk: seq<byte>, off: nat)
    ensures ReadWordOffset(input, off).Some? ==> ReadWordOffset(input + junk, off) == ReadWordOffset(input, off)
  {
    GetExtends(input, junk, off + 24, off + 32);
  }

  lemma RawExtends(input: seq<byte>, junk: seq<byte>, off: nat)
    ensures Keeps(DecodeRaw(input, off), DecodeRaw(input + junk, off))
  {
    OffsetExtends(input, junk, off);
    if DecodeRaw(input, off).Ok? {
      var len := ReadWordOffset(input, off).value;
      GetExtends(input, junk, off + 32, off + 32 + len);
    }
  }

  lemma CollectExtends(qs: seq<Result<Value>>, rs: seq<Result<Value>>)
    requires |qs| == |rs| && forall i | 0 <= i < |qs| :: Keeps(qs[i], rs[i])
    ensures Keeps(Collect(qs), Collect(rs))
  {
    if Collect(qs).Ok? {
      assert forall i | 0 <= i < |qs| :: qs[i].Ok? && rs[i] == qs[i];
      assert qs == rs;
    }
  }

  /** `decode_at` and `decode_tail` give the same value on any longer input. */
  lemma {:induction false} DecodeExtends(t: Type, input: seq<byte>, junk: seq<byte>, off: nat)
    requires WellFormed(t)
    ensures Keeps(DecodeAt(t, input, off), DecodeAt(t, input + junk, off))
    ensures Keeps(DecodeTail(t, input, off), DecodeTail(t, input + junk, off))
    decreases t, 2
  {
    if IsPointer(t) {
      TailExtends(t, input, junk, off);
      OffsetExtends(input, junk, off);
      if ReadWordOffset(input, off).Some? {
        TailExtends(t, input, junk, ReadWordOffset(input, off).value);
      }
    } else if IsLeaf(t) {
      GetExtends(input, junk, LeafRange(t, off).0, LeafRange(t, off).1);
    } else if t.FixedArray? {
      ArrayExtends(t.elem, input, junk, off, t.len);
    } else if t.Tuple? {
      TupleExtends(t.fields, input, junk, off);
    }
  }

  lemma {:induction false} ArrayExtends(e: Type, input: seq<byte>, junk: seq<byte>, off: nat, n: nat)
    requires WellFormed(e)
    ensures Keeps(Collect(seq(n, i requires 0 <= i < n => ArrayElem(e, input, off, i))),
                  Collect(seq(n, i requires 0 <= i < n => ArrayElem(e, input + junk, off, i))))
    decreases e, 5
  {
    forall i: nat | i < n ensures Keeps(ArrayElem(e, input, off, i), ArrayElem(e, input + junk, off, i)) {
      ElemExtends(e, input, junk, off, i);
    }
    CollectExtends(seq(n, i requires 0 <= i < n => ArrayElem(e, input, off, i)),
                   seq(n, i requires 0 <= i < n => ArrayElem(e, input + junk, off, i)));
  }

  lemma {:induction false} TupleExtends(ts: seq<Type>, input: seq<byte>, junk: seq<byte>, off: nat)
    requires forall i | 0 <= i < |ts| :: WellFormed(ts[i])
    ensures Keeps(Collect(seq(|ts|, i requires 0 <= i < |ts| => TupleField(ts, input, off, i))),
                  Collect(seq(|ts|, i requires 0 <= i < |ts| => TupleField(ts, input + junk, off, i))))
    decreases ts, 4
  {
    forall i: nat | i < |ts| ensures Keeps(TupleField(ts, input, off, i), TupleField(ts, input + junk, off, i)) {
      ComponentExtends(ts[i], input, junk, off, off + SlotSum(ts, i));
    }
    CollectExtends(seq(|ts|, i requires 0 <= i < |ts| => TupleField(ts, input, off, i)),
                   seq(|ts|, i requires 0 <= i < |ts| => TupleField(ts, input + junk, off, i)));
  }

  lemma {:induction false} ComponentExtends(t: Type, input: seq<byte>, junk: seq<byte>, base: nat, head: nat)
    requires WellFormed(t)
    ensures Keeps(Component(t, input, base, head), Component(t, input + junk, base, head))
    decreases t, 3
  {
    hide DecodeAt, DecodeTail, ReadWordOffset;
    if IsDynamic(t) {
      OffsetExtends(input, junk, head);
      if ReadWordOffset(input, head).Some? {
        DecodeExtends(t, input, junk, base + ReadWordOffset(input, head).value);
      }
    } else {
      DecodeExtends(t, input, junk, head);
    }
  }

  lemma {:induction false} TailExtends(t: Type, input: seq<byte>, junk: seq<byte>, off: nat)
    requires IsPointer(t) && WellFormed(t)
    ensures Keeps(DecodeTail(t, input, off), DecodeTail(t, input + junk, off))
    decreases t, 1
  {
    RawExtends(input, junk, off);
    OffsetExtends(input, junk, off);
    if t.Vec? && ReadWordOffset(input, off).Some? {
      VecExtends(t.elem, input, junk, off + 32, ReadWordOffset(input, off).value);
    }
  }

  lemma {:induction false} VecExtends(e: Type, input: seq<byte>, junk: seq<byte>, start: nat, n: nat)
    requires WellFormed(e)
    ensures Keeps(VecItems(e, input, start, n), VecItems(e, input + junk, start, n))
    decreases e, 5
  {
    hide ArrayElem, DecodeAt, SlotSize, HeadSize;
    forall i: nat | i < n ensures Keeps(VecStep(e, input, start, i), VecStep(e, input + junk, start, i)) {
      if IsDynamic(e) {
        ElemExtends(e, input, junk, start, i);
      } else {
        DecodeExtends(e, input, junk, start + i * HeadSize(e));
      }
    }
    CollectExtends(seq(n, i requires 0 <= i < n => VecStep(e, input, start, i)),
                   seq(n, i requires 0 <= i < n => VecStep(e, input + junk, start, i)));
  }

  lemma {:induction false} ElemExtends(e: Type, input: seq<byte>, junk: seq<byte>, base: nat, i: nat)
    requires WellFormed(e)
    ensures Keeps(ArrayElem(e, input, base, i), ArrayElem(e, input + junk, base, i))
    decreases e, 4
  {
    hide Component, SlotSize, WellFormed;
    if CheckedAdd(base, i * SlotSize(e)).Some? {
      ComponentExtends(e, input, junk, base, base + i * SlotSize(e));
    }
  }

  /** A successful `decode` never depends on what follows the bytes it was given. */
  lemma DecodeIsStable(t: Type, input: seq<byte>, junk: seq<byte>)
    requires WellFormed(t) && Decode(t, input).Ok?
    ensures Decode(t, input + junk) == Decode(t, input)
  {
    GetExtends(input, junk, 24, 32);
    DecodeExtends(t, input, junk, 0);
    if Get(input, 24, 32).Some? {
      DecodeExtends(t, input, junk, FromBE(Get(input, 24, 32).value));
    }
  }

  // ---------------------------------------------------------------------------
  // Decoded values are values of the type
  // ---------------------------------------------------------------------------

  /** A decoded value, if there is one, has type `t`, and the length guard has admitted every `Vec` in it. */
  predicate Typed(t: Type, r: Result<Value>, size: nat) {
    r.Ok? ==> HasType(t, r.value) && VecsFit(t, r.value, size / 32)
  }

  lemma LeafTyped(t: Type, input: seq<byte>, off: nat)
    requires IsLeaf(t) && WellFormed(t)
    ensures Typed(t, DecodeLeaf(t, input, off), |input|)
  {
    var (start, end) := LeafRange(t, off);
    if Get(input, start, end).Some? {
      RangeWidth(t, off);
      hide LeafRange, LeafWidth, Get, WrappingAdd, FromBE, Pow256;
      LeafValueTyped(t, Get(input, start, end).value, |input| / 32);
    }
  }

  /** A range that does not end before it starts is as wide as the leaf's own bytes. */
  lemma RangeWidth(t: Type, off: nat)
    requires IsLeaf(t) && WellFormed(t) && LeafRange(t, off).0 <= LeafRange(t, off).1
    ensures LeafRange(t, off).1 - LeafRange(t, off).0 == if t.FixedBytes? then t.size else LeafWidth(t)
  {
  }

  lemma LeafValueTyped(t: Type, bs: seq<byte>, cap: nat)
    requires IsLeaf(t) && WellFormed(t) && |bs| == if t.FixedBytes? then t.size else LeafWidth(t)
    ensures HasType(t, LeafValue(t, bs)) && VecsFit(t, LeafValue(t, bs), cap)
  {
    hide FromBE, Pow256;
  }

  lemma OffsetBounded(input: seq<byte>, off: nat)
    ensures ReadWordOffset(input, off).Some? ==> ReadWordOffset(input, off).value < USIZE_LIMIT
  {
    Pow256OfEight();
  }

  lemma {:induction false} DecodedIsTyped(t: Type, input: seq<byte>, off: nat)
    requires WellFormed(t)
    ensures Typed(t, DecodeAt(t, input, off), |input|) && Typed(t, DecodeTail(t, input, off), |input|)
    decreases t, 2
  {
    if IsPointer(t) {
      TailTyped(t, input, off);
      if ReadWordOffset(input, off).Some? {
        TailTyped(t, input, ReadWordOffset(input, off).value);
      }
    } else if IsLeaf(t) {
      LeafTyped(t, input, off);
    } else if t.FixedArray? {
      forall i: nat | i < t.len ensures Typed(t.elem, ArrayElem(t.elem, input, off, i), |input|) {
        ElemTyped(t.elem, input, off, i);
      }
    } else if t.Tuple? {
      forall i: nat | i < |t.fields| ensures Typed(t.fields[i], TupleField(t.fields, input, off, i), |input|) {
        ComponentTyped(t.fields[i], input, off, off + SlotSum(t.fields, i));
      }
    }
  }

  lemma {:induction false} ComponentTyped(t: Type, input: seq<byte>, base: nat, head: nat)
    requires WellFormed(t)
    ensures Typed(t, Component(t, input, base, head), |input|)
    decreases t, 3
  {
    hide DecodeAt, DecodeTail, HasType, VecsFit, WellFormed, ReadWordOffset;
    if !IsDynamic(t) {
      DecodedIsTyped(t, input, head);
    } else if ReadWordOffset(input, head).Some? {
      DecodedIsTyped(t, input, base + ReadWordOffset(input, head).value);
    }
  }

  lemma {:induction false} ElemTyped(e: Type, input: seq<byte>, base: nat, i: nat)
    requires WellFormed(e)
    ensures Typed(e, ArrayElem(e, input, base, i), |input|)
    decreases e, 4
  {
    hide Component, HasType, WellFormed;
    ComponentTyped(e, input, base, base + i * SlotSize(e));
  }

  lemma {:induction false} TailTyped(t: Type, input: seq<byte>, off: nat)
    requires IsPointer(t) && WellFormed(t)
    ensures Typed(t, DecodeTail(t, input, off), |input|)
    decreases t, 1
  {
    hide HasType, VecsFit, VecItems, Typed, ReadWordOffset, DecodeAt;
    ErrTyped(t, |input|);
    if !t.Vec? {
      RawTailTyped(t, input, off);
    } else if ReadWordOffset(input, off).Some? && ReadWordOffset(input, off).value <= |input| / 32 {
      OffsetBounded(input, off);
      VecTyped(t.elem, input, off + 32, ReadWordOffset(input, off).value);
    }
  }

  lemma ErrTyped(t: Type, size: nat)
    ensures Typed(t, Err, size)
  {
  }

  lemma RawTailTyped(t: Type, input: seq<byte>, off: nat)
    requires t.DynBytes? || t.Str?
    ensures Typed(t, DecodeTail(t, input, off), |input|)
  {
    RawTyped(input, off);
    hide DecodeRaw, ValidUtf8;
  }

  lemma RawTyped(input: seq<byte>, off: nat)
    ensures DecodeRaw(input, off).Ok? ==> |DecodeRaw(input, off).value.bytes| < USIZE_LIMIT
  {
    OffsetBounded(input, off);
    hide ReadWordOffset;
  }

  lemma {:induction false} VecTyped(e: Type, input: seq<byte>, start: nat, n: nat)
    requires WellFormed(e) && n < USIZE_LIMIT && n <= |input| / 32
    ensures Typed(Vec(e), VecItems(e, input, start, n), |input|)
    decreases e, 6
  {
    hide VecStep, WellFormed;
    forall i: nat | i < n ensures Typed(e, VecStep(e, input, start, i), |input|) {
      StepTyped(e, input, start, i);
    }
  }

  lemma {:induction false} StepTyped(e: Type, input: seq<byte>, start: nat, i: nat)
    requires WellFormed(e)
    ensures Typed(e, VecStep(e, input, start, i), |input|)
    decreases e, 5
  {
    hide DecodeAt, ArrayElem, SlotSize, HeadSize, IsDynamic, HasType, VecsFit, WellFormed;
    if IsDynamic(e) {
      ElemTyped(e, input, start, i);
    } else {
      DecodedIsTyped(e, input, start + i * HeadSize(e));
    }
  }

  /**
   * Whatever bytes a value was decoded from, its own encoding decodes to it again, if it is in an input as
   * long as those bytes; for types whose `Vec` elements take up space, in any input.
   */
  lemma ReencodingDecodes(t: Type, input: seq<byte>, v: Value, again: seq<byte>)
    requires WellFormed(t) && Decode(t, input) == Ok(v)
    ensures HasType(t, v) && VecsFit(t, v, |input| / 32)
    ensures At(again, 0, EncTop(t, v)) && |again| <= ISIZE_MAX && (|input| <= |again| || ElementsTakeSpace(t)) ==>
              Decode(t, again) == Ok(v)
  {
    DecodedIsTyped(t, input, 0);
    if Get(input, 24, 32).Some? {
      DecodedIsTyped(t, input, FromBE(Get(input, 24, 32).value));
    }
    if At(again, 0, EncTop(t, v)) && |again| <= ISIZE_MAX {
      if |input| <= |again| {
        FitsMore(t, v, |input| / 32, |again| / 32);
        DecodeInvertsEncode(t, v, again);
      } else if ElementsTakeSpace(t) {
        RoundTrip(t, v, again);
      }
    }
  }
}
