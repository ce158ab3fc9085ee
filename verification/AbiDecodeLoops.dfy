/**
 * The element loops of the checked decoders, with the state they update: the partly initialised array
 * and the `written` count of `[T; N]::decode_at`, the growing `result` and running offset of
 * `Vec::decode_tail`, and the running head offset of the tuple impls.
 */
module AbiDecodeLoops {
  import opened Wrappers
  import opened Bytes
  import opened AbiTypes
  import opened AbiDecoder

  /** One element of `[MaybeUninit<T>; N]`. */
  datatype Slot = Uninit | Init(value: Value) | Dropped

  /** `assume_init_drop`: sound on an initialised slot only, and it leaves the slot dead. */
  method DropSlot(slots: array<Slot>, i: nat)
    requires i < slots.Length && slots[i].Init?
    modifies slots
    ensures slots[..] == old(slots[..])[i := Dropped]
  {
    slots[i] := Dropped;
  }

  /** The slots after a failure at element `k`: those before it dropped, the others never written. */
  ghost predicate CleanedUp(slots: seq<Slot>, k: nat)
    requires k <= |slots|
  {
    && (forall j | 0 <= j < k :: slots[j] == Dropped)
    && (forall j | k <= j < |slots| :: slots[j] == Uninit)
  }

  method DropWritten(slots: array<Slot>, written: nat)
    requires written <= slots.Length
    requires forall j | 0 <= j < written :: slots[j].Init?
    requires forall j | written <= j < slots.Length :: slots[j] == Uninit
    modifies slots
    ensures CleanedUp(slots[..], written)
  {
    for j := 0 to written
      invariant forall i | 0 <= i < j :: slots[i] == Dropped
      invariant forall i | j <= i < written :: slots[i].Init?
      invariant forall i | written <= i < slots.Length :: slots[i] == Uninit
    {
      DropSlot(slots, j);
    }
  }

  lemma ArrayCollects(e: Type, n: nat, input: seq<byte>, offset: nat)
    requires WellFormed(e)
    ensures DecodeAt(FixedArray(e, n), input, offset)
         == Collect(seq(n, i requires 0 <= i < n => ArrayElem(e, input, offset, i)))
  {
  }

  /** The loop: `written` slots are filled, all `n` of them unless an element fails. */
  method FillSlots(e: Type, slots: array<Slot>, input: seq<byte>, offset: nat) returns (written: nat)
    requires WellFormed(e) && forall j | 0 <= j < slots.Length :: slots[j] == Uninit
    modifies slots
    ensures written <= slots.Length
    ensures forall j: nat | j < written :: ArrayElem(e, input, offset, j).Ok?
    ensures written == slots.Length ==>
              forall j: nat | j < written :: slots[j] == Init(ArrayElem(e, input, offset, j).value)
    ensures written < slots.Length ==> ArrayElem(e, input, offset, written).Err? && CleanedUp(slots[..], written)
  {
    hide ArrayElem, WellFormed;
    written := 0;
    for i := 0 to slots.Length
      invariant written == i
      invariant forall j: nat | j < i ::
          ArrayElem(e, input, offset, j).Ok? && slots[j] == Init(ArrayElem(e, input, offset, j).value)
      invariant forall j | i <= j < slots.Length :: slots[j] == Uninit
    {
      match ArrayElem(e, input, offset, i)
      case Ok(v) =>
        slots[i] := Init(v);
        written := i + 1;
      case Err =>
        DropWritten(slots, written);
        return;
    }
  }

  /**
   * `[T; N]::decode_at`. Success reads an array whose every slot is initialised; a failure at element
   * `written` drops the values before it, once each, and no other slot.
   */
  method DecodeArray(e: Type, n: nat, input: seq<byte>, offset: nat)
    returns (r: Result<Value>, slots: array<Slot>, written: nat)
    requires WellFormed(e)
    ensures r == DecodeAt(FixedArray(e, n), input, offset)
    ensures fresh(slots) && slots.Length == n
    ensures r.Ok? ==> written == n && forall j | 0 <= j < n :: slots[j] == Init(r.value.items[j])
    ensures r.Err? ==> written < n && ArrayElem(e, input, offset, written).Err? && CleanedUp(slots[..], written)
  {
    hide DecodeAt, ArrayElem, WellFormed;
    slots := new Slot[n](_ => Uninit);
    written := FillSlots(e, slots, input, offset);
    ArrayCollects(e, n, input, offset);
    ghost var rs := seq(n, i requires 0 <= i < n => ArrayElem(e, input, offset, i));
    if written < n {
      assert rs[written].Err?;
      r := Err;
    } else {
      var items := ReadSlots(slots);
      assert Collect(rs).value.items == items;
      r := Ok(Items(items));
    }
  }

  /** The final read of the whole array. */
  method ReadSlots(slots: array<Slot>) returns (items: seq<Value>)
    requires forall j | 0 <= j < slots.Length :: slots[j].Init?
    ensures |items| == slots.Length && forall j | 0 <= j < slots.Length :: slots[j] == Init(items[j])
  {
    items := [];
    for i := 0 to slots.Length
      invariant |items| == i && forall j | 0 <= j < i :: slots[j] == Init(items[j])
    {
      items := items + [slots[i].value];
    }
  }

  /** `Vec::decode_tail`. */
  method DecodeVec(e: Type, input: seq<byte>, offset: nat) returns (r: Result<Value>)
    requires WellFormed(e)
    ensures r == DecodeTail(Vec(e), input, offset)
  {
    var len := ReadWordOffset(input, offset);
    if len.None? || len.value > |input| / 32 {
      return Err;
    }
    var start := CheckedAdd(offset, 32);
    if start.None? {
      return Err;
    }
    if IsDynamic(e) {
      r := DecodeDynamicItems(e, input, start.value, len.value);
    } else {
      r := DecodeStaticItems(e, input, start.value, len.value);
    }
  }

  method DecodeDynamicItems(e: Type, input: seq<byte>, start: nat, len: nat) returns (r: Result<Value>)
    requires WellFormed(e) && IsDynamic(e)
    ensures r == VecItems(e, input, start, len)
  {
    hide VecStep, Component, ArrayElem, WellFormed;
    ghost var rs := seq(len, i requires 0 <= i < len => VecStep(e, input, start, i));
    var result := [];
    for i := 0 to len
      invariant |result| == i && forall j | 0 <= j < i :: rs[j] == Ok(result[j])
    {
      var item := Err;
      var head := CheckedAdd(start, i * 32);
      if head.Some? {
        item := Component(e, input, start, head.value);
      }
      DynamicStep(e, input, start, i);
      assert rs[i] == item;
      if item.Err? {
        return Err;
      }
      result := result + [item.value];
    }
    assert Collect(rs).value.items == result;
    r := Ok(Items(result));
  }

  lemma DynamicStep(e: Type, input: seq<byte>, start: nat, i: nat)
    requires WellFormed(e) && IsDynamic(e)
    ensures VecStep(e, input, start, i) ==
            match CheckedAdd(start, i * 32) case Some(head) => Component(e, input, start, head) case None => Err
  {
  }

  lemma StaticStep(e: Type, input: seq<byte>, start: nat, i: nat)
    requires WellFormed(e) && !IsDynamic(e)
    ensures start + (i + 1) * HeadSize(e) == start + i * HeadSize(e) + HeadSize(e)
    ensures VecStep(e, input, start, i) ==
            match CheckedAdd(start + i * HeadSize(e), HeadSize(e))
            case Some(_) => DecodeAt(e, input, start + i * HeadSize(e))
            case None => Err
  {
    assert (i + 1) * HeadSize(e) == i * HeadSize(e) + HeadSize(e);
  }

  method DecodeStaticItems(e: Type, input: seq<byte>, start: nat, len: nat) returns (r: Result<Value>)
    requires WellFormed(e) && !IsDynamic(e)
    ensures r == VecItems(e, input, start, len)
  {
    hide VecStep, DecodeAt, HeadSize, WellFormed;
    ghost var rs := seq(len, i requires 0 <= i < len => VecStep(e, input, start, i));
    var result := [];
    var elemOffset := start;
    for i := 0 to len
      invariant |result| == i && forall j | 0 <= j < i :: rs[j] == Ok(result[j])
      invariant elemOffset == start + i * HeadSize(e)
    {
      StaticStep(e, input, start, i);
      var item := DecodeAt(e, input, elemOffset);
      var next := CheckedAdd(elemOffset, HeadSize(e));
      if item.Err? || next.None? {
        assert rs[i].Err?;
        return Err;
      }
      elemOffset := next.value;
      result := result + [item.value];
    }
    assert Collect(rs).value.items == result;
    r := Ok(Items(result));
  }

  /** The tuple impls' `decode_at`. */
  method DecodeTuple(ts: seq<Type>, input: seq<byte>, offset: nat) returns (r: Result<Value>)
    requires WellFormed(Tuple(ts))
    ensures r == DecodeAt(Tuple(ts), input, offset)
  {
    ghost var rs := seq(|ts|, i requires 0 <= i < |ts| => TupleField(ts, input, offset, i));
    assert DecodeAt(Tuple(ts), input, offset) == Collect(rs);
    var ho := offset;
    var result := [];
    for i := 0 to |ts|
      invariant ho == offset + SlotSum(ts, i)
      invariant |result| == i && forall j | 0 <= j < i :: rs[j] == Ok(result[j])
    {
      var item := Component(ts[i], input, offset, ho);
      var next := CheckedAdd(ho, SlotSize(ts[i]));
      if item.Err? || next.None? {
        assert rs[i].Err?;
        return Err;
      }
      ho := next.value;
      result := result + [item.value];
    }
    assert Collect(rs).value.items == result;
    r := Ok(Items(result));
  }
}
