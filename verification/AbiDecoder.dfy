/**
 * The checked decoders: `SolDecode::decode_at`, `decode_tail` and `decode`. Every failure is the one
 * `DecodeError`, so a sequence of components decodes exactly when each component does.
 */
module AbiDecoder {
  import opened Wrappers
  import opened Bytes
  import opened AbiTypes

  /** `read_word_offset`: the low 8 bytes of the word at `offset`, with checked slot arithmetic. */
  function ReadWordOffset(input: seq<byte>, offset: nat): Option<nat> {
    match (CheckedAdd(offset, 24), CheckedAdd(offset, 32))
    case (Some(start), Some(end)) =>
      (match Get(input, start, end)
       case Some(word) => Some(FromBE(word))
       case None => None)
    case _ => None
  }

  /** How many of the word's 32 bytes a right-aligned leaf reads. */
  function LeafWidth(t: Type): (w: nat)
    requires IsLeaf(t) && !t.FixedBytes? && WellFormed(t)
    ensures 1 <= w <= 32
  {
    match t
    case Uint(w) => w
    case Int(w) => w
    case Address => 20
    case Bool => 1
  }

  function LeafValue(t: Type, bs: seq<byte>): Value
    requires IsLeaf(t)
  {
    match t
    case Uint(_) => Num(FromBE(bs))
    case Int(_) => Num(if 2 * FromBE(bs) < Pow256(|bs|) then FromBE(bs) else FromBE(bs) - Pow256(|bs|))
    case Bool => Flag(FromBE(bs) != 0)
    case _ => Raw(bs)
  }

  /** The byte range a leaf decoder asks for. Its additions are plain `usize` additions. */
  function LeafRange(t: Type, offset: nat): (nat, nat)
    requires IsLeaf(t) && WellFormed(t)
  {
    if t.FixedBytes? then (offset, WrappingAdd(offset, t.size))
    else (WrappingAdd(offset, 32 - LeafWidth(t)), WrappingAdd(offset, 32))
  }

  /** Where a leaf's range ends, counted from its offset. */
  function LeafEnd(t: Type): nat
    requires IsLeaf(t)
  {
    if t.FixedBytes? then t.size else 32
  }

  /** How a leaf decoder adds to its offset: the code wraps, a hypothetical careful one fails on overflow. */
  datatype Adds = Wrapping | Checked

  function DecodeLeaf(t: Type, input: seq<byte>, offset: nat, adds: Adds := Wrapping): Result<Value>
    requires IsLeaf(t) && WellFormed(t)
  {
    if adds.Checked? && CheckedAdd(offset, LeafEnd(t)).None? then Err
    else match Get(input, LeafRange(t, offset).0, LeafRange(t, offset).1)
         case Some(bs) => Ok(LeafValue(t, bs))
         case None => Err
  }

  /** `Ok` of all the values, or the first error (they are all alike). */
  function Collect(rs: seq<Result<Value>>): (r: Result<Value>)
    ensures r.Ok? <==> forall i | 0 <= i < |rs| :: rs[i].Ok?
    ensures r.Ok? ==> r.value.Items? && |r.value.items| == |rs|
    ensures r.Ok? ==> forall i | 0 <= i < |rs| :: r.value.items[i] == rs[i].value
  {
    if forall i | 0 <= i < |rs| :: rs[i].Ok?
    then Ok(Items(seq(|rs|, i requires 0 <= i < |rs| => rs[i].value)))
    else Err
  }

  /** `String`, `Bytes` and `Vec`: their `decode_at` follows an absolute head pointer. */
  predicate IsPointer(t: Type) {
    t.DynBytes? || t.Str? || t.Vec?
  }

  function DecodeAt(t: Type, input: seq<byte>, offset: nat, adds: Adds := Wrapping): Result<Value>
    requires WellFormed(t)
    decreases t, if IsPointer(t) then 2 else 1
  {
    if IsLeaf(t) then DecodeLeaf(t, input, offset, adds)
    else if t.Unit? then Ok(Nothing)
    else if t.FixedArray? then
      Collect(seq(t.len, i requires 0 <= i < t.len => ArrayElem(t.elem, input, offset, i, adds)))
    else if t.Tuple? then
      Collect(seq(|t.fields|, i requires 0 <= i < |t.fields| => TupleField(t.fields, input, offset, i, adds)))
    else match ReadWordOffset(input, offset)
         case Some(tail) => DecodeTail(t, input, tail, adds)
         case None => Err
  }

  function DecodeTail(t: Type, input: seq<byte>, offset: nat, adds: Adds := Wrapping): Result<Value>
    requires WellFormed(t)
    decreases t, if IsPointer(t) then 1 else 2
  {
    match t
    case DynBytes => DecodeRaw(input, offset)
    case Str =>
      (match DecodeRaw(input, offset)
       case Ok(v) => if ValidUtf8(v.bytes) then Ok(v) else Err
       case Err => Err)
    case Vec(e) =>
      (match (ReadWordOffset(input, offset), CheckedAdd(offset, 32))
       case (Some(len), Some(start)) =>
         if len > |input| / 32 then Err
         else VecItems(e, input, start, len, adds)
       case _ => Err)
    case _ => DecodeAt(t, input, offset, adds)
  }

  /** The element loops of `Vec::decode_tail`. */
  function VecItems(e: Type, input: seq<byte>, start: nat, len: nat, adds: Adds := Wrapping): Result<Value>
    requires WellFormed(e)
    decreases e, 5
  {
    Collect(seq(len, i requires 0 <= i < len => VecStep(e, input, start, i, adds)))
  }

  /** Element `i` of a `Vec<T>`. */
  function VecStep(e: Type, input: seq<byte>, start: nat, i: nat, adds: Adds := Wrapping): Result<Value>
    requires WellFormed(e)
    decreases e, 4
  {
    if IsDynamic(e) then ArrayElem(e, input, start, i, adds) else VecElem(e, input, start, i, adds)
  }

  /** Length word, then that many bytes. */
  function DecodeRaw(input: seq<byte>, offset: nat): (r: Result<Value>)
    ensures r.Ok? ==> r.value.Raw?
  {
    match (ReadWordOffset(input, offset), CheckedAdd(offset, 32))
    case (Some(len), Some(start)) =>
      (match CheckedAdd(start, len)
       case Some(end) =>
         (match Get(input, start, end)
          case Some(bs) => Ok(Raw(bs))
          case None => Err)
       case None => Err)
    case _ => Err
  }

  /** A component whose head is at `head`, in a composite whose offsets count from `base`. */
  function Component(t: Type, input: seq<byte>, base: nat, head: nat, adds: Adds := Wrapping): Result<Value>
    requires WellFormed(t)
    decreases t, 3, 0
  {
    if IsDynamic(t) then
      match ReadWordOffset(input, head)
      case Some(distance) =>
        (match CheckedAdd(base, distance)
         case Some(tail) => DecodeTail(t, input, tail, adds)
         case None => Err)
      case None => Err
    else DecodeAt(t, input, head, adds)
  }

  /** Element `i` of `[T; N]`, or of a `Vec<T>` with dynamic `T`. */
  function ArrayElem(e: Type, input: seq<byte>, base: nat, i: nat, adds: Adds := Wrapping): Result<Value>
    requires WellFormed(e)
    decreases e, 3, 1
  {
    match CheckedAdd(base, i * SlotSize(e))
    case Some(head) => Component(e, input, base, head, adds)
    case None => Err
  }

  /** Element `i` of a `Vec<T>` with static `T`; the running offset is advanced past it with a check. */
  function VecElem(e: Type, input: seq<byte>, start: nat, i: nat, adds: Adds := Wrapping): Result<Value>
    requires WellFormed(e)
    decreases e, 3, 1
  {
    match CheckedAdd(start, (i + 1) * HeadSize(e))
    case Some(_) => DecodeAt(e, input, start + i * HeadSize(e), adds)
    case None => Err
  }

  /** Field `i` of a tuple; the running head offset is advanced past it with a check. */
  function TupleField(ts: seq<Type>, input: seq<byte>, base: nat, i: nat, adds: Adds := Wrapping): Result<Value>
    requires i < |ts| && WellFormed(ts[i])
    decreases ts[i], 4
  {
    match CheckedAdd(base, SlotSum(ts, i + 1))
    case Some(_) => Component(ts[i], input, base, base + SlotSum(ts, i), adds)
    case None => Err
  }

  /** `SolDecode::decode`: only a dynamic non-tuple is wrapped in an offset word. */
  function Decode(t: Type, input: seq<byte>, adds: Adds := Wrapping): Result<Value>
    requires WellFormed(t)
  {
    if t.Tuple? || !IsDynamic(t) then DecodeAt(t, input, 0, adds)
    else match Get(input, 24, 32)
         case Some(word) => DecodeTail(t, input, FromBE(word), adds)
         case None => Err
  }
}
