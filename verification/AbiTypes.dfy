/**
 * The ABI types and values of the codec, and the sizes its traits compute from them
 * (`IS_DYNAMIC`, `HEAD_SIZE`, `SLOT_SIZE`, `ENCODED_SIZE`, `encode_body_len`).
 */
module AbiTypes {
  import opened Bytes

  /**
   * `Uint` and `Int` carry their width in bytes, so `u64` is `Uint(8)` and `I256` is `Int(32)`.
   * `FixedBytes(n)` is Rust's `[u8; n]`, `FixedArray(t, n)` is `[t; n]`, `DynBytes` is `Bytes`.
   */
  datatype Type =
    | Uint(width: nat)
    | Int(width: nat)
    | Bool
    | Address
    | FixedBytes(size: nat)
    | Unit
    | DynBytes
    | Str
    | FixedArray(elem: Type, len: nat)
    | Vec(elem: Type)
    | Tuple(fields: seq<Type>)

  datatype Value =
    | Num(n: int)
    | Flag(b: bool)
    | Raw(bytes: seq<byte>)
    | Nothing
    | Items(items: seq<Value>)

  predicate IsWidth(w: nat) {
    w == 1 || w == 2 || w == 4 || w == 8 || w == 16 || w == 32
  }

  predicate IsLeaf(t: Type) {
    t.Uint? || t.Int? || t.Bool? || t.Address? || t.FixedBytes?
  }

  /** The leaf widths the crate implements, everywhere inside the type. */
  predicate WellFormed(t: Type) {
    match t
    case Uint(w) => IsWidth(w)
    case Int(w) => IsWidth(w)
    case FixedBytes(n) => 1 <= n <= 32
    case FixedArray(e, _) => WellFormed(e)
    case Vec(e) => WellFormed(e)
    case Tuple(ts) => forall i | 0 <= i < |ts| :: WellFormed(ts[i])
    case _ => true
  }

  /** No `()` among the components of a composite (nor is the type itself `()`). */
  predicate UnitFree(t: Type) {
    match t
    case Unit => false
    case FixedArray(e, _) => UnitFree(e)
    case Vec(e) => UnitFree(e)
    case Tuple(ts) => forall i | 0 <= i < |ts| :: UnitFree(ts[i])
    case _ => true
  }

  predicate IsDynamic(t: Type) {
    match t
    case DynBytes => true
    case Str => true
    case Vec(_) => true
    case FixedArray(e, _) => IsDynamic(e)
    case Tuple(ts) => exists i | 0 <= i < |ts| :: IsDynamic(ts[i])
    case _ => false
  }

  function HeadSize(t: Type): nat
    decreases t, 0
  {
    match t
    case FixedArray(e, n) => SlotSize(e) * n
    case Tuple(ts) => SlotSum(ts, |ts|)
    case _ => 32
  }

  function SlotSize(t: Type): nat
    decreases t, 1
  {
    if IsDynamic(t) then 32 else HeadSize(t)
  }

  /** Sum of the first `k` slot sizes: where field `k`'s head starts. */
  function SlotSum(ts: seq<Type>, k: nat): nat
    requires k <= |ts|
    decreases ts, k
  {
    if k == 0 then 0 else SlotSum(ts, k - 1) + SlotSize(ts[k - 1])
  }

  /** `StaticEncodedLen::ENCODED_SIZE`. */
  function EncodedSize(t: Type): nat
    requires !IsDynamic(t)
    decreases t, 0
  {
    match t
    case Unit => 0
    case FixedArray(e, n) => EncodedSize(e) * n
    case Tuple(ts) => EncodedSum(ts, |ts|)
    case _ => 32
  }

  function EncodedSum(ts: seq<Type>, k: nat): nat
    requires k <= |ts|
    requires forall i | 0 <= i < |ts| :: !IsDynamic(ts[i])
    decreases ts, k
  {
    if k == 0 then 0 else EncodedSum(ts, k - 1) + EncodedSize(ts[k - 1])
  }

  /** `n` in the range of the Rust integer type `w` bytes wide. */
  predicate FitsUint(n: int, w: nat) {
    0 <= n < Pow256(w)
  }

  predicate FitsInt(n: int, w: nat) {
    var m: int := Pow256(w);
    -m <= 2 * n < m
  }

  /** `v` is a value of the Rust type that `t` stands for. */
  predicate HasType(t: Type, v: Value)
    decreases t
  {
    match t
    case Uint(w) => v.Num? && FitsUint(v.n, w)
    case Int(w) => v.Num? && FitsInt(v.n, w)
    case Bool => v.Flag?
    case Address => v.Raw? && |v.bytes| == 20
    case FixedBytes(n) => v.Raw? && |v.bytes| == n
    case Unit => v.Nothing?
    case DynBytes => v.Raw? && |v.bytes| < USIZE_LIMIT
    case Str => v.Raw? && |v.bytes| < USIZE_LIMIT && ValidUtf8(v.bytes)
    case FixedArray(e, n) => v.Items? && |v.items| == n && forall i | 0 <= i < n :: HasType(e, v.items[i])
    case Vec(e) => v.Items? && |v.items| < USIZE_LIMIT && forall i | 0 <= i < |v.items| :: HasType(e, v.items[i])
    case Tuple(ts) => v.Items? && |v.items| == |ts| && forall i | 0 <= i < |ts| :: HasType(ts[i], v.items[i])
  }

  predicate HasTypes(ts: seq<Type>, vs: seq<Value>) {
    |ts| == |vs| && forall i | 0 <= i < |ts| :: HasType(ts[i], vs[i])
  }

  /** `n` copies of `t`: an array's elements seen as the fields of a tuple. */
  function Copies(t: Type, n: nat): (ts: seq<Type>)
    ensures |ts| == n
    ensures forall i | 0 <= i < n :: ts[i] == t
  {
    seq(n, i => t)
  }

  /** What `String::from_utf8` accepts: the well-formed sequences of RFC 3629, section 4. */
  predicate ValidUtf8(bs: seq<byte>) {
    if |bs| == 0 then true
    else if bs[0] < 0x80 then ValidUtf8(bs[1..])
    else if 0xC2 <= bs[0] <= 0xDF then
      |bs| >= 2 && IsTail(bs[1]) && ValidUtf8(bs[2..])
    else if 0xE0 <= bs[0] <= 0xEF then
      |bs| >= 3 && IsTail(bs[1]) && IsTail(bs[2])
      && (bs[0] == 0xE0 ==> bs[1] >= 0xA0) && (bs[0] == 0xED ==> bs[1] <= 0x9F)
      && ValidUtf8(bs[3..])
    else if 0xF0 <= bs[0] <= 0xF4 then
      |bs| >= 4 && IsTail(bs[1]) && IsTail(bs[2]) && IsTail(bs[3])
      && (bs[0] == 0xF0 ==> bs[1] >= 0x90) && (bs[0] == 0xF4 ==> bs[1] <= 0x8F)
      && ValidUtf8(bs[4..])
    else false
  }

  predicate IsTail(b: byte) {
    0x80 <= b <= 0xBF
  }

  /** The zero bytes after `n` bytes of data, up to the next word. */
  function Padding(n: nat): nat {
    (32 - n % 32) % 32
  }

  /** `encode_body_len`. */
  function BodyLen(t: Type, v: Value): nat
    requires HasType(t, v)
    decreases v, 1
  {
    match t
    case Unit => 0
    case DynBytes => 32 + |v.bytes| + Padding(|v.bytes|)
    case Str => 32 + |v.bytes| + Padding(|v.bytes|)
    case FixedArray(e, n) =>
      if IsDynamic(e) then n * 32 + BodySum(e, v.items, n) else HeadSize(e) * n
    case Vec(e) =>
      if IsDynamic(e) then 32 + |v.items| * 32 + BodySum(e, v.items, |v.items|)
      else 32 + BodySum(e, v.items, |v.items|)
    case Tuple(ts) => HeadSize(t) + DynamicSum(ts, v.items, |ts|)
    case _ => 32
  }

  /** Sum of the first `k` elements' body lengths. */
  function BodySum(e: Type, vs: seq<Value>, k: nat): nat
    requires k <= |vs| && forall i | 0 <= i < |vs| :: HasType(e, vs[i])
    decreases vs, 0, k
  {
    if k == 0 then 0 else BodySum(e, vs, k - 1) + BodyLen(e, vs[k - 1])
  }

  /** Sum of the body lengths of the dynamic fields among the first `k`. */
  function DynamicSum(ts: seq<Type>, vs: seq<Value>, k: nat): nat
    requires k <= |ts| && HasTypes(ts, vs)
    decreases vs, 0, k
  {
    if k == 0 then 0
    else DynamicSum(ts, vs, k - 1) + (if IsDynamic(ts[k - 1]) then BodyLen(ts[k - 1], vs[k - 1]) else 0)
  }
}
