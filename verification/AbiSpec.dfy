/**
 * The encoding of the Solidity Contract ABI Specification, section "Formal Specification of the
 * Encoding", as one recursive function `Enc` over values: heads first, then tails, where the head
 * of a dynamic component is the distance from the start of the heads to its tail.
 *
 * The standard has no type for `()`. In the code it takes a head slot in a tuple or an array that the
 * encoder leaves as it is and the decoder does not read. So an encoding is a sequence of cells, each a byte
 * or a hole; `Standard` shows that without `()` there are no holes.
 */
module AbiSpec {
  import opened Bytes
  import opened AbiTypes

  datatype Cell = Byte(b: byte) | Hole

  function Solid(bs: seq<byte>): (cs: seq<Cell>)
    ensures |cs| == |bs| && forall i | 0 <= i < |cs| :: cs[i] == Byte(bs[i])
  {
    seq(|bs|, i requires 0 <= i < |bs| => Byte(bs[i]))
  }

  function Holes(n: nat): (cs: seq<Cell>)
    ensures |cs| == n && forall i | 0 <= i < n :: cs[i] == Hole
  {
    seq(n, i => Hole)
  }

  lemma SolidConcat(a: seq<byte>, b: seq<byte>)
    ensures Solid(a + b) == Solid(a) + Solid(b)
  {
  }

  /** `enc` of a number as a `uint256`. */
  function Word(n: nat): (bs: seq<byte>)
    ensures |bs| == 32
  {
    BE(32, n)
  }

  /** `enc` of an `int`: two's complement, that is, the number modulo `2^256`. */
  function SignedWord(n: int): (bs: seq<byte>)
    ensures |bs| == 32
  {
    Word(n % Pow256(32))
  }

  /** `enc` of a leaf. */
  function LeafBytes(t: Type, v: Value): (bs: seq<byte>)
    requires IsLeaf(t) && HasType(t, v)
    ensures WellFormed(t) ==> |bs| == 32
  {
    match t
    case Uint(_) => Word(v.n)
    case Int(_) => SignedWord(v.n)
    case Bool => Word(if v.b then 1 else 0)
    case Address => Fill(12, 0) + v.bytes
    case FixedBytes(n) => v.bytes + Fill(if n <= 32 then 32 - n else 0, 0)
  }

  /** `enc` of `bytes` and `string`: length, data, and zeros up to the next word. */
  function RawBytes(bs: seq<byte>): seq<byte> {
    Word(|bs|) + bs + Fill(Padding(|bs|), 0)
  }

  ghost function Enc(t: Type, v: Value): seq<Cell>
    requires HasType(t, v)
    decreases v, 2
  {
    match t
    case Unit => []
    case DynBytes => Solid(RawBytes(v.bytes))
    case Str => Solid(RawBytes(v.bytes))
    case FixedArray(e, n) => EncFields(Copies(e, n), v.items)
    case Vec(e) => Solid(Word(|v.items|)) + EncItems(e, v.items)
    case Tuple(ts) => EncFields(ts, v.items)
    case _ => Solid(LeafBytes(t, v))
  }

  /** The elements of a `Vec`; those of `Vec<()>` take no space. */
  ghost function EncItems(e: Type, vs: seq<Value>): seq<Cell>
    requires HasTypes(Copies(e, |vs|), vs)
    decreases vs, 1, 1
  {
    if e.Unit? then [] else EncFields(Copies(e, |vs|), vs)
  }

  /** `enc` of a sequence of components: all the heads, then all the tails. */
  ghost function EncFields(ts: seq<Type>, vs: seq<Value>): seq<Cell>
    requires HasTypes(ts, vs)
    decreases vs, 1, 0
  {
    Heads(ts, vs, |ts|) + Tails(ts, vs, |ts|)
  }

  ghost function Heads(ts: seq<Type>, vs: seq<Value>, k: nat): seq<Cell>
    requires HasTypes(ts, vs) && k <= |ts|
    decreases vs, 0, 2, k
  {
    if k == 0 then [] else Heads(ts, vs, k - 1) + Head(ts, vs, k - 1)
  }

  ghost function Head(ts: seq<Type>, vs: seq<Value>, i: nat): seq<Cell>
    requires HasTypes(ts, vs) && i < |ts|
    decreases vs, 0, 1, i
  {
    if IsDynamic(ts[i]) then Solid(Word(HeadLen(ts, vs, |ts|) + |Tails(ts, vs, i)|))
    else if ts[i].Unit? then Holes(32)
    else Enc(ts[i], vs[i])
  }

  /** Length of the first `k` heads: a word for a dynamic component and for `()`, its encoding otherwise. */
  ghost function HeadLen(ts: seq<Type>, vs: seq<Value>, k: nat): nat
    requires HasTypes(ts, vs) && k <= |ts|
    decreases vs, 0, 0, k
  {
    if k == 0 then 0
    else HeadLen(ts, vs, k - 1) + (if IsDynamic(ts[k - 1]) || ts[k - 1].Unit? then 32 else |Enc(ts[k - 1], vs[k - 1])|)
  }

  ghost function Tails(ts: seq<Type>, vs: seq<Value>, k: nat): seq<Cell>
    requires HasTypes(ts, vs) && k <= |ts|
    decreases vs, 0, 0, k
  {
    if k == 0 then [] else Tails(ts, vs, k - 1) + Tail(ts, vs, k - 1)
  }

  ghost function Tail(ts: seq<Type>, vs: seq<Value>, i: nat): seq<Cell>
    requires HasTypes(ts, vs) && i < |ts|
    decreases vs, 0, 0, i
  {
    if IsDynamic(ts[i]) then Enc(ts[i], vs[i]) else []
  }

  // ---------------------------------------------------------------------------
  // Without `()` there are no holes
  // ---------------------------------------------------------------------------

  predicate NoHoles(cs: seq<Cell>) {
    forall i | 0 <= i < |cs| :: cs[i].Byte?
  }

  lemma {:induction false} Standard(t: Type, v: Value)
    requires HasType(t, v) && UnitFree(t)
    ensures NoHoles(Enc(t, v))
    decreases v, 2
  {
    match t
    case FixedArray(e, n) =>
      FieldsStandard(Copies(e, n), v.items, n);
    case Vec(e) =>
      var ts := Copies(e, |v.items|);
      FieldsStandard(ts, v.items, |ts|);
      assert EncItems(e, v.items) == Heads(ts, v.items, |ts|) + Tails(ts, v.items, |ts|);
    case Tuple(ts) =>
      FieldsStandard(ts, v.items, |ts|);
    case _ =>
  }

  lemma {:induction false} FieldsStandard(ts: seq<Type>, vs: seq<Value>, k: nat)
    requires HasTypes(ts, vs) && k <= |ts| && forall i | 0 <= i < |ts| :: UnitFree(ts[i])
    ensures NoHoles(Heads(ts, vs, k)) && NoHoles(Tails(ts, vs, k))
    decreases vs, 1, k
  {
    if k > 0 {
      FieldsStandard(ts, vs, k - 1);
      Standard(ts[k - 1], vs[k - 1]);
    }
  }
}
