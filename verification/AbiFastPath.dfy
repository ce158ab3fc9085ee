/**
 * The unchecked decoder of static types, `StaticDecode::decode_unchecked`. Its caller promises
 * `input.len() >= offset + ENCODED_SIZE`; here its precondition is that each of its reads lies in the
 * input, and the promise is shown to give that for exactly the types in which no value follows a `()`.
 */
module AbiFastPath {
  import opened Wrappers
  import opened Bytes
  import opened AbiTypes
  import opened AbiSizes
  import opened AbiDecoder

  // ---------------------------------------------------------------------------
  // The leaves of a static type, one to a word
  // ---------------------------------------------------------------------------

  function Leaves(t: Type): seq<Type>
    decreases t, 0
  {
    match t
    case FixedArray(e, n) => Repeat(Leaves(e), n)
    case Tuple(ts) => LeavesOf(ts, |ts|)
    case _ => [t]
  }

  function LeavesOf(ts: seq<Type>, k: nat): seq<Type>
    requires k <= |ts|
    decreases ts, k
  {
    if k == 0 then [] else LeavesOf(ts, k - 1) + Leaves(ts[k - 1])
  }

  function Repeat(ls: seq<Type>, n: nat): seq<Type> {
    if n == 0 then [] else Repeat(ls, n - 1) + ls
  }

  /** How many leaves hold a value, that is, are not `()`. */
  function Values(ls: seq<Type>): (k: nat)
    ensures k <= |ls|
  {
    if |ls| == 0 then 0 else Values(ls[..|ls| - 1]) + (if ls[|ls| - 1].Unit? then 0 else 1)
  }

  lemma {:induction false} ValuesConcat(a: seq<Type>, b: seq<Type>)
    ensures Values(a + b) == Values(a) + Values(b)
  {
    if b == [] {
      assert a + b == a;
    } else {
      assert (a + b)[..|a + b| - 1] == a + b[..|b| - 1];
      ValuesConcat(a, b[..|b| - 1]);
    }
  }

  lemma {:induction false} RepeatSizes(ls: seq<Type>, n: nat)
    ensures |Repeat(ls, n)| == |ls| * n && Values(Repeat(ls, n)) == Values(ls) * n
  {
    if n > 0 {
      RepeatSizes(ls, n - 1);
      ValuesConcat(Repeat(ls, n - 1), ls);
      ProductStep(|ls|, n);
      ProductStep(Values(ls), n);
    }
  }

  lemma Associate(k: nat, n: nat)
    ensures 32 * (k * n) == (32 * k) * n
  {
  }

  /** `HEAD_SIZE` counts a word for every leaf, `ENCODED_SIZE` only for those that are not `()`. */
  lemma {:induction false} SizesCountLeaves(t: Type)
    requires !IsDynamic(t)
    ensures HeadSize(t) == 32 * |Leaves(t)|
    ensures EncodedSize(t) == 32 * Values(Leaves(t))
    decreases t, 0
  {
    if t.FixedArray? {
      SizesCountLeaves(t.elem);
      RepeatSizes(Leaves(t.elem), t.len);
      Associate(|Leaves(t.elem)|, t.len);
      Associate(Values(Leaves(t.elem)), t.len);
    } else if t.Tuple? {
      SumsCountLeaves(t.fields, |t.fields|);
    } else {
      assert Values([t][..0]) == 0;
    }
  }

  lemma {:induction false} SumsCountLeaves(ts: seq<Type>, k: nat)
    requires k <= |ts| && forall i | 0 <= i < |ts| :: !IsDynamic(ts[i])
    ensures SlotSum(ts, k) == 32 * |LeavesOf(ts, k)|
    ensures EncodedSum(ts, k) == 32 * Values(LeavesOf(ts, k))
    decreases ts, k
  {
    if k > 0 {
      SumsCountLeaves(ts, k - 1);
      SizesCountLeaves(ts[k - 1]);
      ValuesConcat(LeavesOf(ts, k - 1), Leaves(ts[k - 1]));
    }
  }

  lemma {:induction false} ValuesAllOrNot(ls: seq<Type>)
    ensures Values(ls) == |ls| <==> forall i | 0 <= i < |ls| :: !ls[i].Unit?
  {
    if |ls| > 0 {
      ValuesAllOrNot(ls[..|ls| - 1]);
      assert forall i | 0 <= i < |ls| - 1 :: ls[..|ls| - 1][i] == ls[i];
    }
  }

  /** The two size constants of a static type agree iff none of its leaves is `()`. */
  lemma SizesAgree(t: Type)
    requires !IsDynamic(t)
    ensures EncodedSize(t) <= HeadSize(t)
    ensures EncodedSize(t) == HeadSize(t) <==> forall i | 0 <= i < |Leaves(t)| :: !Leaves(t)[i].Unit?
  {
    SizesCountLeaves(t);
    ValuesAllOrNot(Leaves(t));
  }

  // ---------------------------------------------------------------------------
  // Which reads stay inside the input
  // ---------------------------------------------------------------------------

  /** Where in its word a leaf's last read ends; `()` reads nothing. */
  function Extent(leaf: Type): nat {
    if leaf.Unit? then 0 else if leaf.FixedBytes? then leaf.size else 32
  }

  /** Every leaf, word by word from `offset`, is read from the first `size` bytes. */
  predicate Readable(ls: seq<Type>, offset: nat, size: nat) {
    forall k | 0 <= k < |ls| && !ls[k].Unit? :: offset + 32 * k + Extent(ls[k]) <= size
  }

  lemma ReadableConcat(a: seq<Type>, b: seq<Type>, offset: nat, size: nat)
    ensures Readable(a + b, offset, size) <==> Readable(a, offset, size) && Readable(b, offset + 32 * |a|, size)
  {
    var ls := a + b;
    if Readable(ls, offset, size) {
      forall k | 0 <= k < |b| && !b[k].Unit? ensures offset + 32 * |a| + 32 * k + Extent(b[k]) <= size {
        assert ls[|a| + k] == b[k];
      }
      forall k | 0 <= k < |a| && !a[k].Unit? ensures offset + 32 * k + Extent(a[k]) <= size {
        assert ls[k] == a[k];
      }
    }
    if Readable(a, offset, size) && Readable(b, offset + 32 * |a|, size) {
      forall k | 0 <= k < |ls| && !ls[k].Unit? ensures offset + 32 * k + Extent(ls[k]) <= size {
        if k >= |a| {
          assert b[k - |a|] == ls[k];
        }
      }
    }
  }

  /** Where element `i` starts. */
  function ElemStart(offset: nat, i: nat, slot: nat): nat {
    offset + i * slot
  }

  /** The leaves of the first `n` elements are readable. */
  predicate ElemsReadable(ls: seq<Type>, n: nat, offset: nat, slot: nat, size: nat) {
    forall i: nat | i < n :: Readable(ls, ElemStart(offset, i, slot), size)
  }

  lemma {:induction false} ReadableRepeat(ls: seq<Type>, n: nat, offset: nat, slot: nat, size: nat)
    requires slot == 32 * |ls|
    ensures Readable(Repeat(ls, n), offset, size) <==> ElemsReadable(ls, n, offset, slot, size)
  {
    hide Readable, ElemsReadable, ElemStart;
    if n == 0 {
      NoElems(ls, offset, slot, size);
    } else {
      ReadableRepeat(ls, n - 1, offset, slot, size);
      RepeatSizes(ls, n - 1);
      Associate(|ls|, n - 1);
      ReadableConcat(Repeat(ls, n - 1), ls, offset, size);
      LastElem(ls, n, offset, slot, size);
    }
  }

  lemma NoElems(ls: seq<Type>, offset: nat, slot: nat, size: nat)
    ensures Readable([], offset, size) && ElemsReadable(ls, 0, offset, slot, size)
  {
  }

  lemma LastElem(ls: seq<Type>, n: nat, offset: nat, slot: nat, size: nat)
    requires n > 0
    ensures ElemsReadable(ls, n, offset, slot, size) <==>
            ElemsReadable(ls, n - 1, offset, slot, size) && Readable(ls, offset + slot * (n - 1), size)
  {
    hide Readable;
    assert ElemStart(offset, n - 1, slot) == offset + slot * (n - 1);
  }

  /** The leaves of the first `k` fields are readable. */
  predicate FieldsReadable(ts: seq<Type>, k: nat, offset: nat, size: nat)
    requires k <= |ts|
  {
    forall i: nat | i < k :: Readable(Leaves(ts[i]), offset + SlotSum(ts, i), size)
  }

  lemma {:induction false} ReadableFields(ts: seq<Type>, k: nat, offset: nat, size: nat)
    requires k <= |ts| && forall i | 0 <= i < |ts| :: !IsDynamic(ts[i])
    ensures Readable(LeavesOf(ts, k), offset, size) <==> FieldsReadable(ts, k, offset, size)
    decreases ts, k
  {
    hide *;
    if k == 0 {
      NoFields(ts, offset, size);
    } else {
      LeavesOfLast(ts, k);
      ReadableFields(ts, k - 1, offset, size);
      SumsCountLeaves(ts, k - 1);
      ReadableConcat(LeavesOf(ts, k - 1), Leaves(ts[k - 1]), offset, size);
      LastField(ts, k, offset, size);
    }
  }

  lemma NoFields(ts: seq<Type>, offset: nat, size: nat)
    ensures Readable(LeavesOf(ts, 0), offset, size) && FieldsReadable(ts, 0, offset, size)
  {
  }

  lemma LeavesOfLast(ts: seq<Type>, k: nat)
    requires 0 < k <= |ts|
    ensures LeavesOf(ts, k) == LeavesOf(ts, k - 1) + Leaves(ts[k - 1])
  {
  }

  lemma LastField(ts: seq<Type>, k: nat, offset: nat, size: nat)
    requires 0 < k <= |ts|
    ensures FieldsReadable(ts, k, offset, size) <==>
            FieldsReadable(ts, k - 1, offset, size) && Readable(Leaves(ts[k - 1]), offset + SlotSum(ts, k - 1), size)
  {
    hide Readable, Leaves, SlotSum;
  }

  lemma ArrayReadable(e: Type, n: nat, offset: nat, size: nat)
    requires !IsDynamic(e)
    ensures Readable(Leaves(FixedArray(e, n)), offset, size) <==>
            ElemsReadable(Leaves(e), n, offset, SlotSize(e), size)
  {
    hide Readable, ElemsReadable;
    SizesCountLeaves(e);
    ReadableRepeat(Leaves(e), n, offset, SlotSize(e), size);
  }

  /** No leaf that holds a value comes after a `()`. */
  predicate UnitsTrail(ls: seq<Type>) {
    forall i, j | 0 <= i < j < |ls| && ls[i].Unit? :: ls[j].Unit?
  }

  lemma {:induction false} TrailingUnits(ls: seq<Type>)
    requires UnitsTrail(ls)
    ensures forall k | 0 <= k < |ls| && !ls[k].Unit? :: k < Values(ls)
  {
    if |ls| > 0 {
      var front := ls[..|ls| - 1];
      TrailingUnits(front);
      if !ls[|ls| - 1].Unit? {
        ValuesAllOrNot(front);
      }
      assert forall k | 0 <= k < |front| :: front[k] == ls[k];
    }
  }

  lemma {:induction false} LastValueIsLate(ls: seq<Type>, i: nat, j: nat)
    requires i < j < |ls| && ls[i].Unit? && !ls[j].Unit?
    ensures exists k | 0 <= k < |ls| && !ls[k].Unit? :: k >= Values(ls)
  {
    if ls[|ls| - 1].Unit? {
      var front := ls[..|ls| - 1];
      LastValueIsLate(front, i, j);
      var k :| 0 <= k < |front| && !front[k].Unit? && k >= Values(front);
      assert ls[k] == front[k];
    } else {
      ValuesAllOrNot(ls);
      assert !ls[|ls| - 1].Unit? && |ls| - 1 >= Values(ls);
    }
  }

  /** The promise `size >= offset + ENCODED_SIZE` keeps all reads in range. */
  ghost predicate PromiseSuffices(t: Type)
    requires !IsDynamic(t)
  {
    forall offset: nat, size: nat :: offset + EncodedSize(t) <= size ==> Readable(Leaves(t), offset, size)
  }

  /** It does so exactly for the types in which no value follows a `()`. */
  lemma PromiseSufficesWhenUnitsTrail(t: Type)
    requires WellFormed(t) && !IsDynamic(t)
    ensures PromiseSuffices(t) <==> UnitsTrail(Leaves(t))
  {
    var ls := Leaves(t);
    SizesCountLeaves(t);
    LeavesAreSmall(t);
    if UnitsTrail(ls) {
      TrailingUnits(ls);
    } else {
      var i, j :| 0 <= i < j < |ls| && ls[i].Unit? && !ls[j].Unit?;
      LastValueIsLate(ls, i, j);
      assert !Readable(ls, 0, EncodedSize(t));
    }
  }

  lemma {:induction false} LeavesAreSmall(t: Type)
    requires WellFormed(t) && !IsDynamic(t)
    ensures forall k | 0 <= k < |Leaves(t)| :: !Leaves(t)[k].Unit? ==> 1 <= Extent(Leaves(t)[k]) <= 32
    decreases t, 0
  {
    match t
    case FixedArray(e, n) =>
      LeavesAreSmall(e);
      RepeatMembers(Leaves(e), n);
    case Tuple(ts) =>
      FieldLeavesAreSmall(ts, |ts|);
    case _ =>
  }

  lemma {:induction false} RepeatMembers(ls: seq<Type>, n: nat)
    ensures forall k | 0 <= k < |Repeat(ls, n)| :: Repeat(ls, n)[k] in ls
  {
    if n > 0 {
      RepeatMembers(ls, n - 1);
    }
  }

  lemma {:induction false} FieldLeavesAreSmall(ts: seq<Type>, k: nat)
    requires k <= |ts| && forall i | 0 <= i < |ts| :: WellFormed(ts[i]) && !IsDynamic(ts[i])
    ensures forall j | 0 <= j < |LeavesOf(ts, k)| ::
              !LeavesOf(ts, k)[j].Unit? ==> 1 <= Extent(LeavesOf(ts, k)[j]) <= 32
    decreases ts, k
  {
    if k > 0 {
      FieldLeavesAreSmall(ts, k - 1);
      LeavesAreSmall(ts[k - 1]);
    }
  }

  // ---------------------------------------------------------------------------
  // The unchecked decoder refines the checked one
  // ---------------------------------------------------------------------------

  /** That this function is well formed says that no read leaves the input when `Readable` holds. */
  function DecodeUnchecked(t: Type, input: seq<byte>, offset: nat): Value
    requires WellFormed(t) && !IsDynamic(t) && Readable(Leaves(t), offset, |input|)
    decreases t, 0
  {
    match t
    case Unit => Nothing
    case FixedArray(e, n) =>
      ArrayReadable(e, n, offset, |input|);
      Items(seq(n, i requires 0 <= i < n => UncheckedElem(e, n, input, offset, i)))
    case Tuple(ts) =>
      ReadableFields(ts, |ts|, offset, |input|);
      Items(UncheckedFields(ts, input, offset))
    case FixedBytes(n) => LeafValue(t, LeafBytes(t, input, offset)[..n])
    case _ => LeafValue(t, LeafBytes(t, input, offset)[32 - LeafWidth(t)..])
  }

  /** The bytes of a leaf's word up to the last one it reads. */
  function LeafBytes(t: Type, input: seq<byte>, offset: nat): (bs: seq<byte>)
    requires IsLeaf(t) && Readable([t], offset, |input|)
    ensures |bs| == Extent(t)
  {
    assert [t][0] == t;
    input[offset..offset + Extent(t)]
  }

  function UncheckedElem(e: Type, n: nat, input: seq<byte>, offset: nat, i: nat): Value
    requires WellFormed(e) && !IsDynamic(e) && i < n
    requires ElemsReadable(Leaves(e), n, offset, SlotSize(e), |input|)
    decreases e, 1
  {
    DecodeUnchecked(e, input, ElemStart(offset, i, SlotSize(e)))
  }

  function UncheckedFields(ts: seq<Type>, input: seq<byte>, offset: nat): (vs: seq<Value>)
    requires forall j | 0 <= j < |ts| :: WellFormed(ts[j]) && !IsDynamic(ts[j])
    requires FieldsReadable(ts, |ts|, offset, |input|)
    ensures |vs| == |ts| && forall i | 0 <= i < |ts| :: vs[i] == UncheckedField(ts, input, offset, i)
    decreases ts, 2
  {
    seq(|ts|, i requires 0 <= i < |ts| => UncheckedField(ts, input, offset, i))
  }

  function UncheckedField(ts: seq<Type>, input: seq<byte>, offset: nat, i: nat): Value
    requires forall j | 0 <= j < |ts| :: WellFormed(ts[j]) && !IsDynamic(ts[j])
    requires i < |ts| && FieldsReadable(ts, |ts|, offset, |input|)
    decreases ts, 1
  {
    DecodeUnchecked(ts[i], input, offset + SlotSum(ts, i))
  }

  /** What the checked decoder returns for a static type: the unchecked value if all reads are in range. */
  ghost predicate Agrees(t: Type, input: seq<byte>, offset: nat, r: Result<Value>)
    requires WellFormed(t) && !IsDynamic(t)
  {
    r == if Readable(Leaves(t), offset, |input|) then Ok(DecodeUnchecked(t, input, offset)) else Err
  }

  /**
   * On every input the checked decoder succeeds iff the unchecked one reads only inside the input, and
   * then with the same value.
   */
  lemma {:induction false} CheckedIsUnchecked(t: Type, input: seq<byte>, offset: nat)
    requires WellFormed(t) && !IsDynamic(t)
    requires |input| < USIZE_LIMIT && offset + HeadSize(t) < USIZE_LIMIT
    ensures Agrees(t, input, offset, DecodeAt(t, input, offset))
    decreases t, 0
  {
    if t.FixedArray? {
      ArrayAgrees(t, input, offset);
    } else if t.Tuple? {
      TupleAgrees(t, input, offset);
    } else if !t.Unit? {
      LeafAgrees(t, input, offset);
    }
  }

  lemma LeafAgrees(t: Type, input: seq<byte>, offset: nat)
    requires WellFormed(t) && IsLeaf(t) && |input| < USIZE_LIMIT && offset + 32 < USIZE_LIMIT
    ensures Agrees(t, input, offset, DecodeLeaf(t, input, offset))
  {
    var start, end := LeafStart(t, offset);
    OneLeaf(t, offset, |input|);
    hide LeafValue, LeafRange, LeafWidth, Readable, WrappingAdd, DecodeUnchecked;
    if end <= |input| {
      LeafUnchecked(t, input, offset, start, end);
    }
  }

  lemma LeafUnchecked(t: Type, input: seq<byte>, offset: nat, start: nat, end: nat)
    requires WellFormed(t) && IsLeaf(t) && Leaves(t) == [t] && Readable([t], offset, |input|)
    requires end == offset + Extent(t) <= |input| && start <= end
    requires start == if t.FixedBytes? then offset else offset + 32 - LeafWidth(t)
    ensures DecodeUnchecked(t, input, offset) == LeafValue(t, input[start..end])
  {
    var bs := LeafBytes(t, input, offset);
    hide LeafValue, LeafWidth, Readable, LeafBytes;
    assert bs == input[offset..end] by {
      LeafBytesAre(t, input, offset);
    }
    if t.FixedBytes? {
      assert bs[..t.size] == input[start..end];
    } else {
      assert bs[32 - LeafWidth(t)..] == input[start..end];
    }
  }

  lemma LeafBytesAre(t: Type, input: seq<byte>, offset: nat)
    requires IsLeaf(t) && Readable([t], offset, |input|) && offset + Extent(t) <= |input|
    ensures LeafBytes(t, input, offset) == input[offset..offset + Extent(t)]
  {
  }

  /** A leaf's range, where nothing wraps. */
  lemma LeafStart(t: Type, offset: nat) returns (start: nat, end: nat)
    requires WellFormed(t) && IsLeaf(t) && offset + 32 < USIZE_LIMIT
    ensures LeafRange(t, offset) == (start, end) && end == offset + Extent(t) && start <= end
    ensures start == if t.FixedBytes? then offset else offset + 32 - LeafWidth(t)
  {
    start, end := LeafRange(t, offset).0, LeafRange(t, offset).1;
  }

  lemma OneLeaf(t: Type, offset: nat, size: nat)
    requires IsLeaf(t)
    ensures Leaves(t) == [t] && (Readable([t], offset, size) <==> offset + Extent(t) <= size)
  {
    assert [t][0] == t;
  }

  lemma {:induction false} ArrayAgrees(t: Type, input: seq<byte>, offset: nat)
    requires t.FixedArray? && WellFormed(t) && !IsDynamic(t)
    requires |input| < USIZE_LIMIT && offset + HeadSize(t) < USIZE_LIMIT
    ensures Agrees(t, input, offset, DecodeAt(t, input, offset))
    decreases t.elem, 2
  {
    var e, n := t.elem, t.len;
    var rs := seq(n, i requires 0 <= i < n => ArrayElem(e, input, offset, i));
    forall i: nat | i < n ensures Agrees(e, input, ElemStart(offset, i, SlotSize(e)), rs[i]) {
      ElemAgrees(e, n, input, offset, i);
    }
    ArrayReadable(e, n, offset, |input|);
    hide Readable, Leaves, ArrayElem, SlotSize, ElemStart, WellFormed, IsDynamic;
    if ElemsReadable(Leaves(e), n, offset, SlotSize(e), |input|) {
      assert Collect(rs).value.items == DecodeUnchecked(t, input, offset).items;
    } else {
      var i: nat :| i < n && !Readable(Leaves(e), ElemStart(offset, i, SlotSize(e)), |input|);
      assert rs[i].Err?;
    }
  }

  lemma {:induction false} ElemAgrees(e: Type, n: nat, input: seq<byte>, offset: nat, i: nat)
    requires WellFormed(e) && !IsDynamic(e) && i < n
    requires |input| < USIZE_LIMIT && offset + SlotSize(e) * n < USIZE_LIMIT
    ensures Agrees(e, input, ElemStart(offset, i, SlotSize(e)), ArrayElem(e, input, offset, i))
    decreases e, 1
  {
    hide Agrees, WellFormed, DecodeAt;
    SlotInArray(SlotSize(e), n, i);
    CheckedIsUnchecked(e, input, ElemStart(offset, i, SlotSize(e)));
  }

  lemma SlotInArray(slot: nat, n: nat, i: nat)
    requires i < n
    ensures i * slot + slot <= slot * n
  {
    assert (i + 1) * slot <= n * slot;
  }

  lemma {:induction false} TupleAgrees(t: Type, input: seq<byte>, offset: nat)
    requires t.Tuple? && WellFormed(t) && !IsDynamic(t)
    requires |input| < USIZE_LIMIT && offset + HeadSize(t) < USIZE_LIMIT
    ensures Agrees(t, input, offset, DecodeAt(t, input, offset))
    decreases t.fields, 3
  {
    hide *;
    assert t == Tuple(t.fields);
    TupleUnfolds(t.fields, input, offset);
    FieldsDecode(t.fields, input, offset);
  }

  lemma {:induction false} FieldsDecode(ts: seq<Type>, input: seq<byte>, offset: nat)
    requires forall i | 0 <= i < |ts| :: WellFormed(ts[i]) && !IsDynamic(ts[i])
    requires |input| < USIZE_LIMIT && offset + SlotSum(ts, |ts|) < USIZE_LIMIT
    ensures DecodeAt(Tuple(ts), input, offset) ==
            if FieldsReadable(ts, |ts|, offset, |input|) then Ok(Items(UncheckedFields(ts, input, offset))) else Err
    decreases ts, 2
  {
    hide Agrees, Component, TupleField, SlotSum, FieldsReadable, UncheckedFields, WellFormed, IsDynamic;
    var rs := seq(|ts|, i requires 0 <= i < |ts| => TupleField(ts, input, offset, i));
    forall i: nat | i < |ts| ensures Agrees(ts[i], input, offset + SlotSum(ts, i), rs[i]) {
      hide Collect, DecodeAt;
      FieldAgrees(ts, input, offset, i);
    }
    FieldsCollect(ts, input, offset, rs);
  }

  /** What the decoders of a tuple amount to, in terms of its fields. */
  lemma TupleUnfolds(ts: seq<Type>, input: seq<byte>, offset: nat)
    requires WellFormed(Tuple(ts)) && !IsDynamic(Tuple(ts))
    ensures forall i | 0 <= i < |ts| :: WellFormed(ts[i]) && !IsDynamic(ts[i])
    ensures HeadSize(Tuple(ts)) == SlotSum(ts, |ts|)
    ensures forall r :: Agrees(Tuple(ts), input, offset, r) <==>
              r == if FieldsReadable(ts, |ts|, offset, |input|)
                   then Ok(Items(UncheckedFields(ts, input, offset)))
                   else Err
  {
    ReadableFields(ts, |ts|, offset, |input|);
    hide Readable, FieldsReadable, SlotSum, UncheckedFields;
  }

  lemma FieldsCollect(ts: seq<Type>, input: seq<byte>, offset: nat, rs: seq<Result<Value>>)
    requires |rs| == |ts| && forall i | 0 <= i < |ts| :: WellFormed(ts[i]) && !IsDynamic(ts[i])
    requires forall i: nat | i < |ts| :: Agrees(ts[i], input, offset + SlotSum(ts, i), rs[i])
    ensures Collect(rs) ==
            if FieldsReadable(ts, |ts|, offset, |input|) then Ok(Items(UncheckedFields(ts, input, offset))) else Err
  {
    hide Readable, Leaves, DecodeUnchecked, SlotSum, WellFormed, IsDynamic;
    if FieldsReadable(ts, |ts|, offset, |input|) {
      assert Collect(rs).value.items == UncheckedFields(ts, input, offset);
    } else {
      var i: nat :| i < |ts| && !Readable(Leaves(ts[i]), offset + SlotSum(ts, i), |input|);
      assert rs[i].Err?;
    }
  }

  lemma {:induction false} FieldAgrees(ts: seq<Type>, input: seq<byte>, offset: nat, i: nat)
    requires forall j | 0 <= j < |ts| :: WellFormed(ts[j]) && !IsDynamic(ts[j])
    requires |input| < USIZE_LIMIT && offset + SlotSum(ts, |ts|) < USIZE_LIMIT && i < |ts|
    ensures Agrees(ts[i], input, offset + SlotSum(ts, i), TupleField(ts, input, offset, i))
    decreases ts, 1
  {
    hide Agrees, WellFormed, DecodeAt;
    SlotSumMonotone(ts, i + 1, |ts|);
    CheckedIsUnchecked(ts[i], input, offset + SlotSum(ts, i));
  }

  lemma {:induction false} SlotSumMonotone(ts: seq<Type>, i: nat, k: nat)
    requires i <= k <= |ts|
    ensures SlotSum(ts, i) <= SlotSum(ts, k)
  {
    if i < k {
      SlotSumMonotone(ts, i, k - 1);
    }
  }

  /** With the promise, the checked decoder succeeds, with exactly the unchecked one's value. */
  lemma FastRefinesChecked(t: Type, input: seq<byte>, offset: nat)
    requires WellFormed(t) && !IsDynamic(t) && UnitsTrail(Leaves(t))
    requires offset + EncodedSize(t) <= |input| <= ISIZE_MAX && HeadSize(t) <= ISIZE_MAX
    ensures Readable(Leaves(t), offset, |input|)
    ensures DecodeAt(t, input, offset) == Ok(DecodeUnchecked(t, input, offset))
  {
    PromiseSufficesWhenUnitsTrail(t);
    CheckedIsUnchecked(t, input, offset);
  }

  /**
   * With a `()` in front of a value the promise is too weak: `((), U256)` has `ENCODED_SIZE` 32, but on
   * 32 bytes its second field is out of range, and the checked decoder refuses them.
   */
  lemma UnitBeforeValueBreaksPromise(input: seq<byte>)
    requires |input| == 32
    ensures var t := Tuple([Unit, Uint(32)]);
            !IsDynamic(t) && EncodedSize(t) == 32 && !PromiseSuffices(t) && DecodeAt(t, input, 0) == Err
  {
    var ts := [Unit, Uint(32)];
    UnitPairShape();
    hide Leaves, Values, EncodedSize, DecodeUnchecked, DecodeAt, WellFormed, IsDynamic;
    assert ts[0].Unit? && !ts[1].Unit?;
    PromiseSufficesWhenUnitsTrail(Tuple(ts));
    assert 0 + 32 * 1 + Extent(ts[1]) > 32;
    CheckedIsUnchecked(Tuple(ts), input, 0);
  }

  lemma UnitPairShape()
    ensures var ts := [Unit, Uint(32)];
            && WellFormed(Tuple(ts)) && !IsDynamic(Tuple(ts))
            && Leaves(Tuple(ts)) == ts && EncodedSize(Tuple(ts)) == 32 && HeadSize(Tuple(ts)) == 64
  {
    var ts := [Unit, Uint(32)];
    assert !IsDynamic(ts[0]) && !IsDynamic(ts[1]);
    assert LeavesOf(ts, 1) == [Unit] && LeavesOf(ts, 2) == ts;
    assert Values(ts[..1]) == 0 && Values(ts) == 1;
    SizesCountLeaves(Tuple(ts));
  }
}
