/**
 * The leaf decoders add to their offset without a check. Called directly at an offset near `2^64` they wrap
 * around; inside `decode` they never do, because every offset is checked before a leaf is reached.
 */
module AbiOverflow {
  import opened Wrappers
  import opened Bytes
  import opened AbiTypes
  import opened AbiDecoder
  import AbiFastPath

  /** The two kinds of addition give the same result. */
  predicate SameAt(t: Type, input: seq<byte>, off: nat)
    requires WellFormed(t)
  {
    DecodeAt(t, input, off, Checked) == DecodeAt(t, input, off)
  }

  predicate SameTail(t: Type, input: seq<byte>, off: nat)
    requires WellFormed(t)
  {
    DecodeTail(t, input, off, Checked) == DecodeTail(t, input, off)
  }

  // ---------------------------------------------------------------------------
  // A leaf on its own
  // ---------------------------------------------------------------------------

  /**
   * When a leaf decodes. `read_word_offset` fails on every word that is not wholly in the input. A leaf whose
   * bytes end its word also decodes when its additions wrap around into the input; `bytesN` never does.
   */
  lemma LeafReadsItsWordOrWraps(t: Type, input: seq<byte>, offset: nat)
    requires IsLeaf(t) && WellFormed(t) && offset < USIZE_LIMIT && |input| < USIZE_LIMIT
    ensures ReadWordOffset(input, offset).Some? <==> offset + 32 <= |input|
    ensures DecodeLeaf(t, input, offset, Checked).Ok? <==> offset + LeafEnd(t) <= |input|
    ensures DecodeLeaf(t, input, offset).Ok? <==>
            || offset + LeafEnd(t) <= |input|
            || (!t.FixedBytes? && USIZE_LIMIT + LeafWidth(t) <= offset + 32 <= USIZE_LIMIT + |input|)
  {
    hide LeafValue;
    var (start, end) := LeafRange(t, offset);
    if offset + 32 < USIZE_LIMIT {
      assert end == offset + LeafEnd(t);
    } else if !t.FixedBytes? {
      assert end == offset + 32 - USIZE_LIMIT;
    }
  }

  /** `u64::decode_at` at offset `2^64 - 24` reads the first 8 bytes of the input. */
  lemma WrappedRead(input: seq<byte>)
    requires 8 <= |input| < USIZE_LIMIT
    ensures var offset := USIZE_LIMIT - 24;
            && DecodeAt(Uint(8), input, offset) == Ok(Num(FromBE(input[..8])))
            && DecodeAt(Uint(8), input, offset, Checked) == Err
            && ReadWordOffset(input, offset) == None
  {
    assert LeafRange(Uint(8), USIZE_LIMIT - 24) == (0, 8);
    assert input[0..8] == input[..8];
  }

  // ---------------------------------------------------------------------------
  // Leaves inside a composite
  // ---------------------------------------------------------------------------

  lemma CollectSame(qs: seq<Result<Value>>, rs: seq<Result<Value>>)
    requires |qs| == |rs| && forall i | 0 <= i < |qs| :: qs[i] == rs[i]
    ensures Collect(qs) == Collect(rs)
  {
    assert qs == rs;
  }

  /** A static value whose head slot ends below `2^64`. */
  lemma {:induction false} StaticNeverWraps(t: Type, input: seq<byte>, off: nat)
    requires WellFormed(t) && !IsDynamic(t) && off + HeadSize(t) < USIZE_LIMIT
    ensures SameAt(t, input, off)
    decreases t, 2
  {
    if IsLeaf(t) {
      assert WrappingAdd(off, 32) == off + 32;
    } else if t.FixedArray? {
      ArrayNeverWraps(t.elem, t.len, input, off);
    } else if t.Tuple? {
      TupleNeverWraps(t.fields, input, off);
    }
  }

  lemma {:induction false} ArrayNeverWraps(e: Type, n: nat, input: seq<byte>, off: nat)
    requires WellFormed(e) && (!IsDynamic(e) ==> off + SlotSize(e) * n < USIZE_LIMIT)
    ensures SameAt(FixedArray(e, n), input, off)
    decreases e, 5
  {
    var qs := seq(n, i requires 0 <= i < n => ArrayElem(e, input, off, i, Checked));
    var rs := seq(n, i requires 0 <= i < n => ArrayElem(e, input, off, i));
    forall i: nat | i < n ensures qs[i] == rs[i] {
      if !IsDynamic(e) {
        ElemBelow(SlotSize(e), n, i);
      }
      ElemNeverWraps(e, input, off, i);
    }
    CollectSame(qs, rs);
  }

  lemma ElemBelow(slot: nat, n: nat, i: nat)
    requires i < n
    ensures i * slot + slot <= slot * n
  {
    assert (i + 1) * slot <= n * slot;
  }

  lemma {:induction false} ElemNeverWraps(e: Type, input: seq<byte>, base: nat, i: nat)
    requires WellFormed(e) && (!IsDynamic(e) ==> base + i * SlotSize(e) + SlotSize(e) < USIZE_LIMIT)
    ensures ArrayElem(e, input, base, i, Checked) == ArrayElem(e, input, base, i)
    decreases e, 4, 0
  {
    hide Component, WellFormed, IsDynamic;
    ComponentNeverWraps(e, input, base, base + i * SlotSize(e));
  }

  lemma {:induction false} ComponentNeverWraps(t: Type, input: seq<byte>, base: nat, head: nat)
    requires WellFormed(t) && (!IsDynamic(t) ==> head + SlotSize(t) < USIZE_LIMIT)
    ensures Component(t, input, base, head, Checked) == Component(t, input, base, head)
    decreases t, 3
  {
    hide DecodeAt, DecodeTail, WellFormed;
    if !IsDynamic(t) {
      StaticNeverWraps(t, input, head);
    } else if ReadWordOffset(input, head).Some? {
      TailNeverWraps(t, input, base + ReadWordOffset(input, head).value);
    }
  }

  /** A tuple, at any offset: where a field would wrap, the checked advance behind it fails. */
  lemma {:induction false} TupleNeverWraps(ts: seq<Type>, input: seq<byte>, off: nat)
    requires WellFormed(Tuple(ts))
    ensures SameAt(Tuple(ts), input, off)
    decreases ts, 5
  {
    var qs := seq(|ts|, i requires 0 <= i < |ts| => TupleField(ts, input, off, i, Checked));
    var rs := seq(|ts|, i requires 0 <= i < |ts| => TupleField(ts, input, off, i));
    forall i: nat | i < |ts| ensures qs[i] == rs[i] {
      FieldNeverWraps(ts, input, off, i);
    }
    CollectSame(qs, rs);
  }

  lemma {:induction false} FieldNeverWraps(ts: seq<Type>, input: seq<byte>, off: nat, i: nat)
    requires WellFormed(Tuple(ts)) && i < |ts|
    ensures TupleField(ts, input, off, i, Checked) == TupleField(ts, input, off, i)
    decreases ts, 4
  {
    if CheckedAdd(off, SlotSum(ts, i + 1)).Some? {
      hide Component, IsDynamic;
      ComponentNeverWraps(ts[i], input, off, off + SlotSum(ts, i));
    }
  }

  /** A dynamic value, at any offset that the input may name. */
  lemma {:induction false} TailNeverWraps(t: Type, input: seq<byte>, off: nat)
    requires WellFormed(t) && IsDynamic(t)
    ensures SameTail(t, input, off)
    decreases t, 2
  {
    if t.FixedArray? {
      ArrayNeverWraps(t.elem, t.len, input, off);
    } else if t.Tuple? {
      TupleNeverWraps(t.fields, input, off);
    } else if t.Vec? && ReadWordOffset(input, off).Some? {
      VecNeverWraps(t.elem, input, off + 32, ReadWordOffset(input, off).value);
    }
  }

  lemma {:induction false} VecNeverWraps(e: Type, input: seq<byte>, start: nat, n: nat)
    requires WellFormed(e)
    ensures VecItems(e, input, start, n, Checked) == VecItems(e, input, start, n)
    decreases e, 5
  {
    hide VecStep, WellFormed;
    var qs := seq(n, i requires 0 <= i < n => VecStep(e, input, start, i, Checked));
    var rs := seq(n, i requires 0 <= i < n => VecStep(e, input, start, i));
    forall i: nat | i < n ensures qs[i] == rs[i] {
      StepNeverWraps(e, input, start, i);
    }
    CollectSame(qs, rs);
  }

  lemma {:induction false} StepNeverWraps(e: Type, input: seq<byte>, start: nat, i: nat)
    requires WellFormed(e)
    ensures VecStep(e, input, start, i, Checked) == VecStep(e, input, start, i)
    decreases e, 4, 1
  {
    hide DecodeAt, ArrayElem, SlotSize, HeadSize, IsDynamic, WellFormed;
    if IsDynamic(e) {
      ElemNeverWraps(e, input, start, i);
    } else if CheckedAdd(start, (i + 1) * HeadSize(e)).Some? {
      assert (i + 1) * HeadSize(e) == i * HeadSize(e) + HeadSize(e);
      StaticNeverWraps(e, input, start + i * HeadSize(e));
    }
  }

  /**
   * `decode` gives what a decoder gives whose leaves check their additions, on every input. A static type is
   * read at offset 0, so all that is asked is that its own size be a `usize`, as it is for every Rust type.
   */
  lemma DecodeNeverWraps(t: Type, input: seq<byte>)
    requires WellFormed(t) && (!IsDynamic(t) ==> HeadSize(t) < USIZE_LIMIT)
    ensures Decode(t, input, Checked) == Decode(t, input)
  {
    if t.Tuple? {
      TupleNeverWraps(t.fields, input, 0);
    } else if !IsDynamic(t) {
      StaticNeverWraps(t, input, 0);
    } else if Get(input, 24, 32).Some? {
      TailNeverWraps(t, input, FromBE(Get(input, 24, 32).value));
    }
  }

  // ---------------------------------------------------------------------------
  // With checked additions the fast path is exact at every offset
  // ---------------------------------------------------------------------------

  lemma {:induction false} UnreadableFails(t: Type, input: seq<byte>, off: nat)
    requires WellFormed(t) && !IsDynamic(t) && !AbiFastPath.Readable(AbiFastPath.Leaves(t), off, |input|)
    ensures DecodeAt(t, input, off, Checked).Err?
    decreases t, 0
  {
    if t.FixedArray? {
      UnreadableArrayFails(t.elem, t.len, input, off);
    } else if t.Tuple? {
      UnreadableTupleFails(t.fields, input, off);
    } else {
      UnreadableLeafFails(t, input, off);
    }
  }

  lemma UnreadableLeafFails(t: Type, input: seq<byte>, off: nat)
    requires (IsLeaf(t) || t.Unit?) && WellFormed(t)
    requires !AbiFastPath.Readable([t], off, |input|)
    ensures IsLeaf(t) && DecodeLeaf(t, input, off, Checked).Err?
  {
    hide LeafValue;
    if IsLeaf(t) {
      AbiFastPath.OneLeaf(t, off, |input|);
    }
  }

  lemma {:induction false} UnreadableArrayFails(e: Type, n: nat, input: seq<byte>, off: nat)
    requires WellFormed(e) && !IsDynamic(e)
    requires !AbiFastPath.Readable(AbiFastPath.Leaves(FixedArray(e, n)), off, |input|)
    ensures DecodeAt(FixedArray(e, n), input, off, Checked).Err?
    decreases e, 2
  {
    var rs := seq(n, i requires 0 <= i < n => ArrayElem(e, input, off, i, Checked));
    assert DecodeAt(FixedArray(e, n), input, off, Checked) == Collect(rs);
    hide *;
    var i := UnreadableElem(e, n, off, |input|);
    UnreadableElemFails(e, input, off, i);
    assert rs[i].Err?;
  }

  lemma UnreadableElem(e: Type, n: nat, off: nat, size: nat) returns (i: nat)
    requires !IsDynamic(e) && !AbiFastPath.Readable(AbiFastPath.Leaves(FixedArray(e, n)), off, size)
    ensures i < n && !AbiFastPath.Readable(AbiFastPath.Leaves(e), off + i * SlotSize(e), size)
  {
    AbiFastPath.ArrayReadable(e, n, off, size);
    hide AbiFastPath.Readable, AbiFastPath.Leaves;
    i :| i < n && !AbiFastPath.Readable(AbiFastPath.Leaves(e), AbiFastPath.ElemStart(off, i, SlotSize(e)), size);
  }

  lemma {:induction false} UnreadableElemFails(e: Type, input: seq<byte>, off: nat, i: nat)
    requires WellFormed(e) && !IsDynamic(e)
    requires !AbiFastPath.Readable(AbiFastPath.Leaves(e), off + i * SlotSize(e), |input|)
    ensures ArrayElem(e, input, off, i, Checked).Err?
    decreases e, 1
  {
    hide AbiFastPath.Readable, AbiFastPath.Leaves, WellFormed, IsDynamic, DecodeAt;
    UnreadableFails(e, input, off + i * SlotSize(e));
  }

  lemma {:induction false} UnreadableTupleFails(ts: seq<Type>, input: seq<byte>, off: nat)
    requires WellFormed(Tuple(ts)) && !IsDynamic(Tuple(ts))
    requires !AbiFastPath.Readable(AbiFastPath.Leaves(Tuple(ts)), off, |input|)
    ensures DecodeAt(Tuple(ts), input, off, Checked).Err?
    decreases ts, 2
  {
    var rs := seq(|ts|, i requires 0 <= i < |ts| => TupleField(ts, input, off, i, Checked));
    assert DecodeAt(Tuple(ts), input, off, Checked) == Collect(rs);
    var i := UnreadableField(ts, off, |input|);
    assert WellFormed(ts[i]) && !IsDynamic(ts[i]);
    hide *;
    UnreadableFieldFails(ts, input, off, i);
    assert rs[i].Err?;
  }

  lemma UnreadableField(ts: seq<Type>, off: nat, size: nat) returns (i: nat)
    requires !IsDynamic(Tuple(ts)) && !AbiFastPath.Readable(AbiFastPath.Leaves(Tuple(ts)), off, size)
    ensures i < |ts| && !AbiFastPath.Readable(AbiFastPath.Leaves(ts[i]), off + SlotSum(ts, i), size)
  {
    hide *;
    TupleShape(ts);
    AbiFastPath.ReadableFields(ts, |ts|, off, size);
    i := FirstUnreadable(ts, off, size);
  }

  lemma FirstUnreadable(ts: seq<Type>, off: nat, size: nat) returns (i: nat)
    requires !AbiFastPath.FieldsReadable(ts, |ts|, off, size)
    ensures i < |ts| && !AbiFastPath.Readable(AbiFastPath.Leaves(ts[i]), off + SlotSum(ts, i), size)
  {
    hide AbiFastPath.Readable, AbiFastPath.Leaves, SlotSum;
    i :| i < |ts| && !AbiFastPath.Readable(AbiFastPath.Leaves(ts[i]), off + SlotSum(ts, i), size);
  }

  lemma TupleShape(ts: seq<Type>)
    requires !IsDynamic(Tuple(ts))
    ensures forall i | 0 <= i < |ts| :: !IsDynamic(ts[i])
    ensures AbiFastPath.Leaves(Tuple(ts)) == AbiFastPath.LeavesOf(ts, |ts|)
  {
  }

  lemma {:induction false} UnreadableFieldFails(ts: seq<Type>, input: seq<byte>, off: nat, i: nat)
    requires i < |ts| && WellFormed(ts[i]) && !IsDynamic(ts[i])
    requires !AbiFastPath.Readable(AbiFastPath.Leaves(ts[i]), off + SlotSum(ts, i), |input|)
    ensures TupleField(ts, input, off, i, Checked).Err?
    decreases ts, 1
  {
    hide AbiFastPath.Readable, AbiFastPath.Leaves, WellFormed, IsDynamic, DecodeAt, SlotSum;
    UnreadableFails(ts[i], input, off + SlotSum(ts, i));
  }

  lemma FarIsUnreadable(ls: seq<Type>, off: nat, size: nat)
    requires size < off && AbiFastPath.Values(ls) > 0
    ensures !AbiFastPath.Readable(ls, off, size)
    decreases |ls|
  {
    var k :| 0 <= k < |ls| && !ls[k].Unit?;
  }

  /** For a static type that holds a value: success iff all reads are in the input, and then the unchecked value. */
  lemma CheckedAddsAreExact(t: Type, input: seq<byte>, off: nat)
    requires WellFormed(t) && !IsDynamic(t) && AbiFastPath.Values(AbiFastPath.Leaves(t)) > 0
    requires |input| <= ISIZE_MAX && HeadSize(t) <= ISIZE_MAX
    ensures AbiFastPath.Agrees(t, input, off, DecodeAt(t, input, off, Checked))
  {
    if off <= ISIZE_MAX {
      StaticNeverWraps(t, input, off);
      AbiFastPath.CheckedIsUnchecked(t, input, off);
    } else {
      FarIsUnreadable(AbiFastPath.Leaves(t), off, |input|);
      UnreadableFails(t, input, off);
    }
  }

  /** A tuple's own decoder is that exact one, at every offset. */
  lemma TupleIsExact(ts: seq<Type>, input: seq<byte>, off: nat)
    requires var t := Tuple(ts);
             && WellFormed(t) && !IsDynamic(t) && AbiFastPath.Values(AbiFastPath.Leaves(t)) > 0
             && |input| <= ISIZE_MAX && HeadSize(t) <= ISIZE_MAX
    ensures AbiFastPath.Agrees(Tuple(ts), input, off, DecodeAt(Tuple(ts), input, off))
  {
    hide AbiFastPath.Agrees, AbiFastPath.Leaves, WellFormed, IsDynamic, HeadSize, DecodeAt;
    CheckedAddsAreExact(Tuple(ts), input, off);
    TupleNeverWraps(ts, input, off);
  }
}
