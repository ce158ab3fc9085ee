/**
 * Decoding arbitrary bytes, as a relation: which value lies at an offset, read word by word. No decoder
 * function occurs in it, and no optional results; `DecodeIsReading` shows that the decoders find exactly this
 * value, and fail exactly where there is none.
 */
module AbiReads {
  import opened Wrappers
  import Bits
  import opened Bytes
  import opened AbiTypes
  import opened AbiDecoder
  import opened AbiOverflow

  predicate WordAt(input: seq<byte>, off: nat) {
    off + 32 <= |input|
  }

  /** The 256-bit number at `off`. */
  function NumberAt(input: seq<byte>, off: nat): nat
    requires WordAt(input, off)
  {
    FromBE(input[off..off + 32])
  }

  /** Offsets and lengths are the number's low 64 bits. */
  function SmallAt(input: seq<byte>, off: nat): nat
    requires WordAt(input, off)
  {
    NumberAt(input, off) % USIZE_LIMIT
  }

  /** `v` lies at `off`: for a type with a tail, its tail does. */
  predicate Reads(t: Type, v: Value, input: seq<byte>, off: nat)
    decreases t, 1
  {
    match t
    case Uint(w) => WordAt(input, off) && v.Num? && v.n == NumberAt(input, off) % Pow256(w)
    case Int(w) => WordAt(input, off) && v.Num? && FitsInt(v.n, w) && (NumberAt(input, off) - v.n) % Pow256(w) == 0
    case Bool => WordAt(input, off) && v.Flag? && v.b == (input[off + 31] != 0)
    case Address => WordAt(input, off) && v.Raw? && v.bytes == input[off + 12..off + 32]
    case FixedBytes(n) => off + n <= |input| && v.Raw? && v.bytes == input[off..off + n]
    case Unit => v.Nothing?
    case DynBytes => ReadsRaw(v, input, off)
    case Str => ReadsRaw(v, input, off) && ValidUtf8(v.bytes)
    case FixedArray(e, n) =>
      v.Items? && |v.items| == n && forall i | 0 <= i < n :: ReadsElem(e, v.items[i], input, off, i)
    case Vec(e) =>
      && WordAt(input, off) && v.Items?
      && |v.items| == SmallAt(input, off) <= |input| / 32
      && forall i | 0 <= i < |v.items| :: ReadsItem(e, v.items[i], input, off + 32, i)
    case Tuple(ts) =>
      v.Items? && |v.items| == |ts| && forall i | 0 <= i < |ts| :: ReadsField(ts, v.items[i], input, off, i)
  }

  /** Element `i` of an array whose slots start at `base`; where the slot starts is a `usize`. */
  predicate ReadsElem(e: Type, v: Value, input: seq<byte>, base: nat, i: nat)
    decreases e, 3
  {
    base + i * SlotSize(e) < USIZE_LIMIT && ReadsPart(e, v, input, base, base + i * SlotSize(e))
  }

  /** Field `i` of a tuple; where its slot ends is a `usize`. */
  predicate ReadsField(ts: seq<Type>, v: Value, input: seq<byte>, base: nat, i: nat)
    requires i < |ts|
    decreases ts[i], 3
  {
    base + SlotSum(ts, i + 1) < USIZE_LIMIT && ReadsPart(ts[i], v, input, base, base + SlotSum(ts, i))
  }

  /** Element `i` of a `Vec`: as of an array, except that where a static element ends must be a `usize`. */
  predicate ReadsItem(e: Type, v: Value, input: seq<byte>, start: nat, i: nat)
    decreases e, 4
  {
    if IsDynamic(e) then ReadsElem(e, v, input, start, i)
    else start + (i + 1) * HeadSize(e) < USIZE_LIMIT && Reads(e, v, input, start + i * HeadSize(e))
  }

  /** Length, then that many bytes; whatever follows them. */
  predicate ReadsRaw(v: Value, input: seq<byte>, off: nat) {
    && WordAt(input, off) && v.Raw?
    && off + 32 + SmallAt(input, off) <= |input|
    && v.bytes == input[off + 32..off + 32 + SmallAt(input, off)]
  }

  /** A component: in its slot if it is static, else where the slot points, counted from the base. */
  predicate ReadsPart(t: Type, v: Value, input: seq<byte>, base: nat, slot: nat)
    decreases t, 2
  {
    if IsDynamic(t) then
      WordAt(input, slot) && base + SmallAt(input, slot) < USIZE_LIMIT
      && Reads(t, v, input, base + SmallAt(input, slot))
    else Reads(t, v, input, slot)
  }

  /** What `decode` looks for: a dynamic value that is no tuple is behind the word at 0. */
  predicate ReadsTop(t: Type, v: Value, input: seq<byte>) {
    if t.Tuple? || !IsDynamic(t) then Reads(t, v, input, 0)
    else WordAt(input, 0) && Reads(t, v, input, SmallAt(input, 0))
  }

  // ---------------------------------------------------------------------------
  // Words
  // ---------------------------------------------------------------------------

  /** The last bytes of a number are its remainder. */
  lemma {:induction false} LowBytes(bs: seq<byte>, k: nat)
    requires k <= |bs|
    ensures FromBE(bs) % Pow256(k) == FromBE(bs[|bs| - k..])
  {
    var high, low := bs[..|bs| - k], bs[|bs| - k..];
    assert high + low == bs;
    JoinBE(high, low);
    Bits.DivisionIsUnique(FromBE(bs), Pow256(k), FromBE(high), FromBE(low));
  }

  lemma {:induction false} JoinBE(high: seq<byte>, low: seq<byte>)
    ensures FromBE(high + low) == FromBE(high) * Pow256(|low|) + FromBE(low)
    decreases |low|
  {
    if low == [] {
      assert high + low == high;
    } else {
      var front, last := low[..|low| - 1], low[|low| - 1];
      JoinBE(high, front);
      LastDigit(high, low);
      hide *;
      Shift(FromBE(high), Pow256(|front|), FromBE(front), last);
    }
  }

  lemma LastDigit(high: seq<byte>, low: seq<byte>)
    requires |low| > 0
    ensures var front, last := low[..|low| - 1], low[|low| - 1];
            && FromBE(high + low) == FromBE(high + front) * 256 + last
            && FromBE(low) == FromBE(front) * 256 + last
            && Pow256(|low|) == 256 * Pow256(|front|)
  {
    assert (high + low)[..|high + low| - 1] == high + low[..|low| - 1];
  }

  lemma Shift(h: nat, p: nat, f: nat, last: nat)
    ensures (h * p + f) * 256 + last == h * (256 * p) + (f * 256 + last)
  {
  }

  lemma OffsetIsSmall(input: seq<byte>, off: nat)
    requires |input| <= ISIZE_MAX
    ensures ReadWordOffset(input, off) == if WordAt(input, off) then Some(SmallAt(input, off)) else None
  {
    if WordAt(input, off) {
      var word := input[off..off + 32];
      Pow256OfEight();
      LowBytes(word, 8);
      assert word[24..] == input[off + 24..off + 32];
    }
  }

  lemma RawIsReading(v: Value, input: seq<byte>, off: nat)
    requires |input| <= ISIZE_MAX
    ensures DecodeRaw(input, off) == Ok(v) <==> ReadsRaw(v, input, off)
  {
    OffsetIsSmall(input, off);
    hide ReadWordOffset, SmallAt;
  }

  lemma LeafIsReading(t: Type, v: Value, input: seq<byte>, off: nat)
    requires IsLeaf(t) && WellFormed(t) && |input| <= ISIZE_MAX
    ensures DecodeLeaf(t, input, off, Checked) == Ok(v) <==> Reads(t, v, input, off)
  {
    if off + LeafEnd(t) <= |input| {
      LeafRangeIs(t, off);
      hide LeafRange, WrappingAdd, FromBE, Pow256, FitsInt, WellFormed;
      if t.FixedBytes? {
        FixedBytesIsReading(t, v, input, off);
      } else {
        WordLeafIsReading(t, v, input, off);
      }
    }
  }

  lemma LeafRangeIs(t: Type, off: nat)
    requires IsLeaf(t) && WellFormed(t) && off + LeafEnd(t) < USIZE_LIMIT
    ensures 0 < LeafEnd(t) <= 32
    ensures LeafRange(t, off) == (off + LeafEnd(t) - (if t.FixedBytes? then t.size else LeafWidth(t)), off + LeafEnd(t))
  {
  }

  lemma FixedBytesIsReading(t: Type, v: Value, input: seq<byte>, off: nat)
    requires t.FixedBytes? && WellFormed(t) && off + LeafEnd(t) <= |input| <= ISIZE_MAX
    requires LeafRange(t, off) == (off, off + t.size)
    ensures DecodeLeaf(t, input, off, Checked) == Ok(v) <==> Reads(t, v, input, off)
  {
    hide LeafRange;
  }

  lemma WordLeafIsReading(t: Type, v: Value, input: seq<byte>, off: nat)
    requires IsLeaf(t) && !t.FixedBytes? && WellFormed(t) && off + 32 <= |input| <= ISIZE_MAX
    requires LeafRange(t, off) == (off + 32 - LeafWidth(t), off + 32)
    ensures DecodeLeaf(t, input, off, Checked) == Ok(v) <==> Reads(t, v, input, off)
  {
    WordLeafDecodes(t, input, off);
    hide *;
    ValueIsReading(t, v, input, off);
  }

  lemma ValueIsReading(t: Type, v: Value, input: seq<byte>, off: nat)
    requires IsLeaf(t) && !t.FixedBytes? && WellFormed(t) && off + 32 <= |input|
    ensures LeafValue(t, input[off..off + 32][32 - LeafWidth(t)..]) == v <==> Reads(t, v, input, off)
  {
    var word := input[off..off + 32];
    if t.Address? {
      hide LeafRange, FromBE, Pow256;
      AddressValue(t, word[12..]);
      assert word[12..] == input[off + 12..off + 32];
    } else {
      NumberIsReading(t, v, input, off, word);
    }
  }

  lemma NumberIsReading(t: Type, v: Value, input: seq<byte>, off: nat, word: seq<byte>)
    requires (t.Uint? || t.Int? || t.Bool?) && WellFormed(t)
    requires off + 32 <= |input| && word == input[off..off + 32]
    ensures LeafValue(t, word[32 - LeafWidth(t)..]) == v <==> Reads(t, v, input, off)
  {
    ReadsNumber(t, v, input, off, word);
    hide Reads, FromBE, Pow256, FitsInt, LeafValue;
    LowBytes(word, LeafWidth(t));
    LeafNumber(t, v, word);
  }

  lemma ReadsNumber(t: Type, v: Value, input: seq<byte>, off: nat, word: seq<byte>)
    requires off + 32 <= |input| && word == input[off..off + 32]
    ensures t.Uint? ==> (Reads(t, v, input, off) <==> v == Num(FromBE(word) % Pow256(t.width)))
    ensures t.Int? ==> (Reads(t, v, input, off) <==>
              v.Num? && FitsInt(v.n, t.width) && (FromBE(word) - v.n) % Pow256(t.width) == 0)
    ensures t.Bool? ==> (Reads(t, v, input, off) <==> v == Flag(word[31] != 0))
  {
    hide FromBE, Pow256, FitsInt;
  }

  lemma WordLeafDecodes(t: Type, input: seq<byte>, off: nat)
    requires IsLeaf(t) && !t.FixedBytes? && WellFormed(t) && off + 32 <= |input| <= ISIZE_MAX
    requires LeafRange(t, off) == (off + 32 - LeafWidth(t), off + 32)
    ensures DecodeLeaf(t, input, off, Checked) == Ok(LeafValue(t, input[off..off + 32][32 - LeafWidth(t)..]))
  {
    hide LeafRange, LeafWidth, LeafValue;
    var w := LeafWidth(t);
    assert input[off..off + 32][32 - w..] == input[off + 32 - w..off + 32];
  }

  lemma AddressValue(t: Type, bs: seq<byte>)
    requires IsLeaf(t)
    ensures t.Address? ==> LeafValue(t, bs) == Raw(bs)
  {
  }

  /** The number in the last bytes of a word, and what is equal to it modulo a power of 256. */
  lemma LeafNumber(t: Type, v: Value, word: seq<byte>)
    requires IsLeaf(t) && !t.FixedBytes? && WellFormed(t) && |word| == 32
    requires FromBE(word) % Pow256(LeafWidth(t)) == FromBE(word[32 - LeafWidth(t)..])
    ensures var bs := word[32 - LeafWidth(t)..];
            && (t.Uint? ==> (LeafValue(t, bs) == v <==> v == Num(FromBE(word) % Pow256(t.width))))
            && (t.Int? ==> (LeafValue(t, bs) == v <==>
                  v.Num? && FitsInt(v.n, t.width) && (FromBE(word) - v.n) % Pow256(t.width) == 0))
            && (t.Bool? ==> (LeafValue(t, bs) == v <==> v == Flag(word[31] != 0)))
  {
    var bs := word[32 - LeafWidth(t)..];
    match t
    case Int(w) =>
      if v.Num? {
        SignedIsUnique(FromBE(word), v.n, Pow256(w), FromBE(bs));
      }
    case Bool =>
      assert bs == [word[31]];
    case _ =>
  }

  /** The one number in the signed range that is equal to `a` modulo `p`. */
  lemma SignedIsUnique(a: int, n: int, p: int, r: int)
    requires p > 0 && a % p == r
    ensures n == (if 2 * r < p then r else r - p) <==> -p <= 2 * n < p && (a - n) % p == 0
  {
    var q, m := a / p, if 2 * r < p then r else r - p;
    assert a == q * p + r;
    if n == m {
      Bits.DivisionIsUnique(a - n, p, if 2 * r < p then q else q + 1, 0);
    }
    if -p <= 2 * n < p && (a - n) % p == 0 {
      var k := (a - n) / p;
      assert a - n == k * p;
      if n >= 0 {
        Bits.DivisionIsUnique(a, p, k, n);
      } else {
        Bits.DivisionIsUnique(a, p, k - 1, n + p);
      }
    }
  }

  // ---------------------------------------------------------------------------
  // Composites
  // ---------------------------------------------------------------------------

  lemma CollectIs(rs: seq<Result<Value>>, v: Value)
    ensures Collect(rs) == Ok(v) <==>
            v.Items? && |v.items| == |rs| && forall i | 0 <= i < |rs| :: rs[i] == Ok(v.items[i])
  {
    if v.Items? && |v.items| == |rs| && forall i | 0 <= i < |rs| :: rs[i] == Ok(v.items[i]) {
      assert Collect(rs).value.items == v.items;
    }
  }

  /** The decoders, with additions that fail on overflow, find exactly the value that lies there. */
  lemma {:induction false} CheckedIsReading(t: Type, v: Value, input: seq<byte>, off: nat)
    requires WellFormed(t) && |input| <= ISIZE_MAX
    ensures DecodeTail(t, input, off, Checked) == Ok(v) <==> Reads(t, v, input, off)
    decreases t, 1
  {
    if IsLeaf(t) {
      LeafIsReading(t, v, input, off);
    } else if t.DynBytes? || t.Str? {
      RawIsReading(v, input, off);
    } else if t.FixedArray? {
      ArrayIsReading(t, v, input, off);
    } else if t.Tuple? {
      TupleIsReading(t, v, input, off);
    } else if t.Vec? {
      VecIsReading(t, v, input, off);
    }
  }

  lemma {:induction false} PartIsReading(t: Type, v: Value, input: seq<byte>, base: nat, slot: nat)
    requires WellFormed(t) && |input| <= ISIZE_MAX
    ensures Component(t, input, base, slot, Checked) == Ok(v) <==> ReadsPart(t, v, input, base, slot)
    decreases t, 2
  {
    hide Reads, WellFormed, DecodeTail, ReadWordOffset, SmallAt;
    OffsetIsSmall(input, slot);
    if IsDynamic(t) {
      if WordAt(input, slot) {
        CheckedIsReading(t, v, input, base + SmallAt(input, slot));
      }
    } else {
      StaticTail(t, input, slot);
      CheckedIsReading(t, v, input, slot);
    }
  }

  lemma StaticTail(t: Type, input: seq<byte>, off: nat)
    requires WellFormed(t) && !IsDynamic(t)
    ensures DecodeAt(t, input, off, Checked) == DecodeTail(t, input, off, Checked)
  {
    hide DecodeAt;
  }

  lemma {:induction false} ArrayIsReading(t: Type, v: Value, input: seq<byte>, off: nat)
    requires t.FixedArray? && WellFormed(t) && |input| <= ISIZE_MAX
    ensures DecodeTail(t, input, off, Checked) == Ok(v) <==> Reads(t, v, input, off)
    decreases t, 0
  {
    var e, n := t.elem, t.len;
    var rs := seq(n, i requires 0 <= i < n => ArrayElem(e, input, off, i, Checked));
    assert DecodeTail(t, input, off, Checked) == Collect(rs);
    assert Reads(t, v, input, off) <==>
           v.Items? && |v.items| == n && forall i | 0 <= i < n :: ReadsElem(e, v.items[i], input, off, i);
    assert WellFormed(e);
    hide *;
    CollectIs(rs, v);
    if v.Items? && |v.items| == n {
      forall i: nat | i < n ensures rs[i] == Ok(v.items[i]) <==> ReadsElem(e, v.items[i], input, off, i) {
        ElemIsReading(e, v.items[i], input, off, i);
      }
    }
  }

  lemma {:induction false} ElemIsReading(e: Type, v: Value, input: seq<byte>, base: nat, i: nat)
    requires WellFormed(e) && |input| <= ISIZE_MAX
    ensures ArrayElem(e, input, base, i, Checked) == Ok(v) <==> ReadsElem(e, v, input, base, i)
    decreases e, 3
  {
    hide Component, ReadsPart, WellFormed, SlotSize;
    PartIsReading(e, v, input, base, base + i * SlotSize(e));
  }

  lemma {:induction false} TupleIsReading(t: Type, v: Value, input: seq<byte>, off: nat)
    requires t.Tuple? && WellFormed(t) && |input| <= ISIZE_MAX
    ensures DecodeTail(t, input, off, Checked) == Ok(v) <==> Reads(t, v, input, off)
    decreases t, 0
  {
    var ts := t.fields;
    var rs := seq(|ts|, i requires 0 <= i < |ts| => TupleField(ts, input, off, i, Checked));
    assert DecodeTail(t, input, off, Checked) == Collect(rs);
    assert Reads(t, v, input, off) <==>
           v.Items? && |v.items| == |ts| && forall i | 0 <= i < |ts| :: ReadsField(ts, v.items[i], input, off, i);
    assert forall i | 0 <= i < |ts| :: WellFormed(ts[i]);
    hide *;
    CollectIs(rs, v);
    if v.Items? && |v.items| == |ts| {
      forall i: nat | i < |ts| ensures rs[i] == Ok(v.items[i]) <==> ReadsField(ts, v.items[i], input, off, i) {
        FieldIsReading(ts, v.items[i], input, off, i);
      }
    }
  }

  lemma {:induction false} FieldIsReading(ts: seq<Type>, v: Value, input: seq<byte>, base: nat, i: nat)
    requires i < |ts| && WellFormed(ts[i]) && |input| <= ISIZE_MAX
    ensures TupleField(ts, input, base, i, Checked) == Ok(v) <==> ReadsField(ts, v, input, base, i)
    decreases ts[i], 3
  {
    hide Component, ReadsPart, WellFormed, SlotSum;
    PartIsReading(ts[i], v, input, base, base + SlotSum(ts, i));
  }

  lemma {:induction false} VecIsReading(t: Type, v: Value, input: seq<byte>, off: nat)
    requires t.Vec? && WellFormed(t) && |input| <= ISIZE_MAX
    ensures DecodeTail(t, input, off, Checked) == Ok(v) <==> Reads(t, v, input, off)
    decreases t, 0
  {
    OffsetIsSmall(input, off);
    if WordAt(input, off) && SmallAt(input, off) <= |input| / 32 {
      ItemsAreReading(t.elem, v, input, off + 32, SmallAt(input, off));
    }
    hide VecItems, ReadWordOffset, SmallAt, ReadsItem;
  }

  lemma {:induction false} ItemsAreReading(e: Type, v: Value, input: seq<byte>, start: nat, n: nat)
    requires WellFormed(e) && |input| <= ISIZE_MAX
    ensures VecItems(e, input, start, n, Checked) == Ok(v) <==>
            v.Items? && |v.items| == n && forall i | 0 <= i < n :: ReadsItem(e, v.items[i], input, start, i)
    decreases e, 5
  {
    var rs := seq(n, i requires 0 <= i < n => VecStep(e, input, start, i, Checked));
    assert VecItems(e, input, start, n, Checked) == Collect(rs);
    hide *;
    CollectIs(rs, v);
    if v.Items? && |v.items| == n {
      forall i: nat | i < n ensures rs[i] == Ok(v.items[i]) <==> ReadsItem(e, v.items[i], input, start, i) {
        ItemIsReading(e, v.items[i], input, start, i);
      }
    }
  }

  lemma {:induction false} ItemIsReading(e: Type, v: Value, input: seq<byte>, start: nat, i: nat)
    requires WellFormed(e) && |input| <= ISIZE_MAX
    ensures VecStep(e, input, start, i, Checked) == Ok(v) <==> ReadsItem(e, v, input, start, i)
    decreases e, 4
  {
    hide ArrayElem, ReadsElem, Reads, DecodeAt, DecodeTail, WellFormed, SlotSize, HeadSize, IsDynamic;
    if IsDynamic(e) {
      ElemIsReading(e, v, input, start, i);
    } else {
      StaticTail(e, input, start + i * HeadSize(e));
      CheckedIsReading(e, v, input, start + i * HeadSize(e));
    }
  }

  // ---------------------------------------------------------------------------
  // Top level
  // ---------------------------------------------------------------------------

  /** For every type and every input: `decode` returns `v` iff `v` lies there. */
  lemma DecodeIsReading(t: Type, v: Value, input: seq<byte>)
    requires WellFormed(t) && |input| <= ISIZE_MAX && (!IsDynamic(t) ==> HeadSize(t) < USIZE_LIMIT)
    ensures Decode(t, input) == Ok(v) <==> ReadsTop(t, v, input)
  {
    DecodeNeverWraps(t, input);
    if t.Tuple? || !IsDynamic(t) {
      NoPointerTail(t, input, 0);
      CheckedIsReading(t, v, input, 0);
    } else {
      TopOffset(input);
      if WordAt(input, 0) {
        CheckedIsReading(t, v, input, SmallAt(input, 0));
      }
    }
  }

  lemma NoPointerTail(t: Type, input: seq<byte>, off: nat)
    requires WellFormed(t) && (t.Tuple? || !IsDynamic(t))
    ensures DecodeAt(t, input, off, Checked) == DecodeTail(t, input, off, Checked)
  {
    hide DecodeAt;
  }

  lemma TopOffset(input: seq<byte>)
    ensures Get(input, 24, 32).Some? <==> WordAt(input, 0)
    ensures WordAt(input, 0) ==> FromBE(input[24..32]) == SmallAt(input, 0)
  {
    if WordAt(input, 0) {
      var word := input[0..32];
      Pow256OfEight();
      LowBytes(word, 8);
      assert word[24..] == input[24..32];
    }
  }

  /** Hence at most one value lies there. */
  lemma ReadingIsUnique(t: Type, v: Value, w: Value, input: seq<byte>)
    requires WellFormed(t) && |input| <= ISIZE_MAX && (!IsDynamic(t) ==> HeadSize(t) < USIZE_LIMIT)
    requires ReadsTop(t, v, input) && ReadsTop(t, w, input)
    ensures v == w
  {
    hide ReadsTop, Decode, WellFormed, IsDynamic;
    DecodeIsReading(t, v, input);
    DecodeIsReading(t, w, input);
  }
}
