/**
 * The in-place encoder, `SolEncode::encode_body_to` and `encode_to`, with its running head and tail
 * offsets. Each method leaves the buffer as it was, except that the encoding's bytes lie at `pos`; the
 * holes of the encoding keep what was there.
 */
module AbiEncoder {
  import opened Bytes
  import opened AbiTypes
  import opened AbiSpec
  import opened AbiSizes
  import opened AbiRoundTrip

  /** `s` with the bytes among `cs` written over it at `pos`. */
  function Splice(s: seq<byte>, pos: nat, cs: seq<Cell>): (r: seq<byte>)
    requires pos + |cs| <= |s|
    ensures |r| == |s|
  {
    seq(|s|, i requires 0 <= i < |s| => if pos <= i < pos + |cs| && cs[i - pos].Byte? then cs[i - pos].b else s[i])
  }

  lemma SpliceBytes(s: seq<byte>, pos: nat, cs: seq<Cell>)
    requires pos + |cs| <= |s|
    ensures forall i | 0 <= i < |s| ::
              Splice(s, pos, cs)[i] == if pos <= i < pos + |cs| && cs[i - pos].Byte? then cs[i - pos].b else s[i]
  {
  }

  lemma SpliceTwice(s: seq<byte>, pos: nat, a: seq<Cell>, b: seq<Cell>)
    requires pos + |a| + |b| <= |s|
    ensures Splice(Splice(s, pos, a), pos + |a|, b) == Splice(s, pos, a + b)
  {
    hide Splice;
    SpliceBytes(s, pos, a);
    SpliceBytes(Splice(s, pos, a), pos + |a|, b);
    SpliceBytes(s, pos, a + b);
    assert Splice(Splice(s, pos, a), pos + |a|, b) == Splice(s, pos, a + b);
  }

  /** Extending an earlier write does not disturb a later region that it stays clear of. */
  lemma SpliceBefore(s: seq<byte>, pos: nat, a: seq<Cell>, b: seq<Cell>, far: nat, c: seq<Cell>)
    requires pos + |a| + |b| <= far && far + |c| <= |s|
    ensures Splice(Splice(Splice(s, pos, a), far, c), pos + |a|, b) == Splice(Splice(s, pos, a + b), far, c)
  {
    hide Splice;
    SpliceBytes(s, pos, a);
    SpliceBytes(Splice(s, pos, a), far, c);
    SpliceBytes(Splice(Splice(s, pos, a), far, c), pos + |a|, b);
    SpliceBytes(s, pos, a + b);
    SpliceBytes(Splice(s, pos, a + b), far, c);
    assert Splice(Splice(Splice(s, pos, a), far, c), pos + |a|, b) == Splice(Splice(s, pos, a + b), far, c);
  }

  method FillRange(buf: array<byte>, from: nat, to: nat, b: byte)
    requires from <= to <= buf.Length
    modifies buf
    ensures buf[..] == Splice(old(buf[..]), from, Solid(Fill(to - from, b)))
  {
    forall i | from <= i < to {
      buf[i] := b;
    }
  }

  method CopyRange(buf: array<byte>, from: nat, bs: seq<byte>)
    requires from + |bs| <= buf.Length
    modifies buf
    ensures buf[..] == Splice(old(buf[..]), from, Solid(bs))
  {
    forall i | 0 <= i < |bs| {
      buf[from + i] := bs[i];
    }
  }

  /** Two stretches of bytes written one behind the other. */
  lemma SpliceBoth(s: seq<byte>, pos: nat, a: seq<byte>, b: seq<byte>)
    requires pos + |a| + |b| <= |s|
    ensures Splice(Splice(s, pos, Solid(a)), pos + |a|, Solid(b)) == Splice(s, pos, Solid(a + b))
  {
    hide Splice;
    SolidConcat(a, b);
    SpliceTwice(s, pos, Solid(a), Solid(b));
  }

  /** Right-aligned: `n` fill bytes, then `bs`. */
  method FillThenCopy(buf: array<byte>, pos: nat, n: nat, fill: byte, bs: seq<byte>)
    requires pos + n + |bs| <= buf.Length
    modifies buf
    ensures buf[..] == Splice(old(buf[..]), pos, Solid(Fill(n, fill) + bs))
  {
    hide *;
    ghost var s := buf[..];
    FillRange(buf, pos, pos + n, fill);
    CopyRange(buf, pos + n, bs);
    SpliceBoth(s, pos, Fill(n, fill), bs);
  }

  /** Left-aligned: `bs`, then `n` zeros. */
  method CopyThenFill(buf: array<byte>, pos: nat, bs: seq<byte>, n: nat)
    requires pos + |bs| + n <= buf.Length
    modifies buf
    ensures buf[..] == Splice(old(buf[..]), pos, Solid(bs + Fill(n, 0)))
  {
    hide *;
    ghost var s := buf[..];
    CopyRange(buf, pos, bs);
    FillRange(buf, pos + |bs|, pos + |bs| + n, 0);
    SpliceBoth(s, pos, bs, Fill(n, 0));
  }

  /** 24 zero bytes, then the big-endian `u64`. */
  method WriteOffset(buf: array<byte>, pos: nat, n: nat)
    requires pos + 32 <= buf.Length && n < USIZE_LIMIT
    modifies buf
    ensures buf[..] == Splice(old(buf[..]), pos, Solid(Word(n)))
  {
    Pow256OfEight();
    ZeroExtend(24, 8, n);
    hide Splice, Fill, Solid, BE;
    FillThenCopy(buf, pos, 24, 0, BE(8, n));
  }

  /** The primitive encoders: fill bytes and the value's own bytes, right- or left-aligned. */
  method EncodeLeaf(t: Type, v: Value, buf: array<byte>, pos: nat)
    requires IsLeaf(t) && WellFormed(t) && HasType(t, v) && pos + 32 <= buf.Length
    modifies buf
    ensures buf[..] == Splice(old(buf[..]), pos, Enc(t, v))
  {
    hide Splice, Fill, Solid;
    assert Enc(t, v) == Solid(LeafBytes(t, v));
    match t
    case Uint(w) =>
      ZeroExtend(32 - w, w, v.n);
      FillThenCopy(buf, pos, 32 - w, 0, BE(w, v.n));
    case Int(w) =>
      EncodeInt(w, v.n, buf, pos);
    case Bool =>
      var b := if v.b then 1 else 0;
      ZeroExtend(31, 1, b);
      assert BE(1, b) == [b];
      FillThenCopy(buf, pos, 31, 0, [b]);
    case Address =>
      FillThenCopy(buf, pos, 12, 0, v.bytes);
    case FixedBytes(n) =>
      CopyThenFill(buf, pos, v.bytes, 32 - n);
  }

  lemma SignedWordParts(w: nat, n: int)
    requires w <= 32 && FitsInt(n, w)
    ensures 0 <= (if n < 0 then n + Pow256(w) else n)
    ensures SignedWord(n) == Fill(32 - w, if n < 0 then 0xff else 0) + BE(w, if n < 0 then n + Pow256(w) else n)
  {
    assert SignedWord(n) == BE(32, n % Pow256(32));
    hide *;
    SignedWide(32, w, n);
  }

  method EncodeInt(w: nat, n: int, buf: array<byte>, pos: nat)
    requires w <= 32 && FitsInt(n, w) && pos + 32 <= buf.Length
    modifies buf
    ensures buf[..] == Splice(old(buf[..]), pos, Solid(SignedWord(n)))
  {
    hide *;
    SignedWordParts(w, n);
    FillThenCopy(buf, pos, 32 - w, if n < 0 then 0xff else 0, BE(w, if n < 0 then n + Pow256(w) else n));
  }

  /** `bytes` and `string`: length word, data, zero padding. */
  method EncodeRaw(bs: seq<byte>, buf: array<byte>, pos: nat)
    requires pos + 32 + |bs| + Padding(|bs|) <= buf.Length && |bs| < USIZE_LIMIT
    modifies buf
    ensures buf[..] == Splice(old(buf[..]), pos, Solid(RawBytes(bs)))
  {
    hide Splice, Fill, Solid;
    ghost var s := buf[..];
    WriteOffset(buf, pos, |bs|);
    CopyRange(buf, pos + 32, bs);
    SpliceBoth(s, pos, Word(|bs|), bs);
    FillRange(buf, pos + 32 + |bs|, pos + 32 + |bs| + Padding(|bs|), 0);
    SpliceBoth(s, pos, Word(|bs|) + bs, Fill(Padding(|bs|), 0));
  }

  // ---------------------------------------------------------------------------
  // Composites
  // ---------------------------------------------------------------------------

  /** The buffer after `k` components: their heads at `pos`, their tails at `pos + heads`. */
  ghost function Written(s: seq<byte>, pos: nat, heads: nat, ts: seq<Type>, vs: seq<Value>, k: nat): seq<byte>
    requires HasTypes(ts, vs) && k <= |ts|
    requires |Heads(ts, vs, k)| <= heads && pos + heads + |Tails(ts, vs, k)| <= |s|
  {
    Splice(Splice(s, pos, Heads(ts, vs, k)), pos + heads, Tails(ts, vs, k))
  }

  /** `encode_body_to` of a tuple: `ho` runs over the head slots, `to` over the tails. */
  method EncodeTuple(ts: seq<Type>, vs: seq<Value>, buf: array<byte>, pos: nat)
    requires HasTypes(ts, vs) && forall i | 0 <= i < |ts| :: WellFormed(ts[i])
    requires pos + SlotSum(ts, |ts|) + DynamicSum(ts, vs, |ts|) <= buf.Length < USIZE_LIMIT
    modifies buf
    ensures |EncFields(ts, vs)| == SlotSum(ts, |ts|) + DynamicSum(ts, vs, |ts|)
    ensures buf[..] == Splice(old(buf[..]), pos, EncFields(ts, vs))
    decreases vs, 1
  {
    hide HasType, WellFormed, SlotSize, BodyLen, Enc, Splice;
    ghost var s := buf[..];
    var ho := 0;
    var to := SlotSum(ts, |ts|);
    FieldsLength(ts, vs, |ts|);
    WrittenNone(s, pos, to, ts, vs);
    for i := 0 to |ts|
      invariant ho == SlotSum(ts, i) == |Heads(ts, vs, i)| <= SlotSum(ts, |ts|)
      invariant to == SlotSum(ts, |ts|) + |Tails(ts, vs, i)| <= SlotSum(ts, |ts|) + DynamicSum(ts, vs, |ts|)
      invariant buf[..] == Written(s, pos, SlotSum(ts, |ts|), ts, vs, i)
    {
      to := EncodeComponent(ts, vs, i, buf, pos, ho, to, s);
      ho := ho + SlotSize(ts[i]);
    }
    WrittenAll(s, pos, ts, vs);
  }

  /** One component: an offset in its slot and the body at the tail offset, or the body in its slot. */
  method EncodeComponent(ts: seq<Type>, vs: seq<Value>, i: nat, buf: array<byte>, pos: nat, ho: nat, to: nat,
      ghost s: seq<byte>) returns (next: nat)
    requires HasTypes(ts, vs) && i < |ts| && forall j | 0 <= j < |ts| :: WellFormed(ts[j])
    requires pos + SlotSum(ts, |ts|) + DynamicSum(ts, vs, |ts|) <= buf.Length < USIZE_LIMIT && |s| == buf.Length
    requires ho == SlotSum(ts, i) == |Heads(ts, vs, i)| <= SlotSum(ts, |ts|)
    requires to == SlotSum(ts, |ts|) + |Tails(ts, vs, i)| <= SlotSum(ts, |ts|) + DynamicSum(ts, vs, |ts|)
    requires buf[..] == Written(s, pos, SlotSum(ts, |ts|), ts, vs, i)
    modifies buf
    ensures ho + SlotSize(ts[i]) == SlotSum(ts, i + 1) == |Heads(ts, vs, i + 1)| <= SlotSum(ts, |ts|)
    ensures next == SlotSum(ts, |ts|) + |Tails(ts, vs, i + 1)| <= SlotSum(ts, |ts|) + DynamicSum(ts, vs, |ts|)
    ensures buf[..] == Written(s, pos, SlotSum(ts, |ts|), ts, vs, i + 1)
    decreases vs, 0
  {
    hide HasType, WellFormed, BodyLen, Enc, Heads, Tails, Written, SlotSum, DynamicSum, Splice, HeadLen, SlotSize;
    FieldFits(ts, vs, i);
    WrittenStep(s, pos, ts, vs, i);
    next := to;
    if IsDynamic(ts[i]) {
      WriteOffset(buf, pos + ho, to);
      var tl := BodyLen(ts[i], vs[i]);
      EncodeBody(ts[i], vs[i], buf, pos + to);
      next := to + tl;
    } else {
      ghost var before := buf[..];
      EncodeBody(ts[i], vs[i], buf, pos + ho);
      UnitHead(ts, vs, i, before, pos + ho);
      SpliceNothing(buf[..], pos + to);
    }
  }

  lemma SpliceNothing(s: seq<byte>, pos: nat)
    requires pos <= |s|
    ensures Splice(s, pos, []) == s
  {
  }

  /** Writing nothing is writing a head of `()`. */
  lemma UnitHead(ts: seq<Type>, vs: seq<Value>, i: nat, s: seq<byte>, pos: nat)
    requires HasTypes(ts, vs) && i < |ts| && !IsDynamic(ts[i]) && pos + |Head(ts, vs, i)| <= |s|
    ensures ts[i].Unit? ==> Splice(s, pos, Enc(ts[i], vs[i])) == s == Splice(s, pos, Head(ts, vs, i))
    ensures !ts[i].Unit? ==> Head(ts, vs, i) == Enc(ts[i], vs[i])
  {
  }

  /** Component `i` has its slot below the tails and its tail below the end of the body. */
  lemma FieldFits(ts: seq<Type>, vs: seq<Value>, i: nat)
    requires HasTypes(ts, vs) && i < |ts|
    requires forall j | 0 <= j < |ts| :: WellFormed(ts[j])
    ensures SlotSum(ts, i + 1) == SlotSum(ts, i) + SlotSize(ts[i]) <= SlotSum(ts, |ts|)
    ensures |Heads(ts, vs, i)| == SlotSum(ts, i) && |Heads(ts, vs, i + 1)| == SlotSum(ts, i + 1)
    ensures |Head(ts, vs, i)| == SlotSize(ts[i])
    ensures |Tails(ts, vs, i)| + |Tail(ts, vs, i)| == |Tails(ts, vs, i + 1)|
    ensures |Tails(ts, vs, i + 1)| == DynamicSum(ts, vs, i + 1) <= DynamicSum(ts, vs, |ts|)
    ensures IsDynamic(ts[i]) ==> |Tails(ts, vs, i + 1)| == |Tails(ts, vs, i)| + BodyLen(ts[i], vs[i])
    ensures !IsDynamic(ts[i]) ==> BodyLen(ts[i], vs[i]) == if ts[i].Unit? then 0 else SlotSize(ts[i])
    ensures HeadLen(ts, vs, |ts|) == SlotSum(ts, |ts|)
  {
    hide HasType, WellFormed, Enc, BodyLen;
    FieldsLength(ts, vs, i);
    FieldsLength(ts, vs, i + 1);
    FieldsLength(ts, vs, |ts|);
    EncLength(ts[i], vs[i]);
    UnitBody(ts[i], vs[i]);
    SumsMonotone(ts, vs, i + 1, |ts|);
  }

  lemma UnitBody(t: Type, v: Value)
    requires HasType(t, v)
    ensures t.Unit? ==> BodyLen(t, v) == 0
  {
  }

  lemma {:induction false} SumsMonotone(ts: seq<Type>, vs: seq<Value>, i: nat, k: nat)
    requires HasTypes(ts, vs) && i <= k <= |ts|
    ensures SlotSum(ts, i) <= SlotSum(ts, k) && DynamicSum(ts, vs, i) <= DynamicSum(ts, vs, k)
  {
    if i < k {
      SumsMonotone(ts, vs, i, k - 1);
    }
  }

  /** Writing component `i`'s head and tail turns the buffer after `i` components into the one after `i + 1`. */
  lemma WrittenStep(s: seq<byte>, pos: nat, ts: seq<Type>, vs: seq<Value>, i: nat)
    requires HasTypes(ts, vs) && i < |ts|
    requires forall j | 0 <= j < |ts| :: WellFormed(ts[j])
    requires pos + SlotSum(ts, |ts|) + DynamicSum(ts, vs, |ts|) <= |s|
    ensures |Heads(ts, vs, i)| + |Head(ts, vs, i)| == |Heads(ts, vs, i + 1)| <= SlotSum(ts, |ts|)
    ensures |Tails(ts, vs, i)| + |Tail(ts, vs, i)| == |Tails(ts, vs, i + 1)| <= DynamicSum(ts, vs, |ts|)
    ensures var heads := SlotSum(ts, |ts|);
            Splice(Splice(Written(s, pos, heads, ts, vs, i), pos + |Heads(ts, vs, i)|, Head(ts, vs, i)),
                   pos + heads + |Tails(ts, vs, i)|, Tail(ts, vs, i))
            == Written(s, pos, heads, ts, vs, i + 1)
  {
    hide *;
    PartsStep(ts, vs, i);
    FieldFits(ts, vs, i);
    WrittenIs(s, pos, SlotSum(ts, |ts|), ts, vs, i);
    WrittenIs(s, pos, SlotSum(ts, |ts|), ts, vs, i + 1);
    SpliceStep(s, pos, SlotSum(ts, |ts|), Heads(ts, vs, i), Head(ts, vs, i), Tails(ts, vs, i), Tail(ts, vs, i));
  }

  lemma WrittenIs(s: seq<byte>, pos: nat, heads: nat, ts: seq<Type>, vs: seq<Value>, k: nat)
    requires HasTypes(ts, vs) && k <= |ts|
    requires |Heads(ts, vs, k)| <= heads && pos + heads + |Tails(ts, vs, k)| <= |s|
    ensures Written(s, pos, heads, ts, vs, k)
         == Splice(Splice(s, pos, Heads(ts, vs, k)), pos + heads, Tails(ts, vs, k))
  {
    hide HasTypes, Heads, Tails, Splice;
  }

  lemma PartsStep(ts: seq<Type>, vs: seq<Value>, i: nat)
    requires HasTypes(ts, vs) && i < |ts|
    ensures Heads(ts, vs, i + 1) == Heads(ts, vs, i) + Head(ts, vs, i)
    ensures Tails(ts, vs, i + 1) == Tails(ts, vs, i) + Tail(ts, vs, i)
  {
    hide HasTypes;
  }

  lemma SpliceStep(s: seq<byte>, pos: nat, heads: nat, hs: seq<Cell>, h: seq<Cell>, tails: seq<Cell>, t: seq<Cell>)
    requires |hs| + |h| <= heads && pos + heads + |tails| + |t| <= |s|
    ensures Splice(Splice(Splice(Splice(s, pos, hs), pos + heads, tails), pos + |hs|, h), pos + heads + |tails|, t)
         == Splice(Splice(s, pos, hs + h), pos + heads, tails + t)
  {
    hide Splice;
    SpliceBefore(s, pos, hs, h, pos + heads, tails);
    SpliceTwice(Splice(s, pos, hs + h), pos + heads, tails, t);
  }

  /** What the element loops below rely on; `Copies(e, n)` sees the elements as fields. */
  lemma ElementsFit(e: Type, vs: seq<Value>)
    requires WellFormed(e) && HasTypes(Copies(e, |vs|), vs)
    ensures forall i | 0 <= i < |vs| :: HasType(e, vs[i])
    ensures var ts := Copies(e, |vs|);
            && SlotSum(ts, |vs|) == |vs| * SlotSize(e) == |Heads(ts, vs, |vs|)|
            && |EncFields(ts, vs)| == SlotSum(ts, |vs|) + DynamicSum(ts, vs, |vs|)
            && (!IsDynamic(e) ==> DynamicSum(ts, vs, |vs|) == 0)
  {
    hide HasType, WellFormed, BodyLen, Enc, Heads, Tails, SlotSum, DynamicSum, BodySum, HeadLen, SlotSize, HeadSize,
      IsDynamic;
    assert SlotSize(e) * |vs| == |vs| * SlotSize(e);
    ArraySums(e, vs, |vs|);
    FieldsLength(Copies(e, |vs|), vs, |vs|);
  }

  /** The loop over dynamic elements: of `[T; N]` at `pos`, and of `Vec<T>` after its length word. */
  method EncodeDynamicElements(e: Type, vs: seq<Value>, buf: array<byte>, pos: nat)
    requires WellFormed(e) && IsDynamic(e) && HasTypes(Copies(e, |vs|), vs)
    requires pos + |EncFields(Copies(e, |vs|), vs)| <= buf.Length < USIZE_LIMIT
    modifies buf
    ensures buf[..] == Splice(old(buf[..]), pos, EncFields(Copies(e, |vs|), vs))
    decreases vs, 2
  {
    hide HasType, WellFormed, BodyLen, Enc, SlotSize, EncFields, Splice;
    ghost var s := buf[..];
    ghost var ts := Copies(e, |vs|);
    ElementsFit(e, vs);
    WrittenNone(s, pos, SlotSum(ts, |vs|), ts, vs);
    var tailOffset := |vs| * SlotSize(e);
    for i := 0 to |vs|
      invariant tailOffset == SlotSum(ts, |vs|) + |Tails(ts, vs, i)| <= SlotSum(ts, |vs|) + DynamicSum(ts, vs, |vs|)
      invariant SlotSum(ts, i) == |Heads(ts, vs, i)| <= SlotSum(ts, |vs|)
      invariant buf[..] == Written(s, pos, SlotSum(ts, |vs|), ts, vs, i)
    {
      tailOffset := EncodeElement(e, vs, i, buf, pos, tailOffset, s);
    }
    WrittenAll(s, pos, ts, vs);
  }

  method EncodeElement(e: Type, vs: seq<Value>, i: nat, buf: array<byte>, pos: nat, tailOffset: nat,
      ghost s: seq<byte>) returns (next: nat)
    requires WellFormed(e) && HasTypes(Copies(e, |vs|), vs) && i < |vs|
    requires var ts := Copies(e, |vs|);
             && pos + SlotSum(ts, |vs|) + DynamicSum(ts, vs, |vs|) <= buf.Length < USIZE_LIMIT && |s| == buf.Length
             && SlotSum(ts, i) == |Heads(ts, vs, i)| <= SlotSum(ts, |vs|)
             && tailOffset == SlotSum(ts, |vs|) + |Tails(ts, vs, i)| <= SlotSum(ts, |vs|) + DynamicSum(ts, vs, |vs|)
             && buf[..] == Written(s, pos, SlotSum(ts, |vs|), ts, vs, i)
    modifies buf
    ensures var ts := Copies(e, |vs|);
            && SlotSum(ts, i + 1) == |Heads(ts, vs, i + 1)| <= SlotSum(ts, |vs|)
            && next == SlotSum(ts, |vs|) + |Tails(ts, vs, i + 1)| <= SlotSum(ts, |vs|) + DynamicSum(ts, vs, |vs|)
            && buf[..] == Written(s, pos, SlotSum(ts, |vs|), ts, vs, i + 1)
    decreases vs, 1
  {
    hide *;
    var ho := i * SlotSize(e);
    CopiesSlots(e, |vs|, i);
    next := EncodeComponent(Copies(e, |vs|), vs, i, buf, pos, ho, tailOffset, s);
  }

  lemma WrittenNone(s: seq<byte>, pos: nat, heads: nat, ts: seq<Type>, vs: seq<Value>)
    requires HasTypes(ts, vs) && pos + heads <= |s|
    ensures Written(s, pos, heads, ts, vs, 0) == s
  {
  }

  lemma WrittenAll(s: seq<byte>, pos: nat, ts: seq<Type>, vs: seq<Value>)
    requires HasTypes(ts, vs) && |Heads(ts, vs, |ts|)| == SlotSum(ts, |ts|)
    requires pos + |EncFields(ts, vs)| <= |s|
    ensures Written(s, pos, SlotSum(ts, |ts|), ts, vs, |ts|) == Splice(s, pos, EncFields(ts, vs))
  {
    SpliceTwice(s, pos, Heads(ts, vs, |ts|), Tails(ts, vs, |ts|));
  }

  /** The loop of `[T; N]` over static elements, a slot apart. */
  method EncodeStaticElements(e: Type, vs: seq<Value>, buf: array<byte>, pos: nat)
    requires WellFormed(e) && !IsDynamic(e) && HasTypes(Copies(e, |vs|), vs)
    requires pos + |EncFields(Copies(e, |vs|), vs)| <= buf.Length < USIZE_LIMIT
    modifies buf
    ensures buf[..] == Splice(old(buf[..]), pos, EncFields(Copies(e, |vs|), vs))
    decreases vs, 2
  {
    hide HasType, WellFormed, BodyLen, Enc, SlotSize, EncFields, Splice, Tails, DynamicSum, HeadLen, Head;
    ghost var s := buf[..];
    ghost var ts := Copies(e, |vs|);
    ElementsFit(e, vs);
    SpliceNothing(s, pos);
    var offset := 0;
    for i := 0 to |vs|
      invariant offset == SlotSum(ts, i) == |Heads(ts, vs, i)| <= SlotSum(ts, |vs|)
      invariant buf[..] == Splice(s, pos, Heads(ts, vs, i))
    {
      FieldFits(ts, vs, i);
      ghost var before := buf[..];
      EncodeBody(e, vs[i], buf, pos + offset);
      UnitHead(ts, vs, i, before, pos + offset);
      SpliceTwice(s, pos, Heads(ts, vs, i), Head(ts, vs, i));
      offset := offset + SlotSize(e);
    }
    OnlyHeads(ts, vs);
  }

  /** The loop of `Vec<T>` over static elements, a body apart. */
  method EncodeVecElements(e: Type, vs: seq<Value>, buf: array<byte>, pos: nat)
    requires WellFormed(e) && !IsDynamic(e) && HasTypes(Copies(e, |vs|), vs)
    requires pos + |EncItems(e, vs)| <= buf.Length < USIZE_LIMIT
    modifies buf
    ensures buf[..] == Splice(old(buf[..]), pos, EncItems(e, vs))
    decreases vs, 2
  {
    hide HasType, WellFormed, BodyLen, Enc, SlotSize, EncFields, Splice, Tails, DynamicSum, HeadLen, Head;
    ghost var s := buf[..];
    ghost var ts := Copies(e, |vs|);
    ElementsFit(e, vs);
    SpliceNothing(s, pos);
    var offset := 0;
    for i := 0 to |vs|
      invariant SlotSum(ts, i) == |Heads(ts, vs, i)| <= SlotSum(ts, |vs|)
      invariant offset == if e.Unit? then 0 else SlotSum(ts, i)
      invariant buf[..] == if e.Unit? then s else Splice(s, pos, Heads(ts, vs, i))
    {
      FieldFits(ts, vs, i);
      ghost var before := buf[..];
      EncodeBody(e, vs[i], buf, pos + offset);
      UnitEncodesNothing(vs[i], before, pos + offset);
      if !e.Unit? {
        UnitHead(ts, vs, i, before, pos + offset);
        SpliceTwice(s, pos, Heads(ts, vs, i), Head(ts, vs, i));
      }
      offset := offset + BodyLen(e, vs[i]);
    }
    OnlyHeads(ts, vs);
  }

  lemma UnitEncodesNothing(v: Value, s: seq<byte>, pos: nat)
    requires pos <= |s|
    ensures HasType(Unit, v) ==> Splice(s, pos, Enc(Unit, v)) == s
  {
    SpliceNothing(s, pos);
  }

  lemma OnlyHeads(ts: seq<Type>, vs: seq<Value>)
    requires HasTypes(ts, vs) && |EncFields(ts, vs)| == |Heads(ts, vs, |ts|)|
    ensures EncFields(ts, vs) == Heads(ts, vs, |ts|)
  {
    assert |Tails(ts, vs, |ts|)| == 0;
  }

  /** `encode_body_to`: of `buf[pos..pos + encode_body_len)` the bytes of the encoding are written, and no others. */
  method EncodeBody(t: Type, v: Value, buf: array<byte>, pos: nat)
    requires HasType(t, v) && WellFormed(t)
    requires pos + BodyLen(t, v) <= buf.Length < USIZE_LIMIT
    modifies buf
    ensures |Enc(t, v)| == BodyLen(t, v)
    ensures buf[..] == Splice(old(buf[..]), pos, Enc(t, v))
    decreases v, 3
  {
    if IsLeaf(t) {
      EncodeLeaf(t, v, buf, pos);
    } else if t.Unit? {
      SpliceNothing(buf[..], pos);
    } else if t.DynBytes? || t.Str? {
      EncodeRaw(v.bytes, buf, pos);
    } else if t.Tuple? {
      EncodeTuple(t.fields, v.items, buf, pos);
    } else if t.FixedArray? {
      EncodeArray(t, v, buf, pos);
    } else {
      EncodeVec(t, v, buf, pos);
    }
  }

  lemma ArrayParts(t: Type, v: Value)
    requires (t.FixedArray? || t.Vec?) && HasType(t, v) && WellFormed(t)
    ensures HasTypes(Copies(t.elem, |v.items|), v.items)
    ensures t.Vec? ==>
              |v.items| < USIZE_LIMIT && Enc(t, v) == Solid(Word(|v.items|)) + EncItems(t.elem, v.items)
    ensures t.FixedArray? ==> Enc(t, v) == EncFields(Copies(t.elem, |v.items|), v.items)
  {
    var e, vs := t.elem, v.items;
    assert forall i | 0 <= i < |vs| :: HasType(Copies(e, |vs|)[i], vs[i]);
  }

  /** `[T; N]`. */
  method EncodeArray(t: Type, v: Value, buf: array<byte>, pos: nat)
    requires t.FixedArray? && HasType(t, v) && WellFormed(t)
    requires pos + BodyLen(t, v) <= buf.Length < USIZE_LIMIT
    modifies buf
    ensures |Enc(t, v)| == BodyLen(t, v)
    ensures buf[..] == Splice(old(buf[..]), pos, Enc(t, v))
    decreases v, 2
  {
    hide HasTypes, EncFields, BodyLen, Enc, Splice;
    ArrayParts(t, v);
    EncLength(t, v);
    if IsDynamic(t.elem) {
      EncodeDynamicElements(t.elem, v.items, buf, pos);
    } else {
      EncodeStaticElements(t.elem, v.items, buf, pos);
    }
  }

  /** `Vec<T>`: its length, then its elements 32 bytes further on. */
  method EncodeVec(t: Type, v: Value, buf: array<byte>, pos: nat)
    requires t.Vec? && HasType(t, v) && WellFormed(t)
    requires pos + BodyLen(t, v) <= buf.Length < USIZE_LIMIT
    modifies buf
    ensures |Enc(t, v)| == BodyLen(t, v)
    ensures buf[..] == Splice(old(buf[..]), pos, Enc(t, v))
    decreases v, 2
  {
    hide HasTypes, EncFields, BodyLen, Enc, Splice;
    ghost var s := buf[..];
    ArrayParts(t, v);
    EncLength(t, v);
    WriteOffset(buf, pos, |v.items|);
    if IsDynamic(t.elem) {
      EncodeDynamicElements(t.elem, v.items, buf, pos + 32);
    } else {
      EncodeVecElements(t.elem, v.items, buf, pos + 32);
    }
    SpliceTwice(s, pos, Solid(Word(|v.items|)), EncItems(t.elem, v.items));
  }

  /** `encode_to`, into the slice of `buf` that starts at `pos`. */
  method EncodeTo(t: Type, v: Value, buf: array<byte>, pos: nat)
    requires HasType(t, v) && WellFormed(t)
    requires pos + EncodeLen(t, v) <= buf.Length < USIZE_LIMIT
    modifies buf
    ensures |EncTop(t, v)| == EncodeLen(t, v)
    ensures buf[..] == Splice(old(buf[..]), pos, EncTop(t, v))
  {
    hide HasType, WellFormed, BodyLen, Enc, IsDynamic, Splice;
    ghost var s := buf[..];
    if t.Tuple? || !IsDynamic(t) {
      EncodeBody(t, v, buf, pos);
    } else {
      WriteOffset(buf, pos, 32);
      EncodeBody(t, v, buf, pos + 32);
      SpliceTwice(s, pos, Solid(Word(32)), Enc(t, v));
    }
  }

  /** `encode_len`. */
  function EncodeLen(t: Type, v: Value): nat
    requires HasType(t, v)
  {
    if t.Tuple? || !IsDynamic(t) then BodyLen(t, v) else 32 + BodyLen(t, v)
  }
}
