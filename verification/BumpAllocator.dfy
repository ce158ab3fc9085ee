/**
 * The bump allocator: an offset into a heap of fixed size that only ever grows.
 */
module BumpAllocator {
  import opened Wrappers
  import opened Bytes
  import opened Bits

  /** `core::alloc::Layout`. */
  datatype Layout = Layout(size: nat, align: nat)

  function RoundUp(n: nat, align: nat): nat
    requires align > 0
  {
    (n + align - 1) / align * align
  }

  /** What `Layout` guarantees: a power of two for alignment, and a rounded-up size within `isize`. */
  ghost predicate Legal(l: Layout) {
    && l.align > 0 && (exists k: nat :: k < 64 && l.align == Pow2(k))
    && RoundUp(l.size, l.align) <= ISIZE_MAX
  }

  datatype Block = Block(start: nat, size: nat, align: nat)

  predicate Apart(a: Block, b: Block) {
    a.start + a.size <= b.start || b.start + b.size <= a.start
  }

  /** Pairwise disjoint blocks, each at a multiple of its alignment, all below `end`. */
  predicate Safe(blocks: seq<Block>, end: nat) {
    && (forall i | 0 <= i < |blocks| :: blocks[i].align > 0 && blocks[i].start % blocks[i].align == 0)
    && (forall i | 0 <= i < |blocks| :: blocks[i].start + blocks[i].size <= end)
    && (forall i, j | 0 <= i < j < |blocks| :: Apart(blocks[i], blocks[j]))
  }

  /** `!x` on a 64-bit word. */
  function Not64(x: nat): nat
    requires x < USIZE_LIMIT
  {
    USIZE_LIMIT - 1 - x
  }

  lemma Pow2Of64()
    ensures Pow2(64) == USIZE_LIMIT
  {
    assert Pow2(4) == 16;
    hide Pow2;
    Square(4, 16);
    Square(8, 0x100);
    Square(16, 0x1_0000);
    Square(32, 0x1_0000_0000);
  }

  lemma {:induction false} Pow2Monotone(j: nat, k: nat)
    requires j <= k
    ensures Pow2(j) <= Pow2(k)
  {
    if j < k {
      Pow2Monotone(j, k - 1);
    }
  }

  lemma MaskClearsLowBits(x: nat, k: nat)
    requires k <= 64 && x < USIZE_LIMIT
    ensures Pow2(k) <= USIZE_LIMIT && And(x, Not64(Pow2(k) - 1)) == x / Pow2(k) * Pow2(k)
  {
    Pow2Of64();
    Pow2Monotone(k, 64);
    AndHighMask(x, 64, k);
  }

  /** For every legal layout and every offset in a heap, the mask computes `RoundUp` and nothing wraps. */
  lemma MaskRoundsUp(current: nat, l: Layout)
    requires Legal(l) && current <= ISIZE_MAX
    ensures l.align > 0 && current + l.align - 1 < USIZE_LIMIT
    ensures And(WrappingAdd(current, l.align - 1), Not64(l.align - 1)) == RoundUp(current, l.align)
  {
    var k: nat :| k < 64 && l.align == Pow2(k);
    Pow2Monotone(k, 63);
    Pow2Of64();
    Halve(64);
    hide Pow2, And, RoundUp, WrappingAdd, Not64;
    NoWrap(current, l.align - 1);
    MaskClearsLowBits(current + l.align - 1, k);
    RoundUpIs(current, l.align);
  }

  lemma NoWrap(a: nat, b: nat)
    requires a + b < USIZE_LIMIT
    ensures WrappingAdd(a, b) == a + b
  {
  }

  lemma RoundUpIs(n: nat, align: nat)
    requires align > 0
    ensures RoundUp(n, align) == (n + align - 1) / align * align
  {
  }

  /** `RoundUp` is the least multiple of `align` that is not below `n`. */
  lemma RoundUpIsLeast(n: nat, align: nat, m: nat)
    requires align > 0
    ensures n <= RoundUp(n, align) < n + align && RoundUp(n, align) % align == 0
    ensures m >= n && m % align == 0 ==> RoundUp(n, align) <= m
  {
    var x := n + align - 1;
    var q := x / align;
    assert x == q * align + x % align;
    DivisionIsUnique(q * align, align, q, 0);
    if m >= n && m % align == 0 {
      var p := m / align;
      assert m == p * align;
      if p < q {
        assert q * align - p * align == (q - p) * align;
        AtLeastOnce(q - p, align);
      }
    }
  }

  class BumpAllocator {
    const heap: array<byte>
    var offset: nat
    ghost var blocks: seq<Block>
    /** The requests that were granted, in order. */
    ghost var granted: seq<Layout>

    /** The blocks are those of one run from an empty heap; free memory is zero. */
    ghost predicate Valid()
      reads this, heap
    {
      && offset <= heap.Length <= ISIZE_MAX
      && AllLegal(granted) && |blocks| == |granted|
      && blocks == Run(0, heap.Length, granted) && offset == End(0, granted)
      && Safe(blocks, offset)
      && forall i | offset <= i < heap.Length :: heap[i] == 0
    }

    constructor (heapSize: nat)
      requires heapSize <= ISIZE_MAX
      ensures Valid() && heap.Length == heapSize && blocks == [] && granted == [] && fresh(heap)
    {
      heap := new byte[heapSize](_ => 0);
      offset := 0;
      blocks, granted := [], [];
    }

    /**
     * `alloc`; `None` is the panic "exhausted heap limit". It is taken exactly when the block, placed at
     * the next multiple of its alignment, would not fit.
     */
    method Alloc(l: Layout) returns (p: Option<nat>)
      requires Valid() && Legal(l)
      modifies this
      ensures Valid() && l.align > 0
      ensures p.None? <==> RoundUp(old(offset), l.align) + l.size > heap.Length
      ensures p.None? ==> offset == old(offset) && blocks == old(blocks) && granted == old(granted)
      ensures p.Some? ==> p.value == RoundUp(old(offset), l.align) && offset == p.value + l.size
      ensures p.Some? ==> blocks == old(blocks) + [Block(p.value, l.size, l.align)] && granted == old(granted) + [l]
      ensures p.Some? ==> forall i | p.value <= i < p.value + l.size :: heap[i] == 0
    {
      GrantOne(heap.Length, granted, l);
      AddBlock(blocks, offset, RoundUp(offset, l.align), l);
      hide Run, End, Legal, Safe, AllLegal;
      MaskRoundsUp(offset, l);
      RoundUpIsLeast(offset, l.align, offset);
      var aligned := And(WrappingAdd(offset, l.align - 1), Not64(l.align - 1));
      var next := CheckedAdd(aligned, l.size);
      if next.None? || next.value > heap.Length {
        return None;
      }
      offset := next.value;
      blocks, granted := blocks + [Block(aligned, l.size, l.align)], granted + [l];
      return Some(aligned);
    }

    /** `alloc_zeroed` relies on `alloc` handing out untouched memory only. */
    method AllocZeroed(l: Layout) returns (p: Option<nat>)
      requires Valid() && Legal(l)
      modifies this
      ensures Valid() && l.align > 0
      ensures p.None? <==> RoundUp(old(offset), l.align) + l.size > heap.Length
      ensures p.None? ==> offset == old(offset) && blocks == old(blocks) && granted == old(granted)
      ensures p.Some? ==> p.value == RoundUp(old(offset), l.align) && offset == p.value + l.size
      ensures p.Some? ==> forall i | p.value <= i < p.value + l.size :: heap[i] == 0
      ensures p.Some? ==> blocks == old(blocks) + [Block(p.value, l.size, l.align)] && granted == old(granted) + [l]
    {
      p := Alloc(l);
    }

    /** `dealloc` gives nothing back: no later block overlaps the freed one. */
    method Dealloc(p: nat, l: Layout)
      requires Valid()
      ensures Valid() && offset == old(offset) && blocks == old(blocks) && heap[..] == old(heap[..])
    {
    }

    /** A client writes a byte of its own block: no other block changes, and free memory stays zero. */
    method ClientWrite(ghost b: nat, at: nat, value: byte)
      requires Valid() && b < |blocks| && blocks[b].start <= at < blocks[b].start + blocks[b].size
      modifies heap
      ensures Valid() && heap[at] == value
      ensures forall c, i | 0 <= c < |blocks| && c != b && blocks[c].start <= i < blocks[c].start + blocks[c].size ::
                heap[i] == old(heap[i])
    {
      heap[at] := value;
      forall c | 0 <= c < |blocks| && c != b ensures Apart(blocks[b], blocks[c]) {
        assert if b < c then Apart(blocks[b], blocks[c]) else Apart(blocks[c], blocks[b]);
      }
    }
  }

  // ---------------------------------------------------------------------------
  // Whole runs
  // ---------------------------------------------------------------------------

  ghost predicate AllLegal(requests: seq<Layout>) {
    forall i | 0 <= i < |requests| :: Legal(requests[i])
  }

  /** The blocks handed out for a sequence of requests, until one exhausts the heap. */
  ghost function Run(offset: nat, heapSize: nat, requests: seq<Layout>): (blocks: seq<Block>)
    requires AllLegal(requests)
    ensures |blocks| <= |requests|
    decreases |requests|
  {
    if requests == [] then []
    else
      var l := requests[0];
      assert Legal(l);
      var start := RoundUp(offset, l.align);
      if start + l.size > heapSize then []
      else [Block(start, l.size, l.align)] + Run(start + l.size, heapSize, requests[1..])
  }

  lemma RunOfOne(offset: nat, heapSize: nat, l: Layout)
    requires Legal(l)
    ensures l.align > 0
    ensures Run(offset, heapSize, [l]) ==
            var start := RoundUp(offset, l.align);
            if start + l.size > heapSize then [] else [Block(start, l.size, l.align)]
    ensures End(offset, [l]) == RoundUp(offset, l.align) + l.size
  {
    hide RoundUp;
    assert [l][1..] == [] && Run(RoundUp(offset, l.align) + l.size, heapSize, []) == [];
    assert End(RoundUp(offset, l.align) + l.size, []) == RoundUp(offset, l.align) + l.size;
  }

  /** Where the offset stands when all the requests have been granted. */
  ghost function End(offset: nat, requests: seq<Layout>): nat
    requires AllLegal(requests)
    decreases |requests|
  {
    if requests == [] then offset
    else
      assert Legal(requests[0]);
      End(RoundUp(offset, requests[0].align) + requests[0].size, requests[1..])
  }

  /** Runs compose: the second goes on where the first ends, if all of the first was granted. */
  lemma {:induction false} RunConcat(offset: nat, heapSize: nat, a: seq<Layout>, b: seq<Layout>)
    requires AllLegal(a) && AllLegal(b)
    ensures AllLegal(a + b)
    ensures Run(offset, heapSize, a + b) ==
            if |Run(offset, heapSize, a)| == |a|
            then Run(offset, heapSize, a) + Run(End(offset, a), heapSize, b)
            else Run(offset, heapSize, a)
    ensures End(offset, a + b) == End(End(offset, a), b)
    decreases |a|
  {
    if a == [] {
      assert a + b == b;
    } else {
      var l := a[0];
      LegalParts(a, b);
      hide AllLegal, Legal, RoundUp;
      RunStep(offset, heapSize, a);
      RunStep(offset, heapSize, a + b);
      hide Run, End;
      var start := RoundUp(offset, l.align);
      var end := start + l.size;
      RunConcat(end, heapSize, a[1..], b);
      Regroup([Block(start, l.size, l.align)], Run(end, heapSize, a[1..]), Run(End(end, a[1..]), heapSize, b));
    }
  }

  lemma LegalParts(a: seq<Layout>, b: seq<Layout>)
    requires a != [] && AllLegal(a) && AllLegal(b)
    ensures AllLegal(a + b) && AllLegal(a[1..])
    ensures (a + b)[0] == a[0] && (a + b)[1..] == a[1..] + b
  {
    hide Legal;
  }

  lemma Regroup(a: seq<Block>, b: seq<Block>, c: seq<Block>)
    ensures a + (b + c) == a + b + c
  {
  }

  lemma RunStep(offset: nat, heapSize: nat, requests: seq<Layout>)
    requires AllLegal(requests) && requests != []
    ensures var l := requests[0];
            && l.align > 0
            && var start := RoundUp(offset, l.align);
               && End(offset, requests) == End(start + l.size, requests[1..])
               && Run(offset, heapSize, requests) ==
                  if start + l.size > heapSize then []
                  else [Block(start, l.size, l.align)] + Run(start + l.size, heapSize, requests[1..])
  {
    assert Legal(requests[0]);
    hide RoundUp, Legal;
  }

  /** One more request granted behind those already granted. */
  lemma GrantOne(heapSize: nat, granted: seq<Layout>, l: Layout)
    requires AllLegal(granted) && Legal(l) && |Run(0, heapSize, granted)| == |granted|
    ensures AllLegal(granted + [l]) && l.align > 0
    ensures var start := RoundUp(End(0, granted), l.align);
            && End(0, granted + [l]) == start + l.size
            && (start + l.size <= heapSize ==>
                  Run(0, heapSize, granted + [l]) == Run(0, heapSize, granted) + [Block(start, l.size, l.align)])
  {
    RunOfOne(End(0, granted), heapSize, l);
    RunConcat(0, heapSize, granted, [l]);
    hide Run, End, Legal, RoundUp;
  }

  lemma AddBlock(blocks: seq<Block>, offset: nat, start: nat, l: Layout)
    requires Safe(blocks, offset) && l.align > 0 && start == RoundUp(offset, l.align)
    ensures offset <= start && Safe(blocks + [Block(start, l.size, l.align)], start + l.size)
  {
    RoundUpIsLeast(offset, l.align, offset);
    hide RoundUp;
  }

  /** Over any run the blocks are disjoint, aligned, inside the heap, and in address order. */
  lemma {:induction false} RunIsSafe(offset: nat, heapSize: nat, requests: seq<Layout>)
    requires offset <= heapSize && AllLegal(requests)
    ensures Safe(Run(offset, heapSize, requests), heapSize)
    ensures forall i | 0 <= i < |Run(offset, heapSize, requests)| :: Run(offset, heapSize, requests)[i].start >= offset
    decreases |requests|
  {
    if requests != [] {
      var l := requests[0];
      hide Legal;
      RoundUpIsLeast(offset, l.align, offset);
      hide RoundUp, Safe;
      var start := RoundUp(offset, l.align);
      if start + l.size <= heapSize {
        RunIsSafe(start + l.size, heapSize, requests[1..]);
        PrependSafe(Block(start, l.size, l.align), Run(start + l.size, heapSize, requests[1..]), heapSize);
      } else {
        NothingIsSafe(heapSize);
      }
    } else {
      NothingIsSafe(heapSize);
    }
  }

  lemma NothingIsSafe(end: nat)
    ensures Safe([], end)
  {
  }

  lemma PrependSafe(b: Block, rest: seq<Block>, end: nat)
    requires b.align > 0 && b.start % b.align == 0 && b.start + b.size <= end && Safe(rest, end)
    requires forall i | 0 <= i < |rest| :: rest[i].start >= b.start + b.size
    ensures Safe([b] + rest, end)
  {
  }
}
