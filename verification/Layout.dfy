/**
 * The storage-layout walker: `layout_step` folded over a field list, and the nesting of structs whose
 * slot counts come from their own walks.
 */
module Layout {
  /**
   * `slot` and `offset` place the current field; `nextSlot` and `nextSpace` say where the next may start.
   * Within a slot fields fill the bytes from the high end down, so `offset` is also the space left.
   */
  datatype LayoutStep = LayoutStep(slot: nat, offset: nat, nextSlot: nat, nextSpace: nat)

  const FIRST := LayoutStep(0, 0, 0, 32)

  /** A field type's `PACKED_BYTES` and `SLOTS`. */
  datatype Field = Field(bytes: nat, slots: nat)

  /** What the storage traits demand: at most a slot's worth of packed bytes, all 32 for a composite. */
  predicate ValidField(f: Field) {
    1 <= f.bytes <= 32 && (f.slots > 1 ==> f.bytes == 32)
  }

  /** `layout_step`. */
  function Step(prev: LayoutStep, f: Field): LayoutStep
    requires ValidField(f)
  {
    var (slot, space) := if prev.nextSpace < f.bytes then (prev.nextSlot + 1, 32) else (prev.nextSlot, prev.nextSpace);
    var offset := space - f.bytes;
    var (nextSlot, nextSpace) := if f.slots > 1 then (slot + f.slots - 1, 0) else (slot, offset);
    LayoutStep(slot, offset, nextSlot, nextSpace)
  }

  /** The walker's state after the first `k` fields. */
  function Walk(fields: seq<Field>, k: nat): LayoutStep
    requires k <= |fields| && forall i | 0 <= i < |fields| :: ValidField(fields[i])
  {
    if k == 0 then FIRST else Step(Walk(fields, k - 1), fields[k - 1])
  }

  /** `STORAGE_SLOTS` / `SLOTS` of a struct: the walk's last slot plus one. */
  function SlotCount(fields: seq<Field>): (n: nat)
    requires forall i | 0 <= i < |fields| :: ValidField(fields[i])
  {
    Walk(fields, |fields|).nextSlot + 1
  }

  // ---------------------------------------------------------------------------
  // Placements
  // ---------------------------------------------------------------------------

  /** Any assignment of a slot and an offset to a field. */
  datatype Place = Place(slot: nat, offset: nat)

  function LastSlot(f: Field, p: Place): nat {
    if f.slots > 1 then p.slot + f.slots - 1 else p.slot
  }

  /** Space the field leaves in its last slot. */
  function SpaceLeft(f: Field, p: Place): nat {
    if f.slots > 1 then 0 else p.offset
  }

  /** The field fits without straddling a slot boundary; a composite starts and ends at boundaries. */
  predicate Fits(f: Field, p: Place) {
    p.offset + f.bytes <= 32
  }

  /** A half-open range of storage bytes, counting 32 to the slot. */
  datatype Range = Range(lo: nat, hi: nat)

  /** The bytes a field occupies at `p`. */
  function Bytes(f: Field, p: Place): Range {
    if f.slots > 1 then Range(32 * p.slot, 32 * (p.slot + f.slots))
    else Range(32 * p.slot + p.offset, 32 * p.slot + p.offset + f.bytes)
  }

  predicate Disjoint(a: Range, b: Range) {
    a.hi <= b.lo || b.hi <= a.lo
  }

  /**
   * A placement that keeps the fields in slot order, lets none straddle a slot, and gives each its own
   * bytes. Within a slot the fields may lie in any order and with gaps.
   */
  ghost predicate ValidPlacement(fields: seq<Field>, places: seq<Place>) {
    && |places| == |fields|
    && (forall i | 0 <= i < |fields| :: Fits(fields[i], places[i]))
    && (forall i, j | 0 <= i < j < |fields| :: LastSlot(fields[i], places[i]) <= places[j].slot)
    && (forall i, j | 0 <= i < j < |fields| :: Disjoint(Bytes(fields[i], places[i]), Bytes(fields[j], places[j])))
  }

  /** Where the walker puts the fields. */
  function Greedy(fields: seq<Field>): (places: seq<Place>)
    requires forall i | 0 <= i < |fields| :: ValidField(fields[i])
    ensures |places| == |fields|
  {
    seq(|fields|, i requires 0 <= i < |fields| => Place(Walk(fields, i + 1).slot, Walk(fields, i + 1).offset))
  }

  lemma {:induction false} WalkState(fields: seq<Field>, k: nat)
    requires 0 < k <= |fields| && forall i | 0 <= i < |fields| :: ValidField(fields[i])
    ensures Walk(fields, k).nextSlot == LastSlot(fields[k - 1], Greedy(fields)[k - 1])
    ensures Walk(fields, k).nextSpace == SpaceLeft(fields[k - 1], Greedy(fields)[k - 1])
    ensures Walk(fields, k).nextSpace <= 32 && Fits(fields[k - 1], Greedy(fields)[k - 1])
  {
    if k > 1 {
      WalkState(fields, k - 1);
    }
  }

  /** `q` comes after `p`: in a later slot, or in the space `p` left in its last slot. */
  predicate After(f: Field, p: Place, g: Field, q: Place) {
    q.slot > LastSlot(f, p) || (q.slot == LastSlot(f, p) && q.offset + g.bytes <= SpaceLeft(f, p))
  }

  /** Each field of the walk comes after all the fields before it. */
  lemma {:induction false} GreedyDescends(fields: seq<Field>, i: nat, j: nat)
    requires i < j < |fields| && forall i | 0 <= i < |fields| :: ValidField(fields[i])
    ensures After(fields[i], Greedy(fields)[i], fields[j], Greedy(fields)[j])
    decreases j
  {
    WalkState(fields, j);
    if i < j - 1 {
      GreedyDescends(fields, i, j - 1);
    }
  }

  /** The walk is a valid placement, with the fields of a slot packed from its high end down. */
  lemma GreedyIsValid(fields: seq<Field>)
    requires forall i | 0 <= i < |fields| :: ValidField(fields[i])
    ensures ValidPlacement(fields, Greedy(fields))
    ensures forall i | 0 < i < |fields| :: After(fields[i - 1], Greedy(fields)[i - 1], fields[i], Greedy(fields)[i])
  {
    var places := Greedy(fields);
    forall i | 0 <= i < |fields| ensures Fits(fields[i], places[i]) {
      WalkState(fields, i + 1);
    }
    hide Walk;
    forall i: nat, j: nat | i < j < |fields|
      ensures After(fields[i], places[i], fields[j], places[j])
      ensures LastSlot(fields[i], places[i]) <= places[j].slot
      ensures Disjoint(Bytes(fields[i], places[i]), Bytes(fields[j], places[j]))
    {
      GreedyDescends(fields, i, j);
    }
  }

  // ---------------------------------------------------------------------------
  // Optimality
  // ---------------------------------------------------------------------------

  predicate Holds(r: Range, x: int) {
    r.lo <= x < r.hi
  }

  function BytesIn(r: Range): set<int> {
    set x | r.lo <= x < r.hi && Holds(r, x)
  }

  function SlotRange(slot: nat): Range {
    Range(32 * slot, 32 * slot + 32)
  }

  lemma {:induction false} RangeSize(r: Range)
    requires r.lo <= r.hi
    ensures |BytesIn(r)| == r.hi - r.lo
    decreases r.hi - r.lo
  {
    if r.lo < r.hi {
      LastByte(r);
      hide BytesIn;
      RangeSize(Range(r.lo, r.hi - 1));
    }
  }

  lemma LastByte(r: Range)
    requires r.lo < r.hi
    ensures BytesIn(r) == BytesIn(Range(r.lo, r.hi - 1)) + {r.hi - 1}
    ensures r.hi - 1 !in BytesIn(Range(r.lo, r.hi - 1))
  {
  }

  lemma SubsetSize(a: set<int>, b: set<int>)
    requires a <= b
    ensures |a| <= |b|
  {
    assert b == a + (b - a);
  }

  /** The bytes that a field uses of a slot. */
  function Uses(f: Field, p: Place, slot: nat): set<int> {
    BytesIn(Bytes(f, p)) * BytesIn(SlotRange(slot))
  }

  /** The bytes of a slot that a placement's first `k` fields use. */
  function Used(fields: seq<Field>, places: seq<Place>, k: nat, slot: nat): set<int>
    requires k <= |fields| == |places|
  {
    if k == 0 then {} else Used(fields, places, k - 1, slot) + Uses(fields[k - 1], places[k - 1], slot)
  }

  /** Of its last slot a field uses its packed bytes: all of the slot if it is a composite. */
  lemma UsesOfLastSlot(f: Field, p: Place)
    requires ValidField(f) && Fits(f, p)
    ensures |Uses(f, p, LastSlot(f, p))| == f.bytes
  {
    var r := if f.slots > 1 then SlotRange(LastSlot(f, p)) else Bytes(f, p);
    RangeSize(r);
    assert Uses(f, p, LastSlot(f, p)) == BytesIn(r);
  }

  lemma {:induction false} UsedIsInSlot(fields: seq<Field>, places: seq<Place>, k: nat, slot: nat)
    requires k <= |fields| == |places|
    ensures Used(fields, places, k, slot) <= BytesIn(SlotRange(slot)) && |Used(fields, places, k, slot)| <= 32
  {
    if k > 0 {
      UsedIsInSlot(fields, places, k - 1, slot);
    }
    RangeSize(SlotRange(slot));
    SubsetSize(Used(fields, places, k, slot), BytesIn(SlotRange(slot)));
  }

  lemma {:induction false} UsedMissesLater(fields: seq<Field>, places: seq<Place>, k: nat, j: nat, slot: nat)
    requires k <= j < |fields| && ValidPlacement(fields, places)
    ensures Used(fields, places, k, slot) !! BytesIn(Bytes(fields[j], places[j]))
  {
    if k > 0 {
      UsedMissesLater(fields, places, k - 1, j, slot);
      assert Disjoint(Bytes(fields[k - 1], places[k - 1]), Bytes(fields[j], places[j]));
    }
  }

  /** A field's bytes are new in its last slot. */
  lemma UsedGrows(fields: seq<Field>, places: seq<Place>, k: nat)
    requires k < |fields| && forall i | 0 <= i < |fields| :: ValidField(fields[i])
    requires ValidPlacement(fields, places)
    ensures var last := LastSlot(fields[k], places[k]);
            32 >= |Used(fields, places, k + 1, last)| == |Used(fields, places, k, last)| + fields[k].bytes
  {
    var last := LastSlot(fields[k], places[k]);
    UsesOfLastSlot(fields[k], places[k]);
    UsedMissesLater(fields, places, k, k, last);
    UsedIsInSlot(fields, places, k + 1, last);
    hide BytesIn, Bytes, ValidPlacement, LastSlot;
  }

  /** The walk is in an earlier slot than the placement, or in the same one with at least as much space left. */
  ghost predicate Leads(fields: seq<Field>, places: seq<Place>, k: nat)
    requires 0 < k <= |fields| == |places| && forall i | 0 <= i < |fields| :: ValidField(fields[i])
  {
    var w, last := Walk(fields, k), LastSlot(fields[k - 1], places[k - 1]);
    w.nextSlot < last || (w.nextSlot == last && w.nextSpace + |Used(fields, places, k, last)| >= 32)
  }

  /** A composite never starts in the slot of the field before it. */
  lemma CompositeStartsFresh(fields: seq<Field>, places: seq<Place>, k: nat)
    requires 0 < k < |fields| && forall i | 0 <= i < |fields| :: ValidField(fields[i])
    requires ValidPlacement(fields, places) && fields[k].slots > 1
    ensures places[k].slot > LastSlot(fields[k - 1], places[k - 1])
  {
    assert Disjoint(Bytes(fields[k - 1], places[k - 1]), Bytes(fields[k], places[k]));
  }

  /**
   * One step of the comparison: `last` and `used` are the placement's last slot and the bytes used in it,
   * `next` is its last slot with the next field, `before` and `now` the bytes used there without and with it.
   */
  lemma StepLeads(prev: LayoutStep, f: Field, slot: nat, last: nat, used: nat, next: nat, before: nat, now: nat)
    requires ValidField(f) && last <= slot && (f.slots > 1 ==> last < slot)
    requires next == if f.slots > 1 then slot + f.slots - 1 else slot
    requires now == before + f.bytes <= 32 && (next == last ==> before == used)
    requires prev.nextSlot < last || (prev.nextSlot == last && prev.nextSpace + used >= 32)
    ensures var w := Step(prev, f);
            && w.slot <= slot
            && (w.nextSlot < next || (w.nextSlot == next && w.nextSpace + now >= 32))
  {
  }

  /** The walk is nowhere behind any valid placement. */
  lemma {:induction false} GreedyLeads(fields: seq<Field>, places: seq<Place>, k: nat)
    requires forall i | 0 <= i < |fields| :: ValidField(fields[i])
    requires ValidPlacement(fields, places) && 0 < k <= |fields|
    ensures Walk(fields, k).slot <= places[k - 1].slot
    ensures Leads(fields, places, k)
  {
    if k == 1 {
      UsedGrows(fields, places, 0);
      FirstLeads(fields[0], places[0], |Used(fields, places, 1, LastSlot(fields[0], places[0]))|);
    } else {
      GreedyLeads(fields, places, k - 1);
      NextLeads(fields, places, k);
    }
  }

  lemma NextLeads(fields: seq<Field>, places: seq<Place>, k: nat)
    requires forall i | 0 <= i < |fields| :: ValidField(fields[i])
    requires ValidPlacement(fields, places) && 1 < k <= |fields| && Leads(fields, places, k - 1)
    ensures Walk(fields, k).slot <= places[k - 1].slot
    ensures Leads(fields, places, k)
  {
    hide Used, Bytes, Step, Disjoint;
    var f, p := fields[k - 1], places[k - 1];
    var next, last := LastSlot(f, p), LastSlot(fields[k - 2], places[k - 2]);
    UsedGrows(fields, places, k - 1);
    if f.slots > 1 {
      CompositeStartsFresh(fields, places, k - 1);
    }
    assert last <= p.slot && Walk(fields, k) == Step(Walk(fields, k - 1), f);
    hide ValidPlacement, Walk;
    StepLeads(Walk(fields, k - 1), f, p.slot, last, |Used(fields, places, k - 1, last)|,
      next, |Used(fields, places, k - 1, next)|, |Used(fields, places, k, next)|);
  }

  lemma FirstLeads(f: Field, p: Place, used: nat)
    requires ValidField(f) && used == f.bytes
    ensures var w := Step(FIRST, f);
            && w.slot <= p.slot
            && (w.nextSlot < LastSlot(f, p) || (w.nextSlot == LastSlot(f, p) && w.nextSpace + used >= 32))
  {
  }

  /**
   * Optimality: no placement that keeps slot order and straddles no slot puts any field in an earlier slot
   * than the walk does, nor needs fewer slots in all.
   */
  lemma GreedyIsOptimal(fields: seq<Field>, places: seq<Place>)
    requires forall i | 0 <= i < |fields| :: ValidField(fields[i])
    requires ValidPlacement(fields, places)
    ensures forall i | 0 <= i < |fields| :: Greedy(fields)[i].slot <= places[i].slot
    ensures |fields| > 0 ==> SlotCount(fields) <= LastSlot(fields[|fields| - 1], places[|fields| - 1]) + 1
  {
    forall i | 0 <= i < |fields| ensures Greedy(fields)[i].slot <= places[i].slot {
      GreedyLeads(fields, places, i + 1);
    }
    if |fields| > 0 {
      GreedyLeads(fields, places, |fields|);
    }
  }

  // ---------------------------------------------------------------------------
  // Nesting
  // ---------------------------------------------------------------------------

  /** A storage struct, or a leaf with its packed size and slot count. */
  datatype Node =
    | Leaf(field: Field)
    | Struct(children: seq<Node>)

  predicate ValidNode(n: Node) {
    match n
    case Leaf(f) => ValidField(f)
    case Struct(ns) => forall i | 0 <= i < |ns| :: ValidNode(ns[i])
  }

  /** What a node is to the walk of the struct around it: a sub-struct is 32 bytes times its slots. */
  function FieldOf(n: Node): (f: Field)
    requires ValidNode(n)
    ensures ValidField(f)
    decreases n, 0
  {
    match n
    case Leaf(f) => f
    case Struct(ns) => Field(32, SlotCount(FieldsOf(ns)))
  }

  function FieldsOf(ns: seq<Node>): (fs: seq<Field>)
    requires forall i | 0 <= i < |ns| :: ValidNode(ns[i])
    ensures |fs| == |ns| && forall i | 0 <= i < |fs| :: ValidField(fs[i])
    ensures forall i | 0 <= i < |fs| :: fs[i] == FieldOf(ns[i])
    decreases ns, 0
  {
    seq(|ns|, i requires 0 <= i < |ns| => FieldOf(ns[i]))
  }

  predicate Within(a: Range, b: Range) {
    b.lo <= a.lo && a.hi <= b.hi
  }

  /** The leaves of a node placed at `p`, in declaration order; a sub-struct is built at its base slot. */
  function Leaves(n: Node, p: Place): seq<Range>
    requires ValidNode(n)
    decreases n, 0
  {
    match n
    case Leaf(f) => [Bytes(f, p)]
    case Struct(ns) => ChildLeaves(ns, p.slot, |ns|)
  }

  function ChildLeaves(ns: seq<Node>, base: nat, k: nat): seq<Range>
    requires k <= |ns| && forall i | 0 <= i < |ns| :: ValidNode(ns[i])
    decreases ns, k
  {
    if k == 0 then []
    else ChildLeaves(ns, base, k - 1) + Leaves(ns[k - 1], ChildPlace(ns, base, k - 1))
  }

  function ChildPlace(ns: seq<Node>, base: nat, i: nat): Place
    requires i < |ns| && forall i | 0 <= i < |ns| :: ValidNode(ns[i])
  {
    var p := Greedy(FieldsOf(ns))[i];
    Place(base + p.slot, p.offset)
  }

  predicate PairwiseDisjoint(rs: seq<Range>) {
    forall i, j | 0 <= i < j < |rs| :: Disjoint(rs[i], rs[j])
  }

  /** In one slot, or a whole number of slots. */
  predicate Aligned(r: Range) {
    r.lo < r.hi && (r.lo / 32 == (r.hi - 1) / 32 || (r.lo % 32 == 0 && r.hi % 32 == 0))
  }

  predicate SafeIn(rs: seq<Range>, bounds: Range) {
    PairwiseDisjoint(rs) && forall i | 0 <= i < |rs| :: Within(rs[i], bounds) && Aligned(rs[i])
  }

  /**
   * Nesting is safe at any depth: wherever a node is placed, its leaves are pairwise disjoint, straddle
   * no slot boundary, and stay inside the bytes that the node itself claims.
   */
  lemma {:induction false} LeavesAreSafe(n: Node, p: Place)
    requires ValidNode(n) && Fits(FieldOf(n), p)
    ensures SafeIn(Leaves(n, p), Bytes(FieldOf(n), p))
    decreases n, 1
  {
    match n
    case Leaf(f) =>
    case Struct(ns) =>
      ChildrenAreSafe(ns, p.slot, |ns|);
  }

  /** `r` stays out of what `w` says is free: the first `nextSpace` bytes of `nextSlot`, and all later slots. */
  predicate ClearOf(r: Range, base: nat, w: LayoutStep) {
    && r.hi <= 32 * (base + w.nextSlot + 1)
    && (w.nextSpace > 0 ==>
          r.hi <= 32 * (base + w.nextSlot) || r.lo >= 32 * (base + w.nextSlot) + w.nextSpace)
  }

  /** One more field: it takes free bytes, so it misses everything before it, and all of it stops being free. */
  lemma StepTakesFreeBytes(base: nat, prev: LayoutStep, f: Field, r: Range)
    requires ValidField(f) && prev.nextSpace <= 32 && ClearOf(r, base, prev) && r.lo < r.hi
    ensures var w := Step(prev, f);
            var taken := Bytes(f, Place(base + w.slot, w.offset));
            Disjoint(r, taken) && ClearOf(r, base, w)
  {
  }

  lemma StepClaimsItsBytes(base: nat, prev: LayoutStep, f: Field, r: Range)
    requires ValidField(f) && prev.nextSpace <= 32
    requires Within(r, Bytes(f, Place(base + Step(prev, f).slot, Step(prev, f).offset)))
    ensures ClearOf(r, base, Step(prev, f)) && r.lo >= 32 * base
  {
  }

  /** `rs` is safe in the slots from `base` up to the walk's state `w`, and clear of what `w` has free. */
  predicate SafeBelow(rs: seq<Range>, base: nat, w: LayoutStep) {
    && SafeIn(rs, Range(32 * base, 32 * (base + w.nextSlot + 1)))
    && forall i | 0 <= i < |rs| :: ClearOf(rs[i], base, w)
  }

  lemma AppendSafe(before: seq<Range>, here: seq<Range>, base: nat, prev: LayoutStep, f: Field)
    requires ValidField(f) && prev.nextSpace <= 32 && SafeBelow(before, base, prev)
    requires SafeIn(here, Bytes(f, Place(base + Step(prev, f).slot, Step(prev, f).offset)))
    ensures SafeBelow(before + here, base, Step(prev, f))
  {
    var taken := Bytes(f, Place(base + Step(prev, f).slot, Step(prev, f).offset));
    var rs := before + here;
    forall i | 0 <= i < |rs|
      ensures ClearOf(rs[i], base, Step(prev, f)) && rs[i].lo >= 32 * base && Aligned(rs[i])
      ensures i < |before| ==> Disjoint(rs[i], taken)
    {
      if i < |before| {
        StepTakesFreeBytes(base, prev, f, before[i]);
      } else {
        StepClaimsItsBytes(base, prev, f, here[i - |before|]);
      }
    }
    hide Bytes, Step, Aligned, ClearOf;
    forall i, j | 0 <= i < j < |rs| ensures Disjoint(rs[i], rs[j]) {
      if i < |before| <= j {
        assert Disjoint(before[i], taken) && Within(here[j - |before|], taken);
      }
    }
    forall i | 0 <= i < |rs| ensures rs[i].hi <= 32 * (base + Step(prev, f).nextSlot + 1) {
      ClearEnd(rs[i], base, Step(prev, f));
    }
  }

  lemma ClearEnd(r: Range, base: nat, w: LayoutStep)
    requires ClearOf(r, base, w)
    ensures r.hi <= 32 * (base + w.nextSlot + 1)
  {
  }

  lemma ChildPlaced(ns: seq<Node>, base: nat, k: nat)
    requires 0 < k <= |ns| && forall i | 0 <= i < |ns| :: ValidNode(ns[i])
    ensures var prev, f, p := Walk(FieldsOf(ns), k - 1), FieldOf(ns[k - 1]), ChildPlace(ns, base, k - 1);
            && Walk(FieldsOf(ns), k) == Step(prev, f)
            && p == Place(base + Step(prev, f).slot, Step(prev, f).offset)
            && prev.nextSpace <= 32 && prev.nextSlot <= Step(prev, f).nextSlot && Fits(f, p)
  {
    WalkState(FieldsOf(ns), k);
    if k > 1 {
      WalkState(FieldsOf(ns), k - 1);
    }
  }

  lemma {:induction false} ChildrenAreSafe(ns: seq<Node>, base: nat, k: nat)
    requires k <= |ns| && forall i | 0 <= i < |ns| :: ValidNode(ns[i])
    ensures SafeBelow(ChildLeaves(ns, base, k), base, Walk(FieldsOf(ns), k))
    decreases ns, k
  {
    if k > 0 {
      hide Step, Walk, FieldOf, FieldsOf, ChildPlace, Leaves, Bytes, SafeIn, SafeBelow;
      var child, p := ns[k - 1], ChildPlace(ns, base, k - 1);
      ChildrenAreSafe(ns, base, k - 1);
      ChildPlaced(ns, base, k);
      LeavesAreSafe(child, p);
      AppendSafe(ChildLeaves(ns, base, k - 1), Leaves(child, p), base, Walk(FieldsOf(ns), k - 1), FieldOf(child));
    }
  }

  // ---------------------------------------------------------------------------
  // Nesting wastes no slot
  // ---------------------------------------------------------------------------

  /** A leaf claims exactly its own bytes. */
  lemma LeafClaimsItself(f: Field, p: Place)
    requires ValidField(f)
    ensures Leaves(Leaf(f), p) == [Bytes(FieldOf(Leaf(f)), p)] == [Bytes(f, p)]
  {
  }

  /** Every struct in the node has a field. */
  predicate StructsHaveFields(n: Node) {
    match n
    case Leaf(_) => true
    case Struct(ns) => |ns| > 0 && forall i | 0 <= i < |ns| :: StructsHaveFields(ns[i])
  }

  /** Some byte of the range is in the slot. */
  predicate Meets(r: Range, slot: nat) {
    r.lo < 32 * slot + 32 && 32 * slot < r.hi
  }

  ghost predicate SomeMeets(rs: seq<Range>, slot: nat) {
    exists i | 0 <= i < |rs| :: Meets(rs[i], slot)
  }

  /**
   * A node claims no slot in vain: every slot from its first to its last holds some byte of a leaf. So a
   * sub-struct takes the slots of its own walk and not one more.
   */
  lemma {:induction false} ClaimIsTight(n: Node, p: Place, slot: nat)
    requires ValidNode(n) && StructsHaveFields(n) && Fits(FieldOf(n), p)
    requires Meets(Bytes(FieldOf(n), p), slot)
    ensures SomeMeets(Leaves(n, p), slot)
    decreases n, 1
  {
    match n
    case Leaf(f) =>
      assert Leaves(n, p)[0] == Bytes(f, p);
    case Struct(ns) =>
      ChildrenFillSlots(ns, p.slot, |ns|, slot);
  }

  /** One more child begins in the slot where the others end, or in the next. */
  lemma NextChildIsNear(ns: seq<Node>, k: nat)
    requires 0 < k <= |ns| && forall i | 0 <= i < |ns| :: ValidNode(ns[i])
    ensures Walk(FieldsOf(ns), k).slot <= (if k == 1 then 0 else Walk(FieldsOf(ns), k - 1).nextSlot + 1)
  {
  }

  lemma {:induction false} ChildrenFillSlots(ns: seq<Node>, base: nat, k: nat, slot: nat)
    requires 0 < k <= |ns| && forall i | 0 <= i < |ns| :: ValidNode(ns[i]) && StructsHaveFields(ns[i])
    requires base <= slot <= base + Walk(FieldsOf(ns), k).nextSlot
    ensures SomeMeets(ChildLeaves(ns, base, k), slot)
    decreases ns, k
  {
    var child, p := ns[k - 1], ChildPlace(ns, base, k - 1);
    var before, here := ChildLeaves(ns, base, k - 1), Leaves(child, p);
    ChildPlaced(ns, base, k);
    NextChildIsNear(ns, k);
    ChildSpan(ns, base, k, slot);
    hide FieldOf, FieldsOf, Walk, ChildPlace, Leaves, Bytes, Step, StructsHaveFields;
    if k > 1 && slot <= base + Walk(FieldsOf(ns), k - 1).nextSlot {
      ChildrenFillSlots(ns, base, k - 1, slot);
      InFront(before, here, slot);
    } else {
      ClaimIsTight(child, p, slot);
      Behind(before, here, slot);
    }
  }

  /** The slots from the child's first to the walk's last are those that the child claims. */
  lemma ChildSpan(ns: seq<Node>, base: nat, k: nat, slot: nat)
    requires 0 < k <= |ns| && forall i | 0 <= i < |ns| :: ValidNode(ns[i])
    requires slot <= base + Walk(FieldsOf(ns), k).nextSlot
    ensures base + Walk(FieldsOf(ns), k).slot <= slot ==>
              Meets(Bytes(FieldOf(ns[k - 1]), ChildPlace(ns, base, k - 1)), slot)
  {
    ChildPlaced(ns, base, k);
    hide FieldOf, FieldsOf, Walk, ChildPlace;
  }

  lemma InFront(a: seq<Range>, b: seq<Range>, slot: nat)
    requires SomeMeets(a, slot)
    ensures SomeMeets(a + b, slot)
  {
    var i :| 0 <= i < |a| && Meets(a[i], slot);
    assert (a + b)[i] == a[i];
  }

  lemma Behind(a: seq<Range>, b: seq<Range>, slot: nat)
    requires SomeMeets(b, slot)
    ensures SomeMeets(a + b, slot)
  {
    var i :| 0 <= i < |b| && Meets(b[i], slot);
    assert (a + b)[|a| + i] == b[i];
  }

  /** A struct without sub-structs puts its leaves where the walk of their fields does, in order. */
  lemma {:induction false} FlatLeavesAreGreedy(fields: seq<Field>, base: nat, k: nat)
    requires k <= |fields| && forall i | 0 <= i < |fields| :: ValidField(fields[i])
    ensures var ns := Flat(fields);
            && |ChildLeaves(ns, base, k)| == k
            && forall i | 0 <= i < k ::
                 ChildLeaves(ns, base, k)[i]
                 == Bytes(fields[i], Place(base + Greedy(fields)[i].slot, Greedy(fields)[i].offset))
  {
    if k > 0 {
      FlatLeavesAreGreedy(fields, base, k - 1);
      assert FieldsOf(Flat(fields)) == fields;
      hide Bytes, Walk, Step;
    }
  }

  function Flat(fields: seq<Field>): (ns: seq<Node>)
    requires forall i | 0 <= i < |fields| :: ValidField(fields[i])
    ensures |ns| == |fields| && forall i | 0 <= i < |ns| :: ns[i] == Leaf(fields[i]) && ValidNode(ns[i])
  {
    seq(|fields|, i requires 0 <= i < |fields| => Leaf(fields[i]))
  }
}
