/**
 * From Solidity declarations to ABI entries: the registry of user-defined types, and the expansion of
 * structs into `tuple` entries with a stack that breaks cycles.
 */
module StructExpansion {
  import opened Wrappers
  import opened TypeNames

  datatype SolType =
    | Elementary(name: string)
    | Unsupported   // mappings and function types
    | Array(elem: SolType, size: Option<nat>)
    | TupleOf(types: seq<SolType>)
    | Custom(name: string)

  datatype FieldDecl = FieldDecl(name: string, ty: SolType)

  datatype Def = StructDef(fields: seq<FieldDecl>) | EnumDef | UdtDef(underlying: SolType)

  type Registry = map<string, Def>

  predicate IsStruct(reg: Registry, n: string) {
    n in reg && reg[n].StructDef?
  }

  predicate IsUdt(reg: Registry, n: string) {
    n in reg && reg[n].UdtDef?
  }

  function Mentions(ty: SolType): set<string> {
    match ty
    case Array(e, _) => Mentions(e)
    case TupleOf(ts) => set i, c | 0 <= i < |ts| && c in Mentions(ts[i]) :: c
    case Custom(n) => {n}
    case _ => {}
  }

  /**
   * `udts` shows that no chain of value types comes back to itself. Solidity asks for more: a value type
   * rests on an elementary type.
   */
  ghost predicate UdtsRanked(reg: Registry, udts: string -> nat) {
    forall n, c | IsUdt(reg, n) && c in Mentions(reg[n].underlying) && IsUdt(reg, c) :: udts(c) < udts(n)
  }

  /** One more than the rank of any value type in `ty`. */
  ghost function Height(ty: SolType, reg: Registry, udts: string -> nat): nat
    decreases ty, 0
  {
    match ty
    case Array(e, _) => Height(e, reg, udts)
    case TupleOf(ts) => HeightOfTypes(ts, |ts|, reg, udts)
    case Custom(n) => if IsUdt(reg, n) then udts(n) + 1 else 0
    case _ => 0
  }

  ghost function HeightOfTypes(ts: seq<SolType>, k: nat, reg: Registry, udts: string -> nat): (h: nat)
    requires k <= |ts|
    ensures forall i | 0 <= i < k :: Height(ts[i], reg, udts) <= h
    decreases ts, k
  {
    if k == 0 then 0
    else
      var h, last := HeightOfTypes(ts, k - 1, reg, udts), Height(ts[k - 1], reg, udts);
      if h > last then h else last
  }

  lemma {:induction false} HeightIsBelow(ty: SolType, reg: Registry, udts: string -> nat, bound: nat)
    requires forall c | c in Mentions(ty) && IsUdt(reg, c) :: udts(c) < bound
    ensures Height(ty, reg, udts) <= bound
    decreases ty, 0
  {
    match ty
    case Array(e, _) => HeightIsBelow(e, reg, udts, bound);
    case TupleOf(ts) => HeightsAreBelow(ts, |ts|, reg, udts, bound);
    case _ =>
  }

  lemma {:induction false} HeightsAreBelow(ts: seq<SolType>, k: nat, reg: Registry, udts: string -> nat, bound: nat)
    requires k <= |ts| && forall c | c in Mentions(TupleOf(ts)) && IsUdt(reg, c) :: udts(c) < bound
    ensures HeightOfTypes(ts, k, reg, udts) <= bound
    decreases ts, k
  {
    if k > 0 {
      assert forall c | c in Mentions(ts[k - 1]) :: c in Mentions(TupleOf(ts));
      HeightsAreBelow(ts, k - 1, reg, udts, bound);
      HeightIsBelow(ts[k - 1], reg, udts, bound);
    }
  }

  /** A value type ranks above what it stands for. */
  lemma UnderlyingIsLower(n: string, reg: Registry, udts: string -> nat)
    requires UdtsRanked(reg, udts) && IsUdt(reg, n)
    ensures Height(reg[n].underlying, reg, udts) < Height(Custom(n), reg, udts)
  {
    HeightIsBelow(reg[n].underlying, reg, udts, udts(n));
  }

  function SizeSuffix(size: Option<nat>): string {
    match size
    case Some(n) => "[" + Decimal(n) + "]"
    case None => "[]"
  }

  function Leaf(name: string, paramType: string): AbiParam {
    AbiParam(name, paramType, [])
  }

  /** The names not yet being expanded; it shrinks whenever a struct is entered. */
  function Remaining(reg: Registry, active: seq<string>): set<string> {
    reg.Keys - set n | n in active
  }

  lemma EnteringShrinks(n: string, reg: Registry, active: seq<string>)
    requires n in reg && n !in active
    ensures Remaining(reg, active + [n]) < Remaining(reg, active)
  {
    assert n in Remaining(reg, active) && n !in Remaining(reg, active + [n]);
  }

  /**
   * `type_to_abi_param`. That it is a function at all says that the expansion terminates, whatever the
   * structs refer to, if value types do not go round in circles.
   */
  function Expand(name: string, ty: SolType, reg: Registry, active: seq<string>, ghost udts: string -> nat): AbiParam
    requires UdtsRanked(reg, udts)
    decreases Remaining(reg, active), Height(ty, reg, udts) + 1, ty, 0
  {
    match ty
    case Elementary(n) => Leaf(name, n)
    case Unsupported => Leaf(name, "")
    case Array(e, size) =>
      var inner := Expand("", e, reg, active, udts);
      AbiParam(name, inner.paramType + SizeSuffix(size), inner.components)
    case TupleOf(ts) => AbiParam(name, "tuple", ExpandAll(ts, reg, active, udts))
    case Custom(n) =>
      if n in active then Leaf(name, n)
      else if n !in reg then Leaf(name, n)
      else match reg[n]
           case EnumDef => Leaf(name, "uint8")
           case UdtDef(underlying) =>
             UnderlyingIsLower(n, reg, udts);
             Expand(name, underlying, reg, active, udts)
           case StructDef(fields) => AbiParam(name, "tuple", ExpandFields(n, fields, reg, active, udts))
  }

  function ExpandAll(ts: seq<SolType>, reg: Registry, active: seq<string>, ghost udts: string -> nat)
      : (ps: seq<AbiParam>)
    requires UdtsRanked(reg, udts)
    ensures |ps| == |ts| && forall i | 0 <= i < |ts| :: ps[i] == Expand("", ts[i], reg, active, udts)
    decreases Remaining(reg, active), Height(TupleOf(ts), reg, udts) + 1, ts, 0
  {
    seq(|ts|, i requires 0 <= i < |ts| => Expand("", ts[i], reg, active, udts))
  }

  function ExpandFields(n: string, fields: seq<FieldDecl>, reg: Registry, active: seq<string>,
      ghost udts: string -> nat): (ps: seq<AbiParam>)
    requires UdtsRanked(reg, udts) && n in reg && n !in active
    ensures |ps| == |fields|
    ensures (EnteringShrinks(n, reg, active);
             forall i | 0 <= i < |fields| :: ps[i] == Expand(fields[i].name, fields[i].ty, reg, active + [n], udts))
    decreases Remaining(reg, active), 0
  {
    EnteringShrinks(n, reg, active);
    seq(|fields|, i requires 0 <= i < |fields| => Expand(fields[i].name, fields[i].ty, reg, active + [n], udts))
  }

  /** Somewhere in its expansion, `ty` names a struct that is already being expanded. */
  ghost predicate Fires(ty: SolType, reg: Registry, active: seq<string>, udts: string -> nat)
    requires UdtsRanked(reg, udts)
    decreases Remaining(reg, active), Height(ty, reg, udts) + 1, ty
  {
    match ty
    case Array(e, _) => Fires(e, reg, active, udts)
    case TupleOf(ts) => exists i | 0 <= i < |ts| :: Fires(ts[i], reg, active, udts)
    case Custom(n) =>
      if n in active then true
      else if IsUdt(reg, n) then
        UnderlyingIsLower(n, reg, udts);
        Fires(reg[n].underlying, reg, active, udts)
      else IsStruct(reg, n) && FieldFires(n, reg, active, udts)
    case _ => false
  }

  ghost predicate FieldFires(n: string, reg: Registry, active: seq<string>, udts: string -> nat)
    requires UdtsRanked(reg, udts) && IsStruct(reg, n) && n !in active
    decreases Remaining(reg, active), 0
  {
    EnteringShrinks(n, reg, active);
    exists i | 0 <= i < |reg[n].fields| :: Fires(reg[n].fields[i].ty, reg, active + [n], udts)
  }

  // ---------------------------------------------------------------------------
  // The stack of active names, pushed and popped
  // ---------------------------------------------------------------------------

  class Expander {
    const reg: Registry
    ghost const udts: string -> nat
    var active: seq<string>
    /** The cycle fallback has been taken. */
    ghost var fired: bool

    constructor (reg: Registry, ghost udts: string -> nat)
      ensures this.reg == reg && this.udts == udts && active == [] && !fired
    {
      this.reg := reg;
      this.udts := udts;
      active := [];
      fired := false;
    }

    /** Pushing and popping balance: `active` is as before, on every path. */
    method TypeToAbiParam(name: string, ty: SolType) returns (p: AbiParam)
      requires UdtsRanked(reg, udts)
      modifies this
      ensures active == old(active) && p == Expand(name, ty, reg, old(active), udts)
      ensures fired <==> old(fired) || Fires(ty, reg, old(active), udts)
      decreases Remaining(reg, active), Height(ty, reg, udts) + 1, ty, 0
    {
      match ty
      case Elementary(n) => p := Leaf(name, n);
      case Unsupported => p := Leaf(name, "");
      case Array(e, size) =>
        var inner := TypeToAbiParam("", e);
        p := AbiParam(name, inner.paramType + SizeSuffix(size), inner.components);
      case TupleOf(ts) =>
        ghost var before := active;
        var components := [];
        for i := 0 to |ts|
          invariant active == before && |components| == i
          invariant forall j | 0 <= j < i :: components[j] == Expand("", ts[j], reg, before, udts)
          invariant fired <==> old(fired) || exists j | 0 <= j < i :: Fires(ts[j], reg, before, udts)
        {
          var c := TypeToAbiParam("", ts[i]);
          components := components + [c];
        }
        assert components == ExpandAll(ts, reg, before, udts);
        p := AbiParam(name, "tuple", components);
      case Custom(n) =>
        if n in active {
          fired := true;
          p := Leaf(name, n);
        } else if n !in reg {
          p := Leaf(name, n);
        } else {
          match reg[n]
          case EnumDef => p := Leaf(name, "uint8");
          case UdtDef(underlying) =>
            UnderlyingIsLower(n, reg, udts);
            p := TypeToAbiParam(name, underlying);
          case StructDef(fields) =>
            var components := ExpandStruct(n, fields);
            p := AbiParam(name, "tuple", components);
        }
    }

    method ExpandStruct(n: string, fields: seq<FieldDecl>) returns (components: seq<AbiParam>)
      requires UdtsRanked(reg, udts) && IsStruct(reg, n) && fields == reg[n].fields && n !in active
      modifies this
      ensures active == old(active) && components == ExpandFields(n, fields, reg, old(active), udts)
      ensures fired <==> old(fired) || FieldFires(n, reg, old(active), udts)
      decreases Remaining(reg, active), 0
    {
      hide Expand, Fires, UdtsRanked;
      ghost var before := active;
      EnteringShrinks(n, reg, before);
      active := active + [n];
      components := [];
      for i := 0 to |fields|
        invariant active == before + [n] && |components| == i
        invariant forall j | 0 <= j < i ::
            components[j] == Expand(fields[j].name, fields[j].ty, reg, before + [n], udts)
        invariant fired <==> old(fired) || exists j | 0 <= j < i :: Fires(fields[j].ty, reg, before + [n], udts)
      {
        var c := TypeToAbiParam(fields[i].name, fields[i].ty);
        components := components + [c];
      }
      active := active[..|active| - 1];
    }
  }

  // ---------------------------------------------------------------------------
  // The registry
  // ---------------------------------------------------------------------------

  /** A top-level item; a contract, interface or library has items of its own. */
  datatype Item =
    | Defines(name: string, def: Def)
    | Contract(body: seq<Item>)
    | Other

  /** Pre-order: each item, then what is inside it. */
  function Flatten(items: seq<Item>): seq<Item> {
    if items == [] then []
    else [items[0]] + (if items[0].Contract? then Flatten(items[0].body) else []) + Flatten(items[1..])
  }

  /** The item is among these, or inside a contract among them, at any depth. */
  predicate Inside(item: Item, items: seq<Item>)
    decreases items
  {
    exists i | 0 <= i < |items| :: items[i] == item || (items[i].Contract? && Inside(item, items[i].body))
  }

  /** Flattening keeps every item and invents none. */
  lemma {:induction false} FlattenKeepsAll(items: seq<Item>, item: Item)
    ensures item in Flatten(items) <==> Inside(item, items)
    decreases items
  {
    if items != [] {
      var rest := items[1..];
      FlattenKeepsAll(rest, item);
      if items[0].Contract? {
        FlattenKeepsAll(items[0].body, item);
      }
      assert forall i | 1 <= i < |items| :: items[i] == rest[i - 1];
      assert Inside(item, items) <==>
             items[0] == item || (items[0].Contract? && Inside(item, items[0].body)) || Inside(item, rest);
    }
  }

  lemma FlattenStep(source: seq<Item>, i: nat)
    requires i < |source|
    ensures Flatten(source[i..]) ==
            [source[i]] + ((if source[i].Contract? then Flatten(source[i].body) else []) + Flatten(source[i + 1..]))
  {
    assert source[i..][1..] == source[i + 1..];
  }

  lemma FlattenEnd(source: seq<Item>)
    ensures source[0..] == source && Flatten(source[|source|..]) == []
  {
  }

  class ItemList {
    var items: seq<Item>

    constructor ()
      ensures items == []
    {
      items := [];
    }

    /** `collect_items`. */
    method CollectItems(source: seq<Item>)
      modifies this
      ensures items == old(items) + Flatten(source)
      decreases source
    {
      hide Flatten;
      ghost var before := items;
      for i := 0 to |source|
        invariant items + Flatten(source[i..]) == before + Flatten(source)
      {
        FlattenStep(source, i);
        ghost var done := items;
        items := items + [source[i]];
        if source[i].Contract? {
          CollectItems(source[i].body);
        }
        assert items + Flatten(source[i + 1..]) == done + Flatten(source[i..]);
      }
      FlattenEnd(source);
    }
  }

  ghost predicate Duplicate(flat: seq<Item>) {
    exists i, j | 0 <= i < j < |flat| :: flat[i].Defines? && flat[j].Defines? && flat[i].name == flat[j].name
  }

  ghost predicate Registers(reg: Registry, flat: seq<Item>) {
    && (forall i | 0 <= i < |flat| && flat[i].Defines? :: flat[i].name in reg && reg[flat[i].name] == flat[i].def)
    && (forall n | n in reg :: exists i :: 0 <= i < |flat| && flat[i] == Defines(n, reg[n]))
  }

  /** The first pass of `generate_abi_from_sol`: it fails exactly when two definitions share a name. */
  method BuildRegistry(flat: seq<Item>) returns (r: Option<Registry>)
    ensures r.None? <==> Duplicate(flat)
    ensures r.Some? ==> Registers(r.value, flat)
  {
    var reg: Registry := map[];
    for k := 0 to |flat|
      invariant !Duplicate(flat[..k]) && Registers(reg, flat[..k])
    {
      if flat[k].Defines? {
        if flat[k].name in reg {
          var i :| 0 <= i < k && flat[..k][i] == Defines(flat[k].name, reg[flat[k].name]);
          assert flat[i].name == flat[k].name;
          return None;
        }
        ghost var before := reg;
        reg := reg[flat[k].name := flat[k].def];
        RegisterOne(before, flat, k);
      } else {
        RegisterNone(reg, flat, k);
      }
    }
    assert flat[..|flat|] == flat;
    r := Some(reg);
  }

  lemma RegisterOne(reg: Registry, flat: seq<Item>, k: nat)
    requires k < |flat| && flat[k].Defines? && flat[k].name !in reg
    requires !Duplicate(flat[..k]) && Registers(reg, flat[..k])
    ensures !Duplicate(flat[..k + 1]) && Registers(reg[flat[k].name := flat[k].def], flat[..k + 1])
  {
    var next, now := flat[..k + 1], reg[flat[k].name := flat[k].def];
    forall i | 0 <= i < k && next[i].Defines? ensures next[i].name != flat[k].name {
      assert flat[..k][i] == next[i];
    }
    forall i, j | 0 <= i < j <= k && next[i].Defines? && next[j].Defines? ensures next[i].name != next[j].name {
      if j < k {
        assert flat[..k][i] == next[i] && flat[..k][j] == next[j];
      }
    }
    forall n | n in now ensures exists i :: 0 <= i < |next| && next[i] == Defines(n, now[n]) {
      if n == flat[k].name {
        assert next[k] == Defines(n, now[n]);
      } else {
        var i :| 0 <= i < k && flat[..k][i] == Defines(n, reg[n]);
        assert next[i] == Defines(n, now[n]);
      }
    }
    forall i | 0 <= i < |next| && next[i].Defines? ensures next[i].name in now && now[next[i].name] == next[i].def {
      if i < k {
        assert flat[..k][i] == next[i];
      }
    }
  }

  lemma RegisterNone(reg: Registry, flat: seq<Item>, k: nat)
    requires k < |flat| && !flat[k].Defines? && !Duplicate(flat[..k]) && Registers(reg, flat[..k])
    ensures !Duplicate(flat[..k + 1]) && Registers(reg, flat[..k + 1])
  {
    var next := flat[..k + 1];
    forall i, j | 0 <= i < j <= k && next[i].Defines? && next[j].Defines? ensures next[i].name != next[j].name {
      assert flat[..k][i] == next[i] && flat[..k][j] == next[j];
    }
    forall n | n in reg ensures exists i :: 0 <= i < |next| && next[i] == Defines(n, reg[n]) {
      var i :| 0 <= i < k && flat[..k][i] == Defines(n, reg[n]);
      assert next[i] == Defines(n, reg[n]);
    }
    forall i | 0 <= i < |next| && next[i].Defines? ensures next[i].name in reg && reg[next[i].name] == next[i].def {
      assert flat[..k][i] == next[i];
    }
  }
}
