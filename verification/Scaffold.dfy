/**
 * The scaffolder's struct registry: which Rust structs to emit for the Solidity structs that an interface
 * mentions, under which names, and in which order.
 */
module Scaffold {
  import opened Wrappers

  /**
   * An ABI parameter as the scaffolder sees it. `Plain` carries the Rust type of a non-tuple (`None` if
   * it has none); `Tuple` carries the struct's Solidity path from `internalType` (`None` if it has none).
   */
  datatype Param =
    | Plain(rustType: Option<string>)
    | Tuple(path: Option<string>, components: seq<Component>)
    | ListOf(elem: Param)
    | ArrayOf(elem: Param, size: nat)

  datatype Component = Component(name: string, param: Param)

  datatype RustType =
    | Named(text: string)
    | StructType(name: string)
    | VecType(elem: RustType)
    | ArrayType(elem: RustType, size: nat)

  datatype GeneratedField = GeneratedField(name: string, rustType: RustType)

  datatype GeneratedStruct = GeneratedStruct(name: string, fields: seq<GeneratedField>)

  /** The struct a Rust type mentions, if any. */
  function Mentioned(t: RustType): Option<string> {
    match t
    case Named(_) => None
    case StructType(n) => Some(n)
    case VecType(e) => Mentioned(e)
    case ArrayType(e, _) => Mentioned(e)
  }

  /** No struct path occurs inside its own component tree, nor inside one of `outer`. */
  predicate NotNested(p: Param, outer: set<string>)
    decreases p
  {
    match p
    case Plain(_) => true
    case Tuple(path, cs) =>
      path.Some? ==>
        (path.value !in outer && forall i | 0 <= i < |cs| :: NotNested(cs[i].param, outer + {path.value}))
    case ListOf(e) => NotNested(e, outer)
    case ArrayOf(e, _) => NotNested(e, outer)
  }

  /** A parameter that maps to no Rust type: an unsupported leaf, or a tuple without a struct name. */
  predicate Unmappable(p: Param)
    decreases p
  {
    match p
    case Plain(t) => t.None?
    case Tuple(path, cs) => path.None? || exists i | 0 <= i < |cs| :: Unmappable(cs[i].param)
    case ListOf(e) => Unmappable(e)
    case ArrayOf(e, _) => Unmappable(e)
  }

  predicate NoneNested(cs: seq<Component>, outer: set<string>) {
    forall i | 0 <= i < |cs| :: NotNested(cs[i].param, outer)
  }

  predicate AnyUnmappable(cs: seq<Component>) {
    exists i | 0 <= i < |cs| :: Unmappable(cs[i].param)
  }

  /** All struct paths in the tree. */
  function Paths(p: Param): set<string>
    decreases p
  {
    match p
    case Plain(_) => {}
    case Tuple(path, cs) => (if path.Some? then {path.value} else {}) + ComponentPaths(cs)
    case ListOf(e) => Paths(e)
    case ArrayOf(e, _) => Paths(e)
  }

  function ComponentPaths(cs: seq<Component>): set<string>
    decreases cs
  {
    set i, s | 0 <= i < |cs| && s in Paths(cs[i].param) :: s
  }

  function AllPaths(params: seq<Param>): set<string> {
    set i, s | 0 <= i < |params| && s in Paths(params[i]) :: s
  }

  /** Two different paths that map to one Rust name. */
  ghost predicate Clash(rustName: string -> string, paths: set<string>) {
    exists p, q | p in paths && q in paths :: p != q && rustName(p) == rustName(q)
  }

  predicate NamedIn(order: seq<GeneratedStruct>, name: string) {
    exists k | 0 <= k < |order| :: order[k].name == name
  }

  /** Every struct that a field mentions is defined strictly earlier. */
  ghost predicate DefinedBeforeUse(order: seq<GeneratedStruct>) {
    forall k, i | 0 <= k < |order| && 0 <= i < |order[k].fields| && Mentioned(order[k].fields[i].rustType).Some? ::
      NamedIn(order[..k], Mentioned(order[k].fields[i].rustType).value)
  }

  /** The Rust type is a mention of a struct in `order`, or of none. */
  predicate Covered(order: seq<GeneratedStruct>, t: RustType) {
    Mentioned(t).Some? ==> NamedIn(order, Mentioned(t).value)
  }

  predicate AllCovered(order: seq<GeneratedStruct>, fields: seq<GeneratedField>) {
    forall j | 0 <= j < |fields| :: Covered(order, fields[j].rustType)
  }

  /** The Rust type of a parameter; a tuple is mentioned by its struct's name. */
  function RustTypeOf(rustName: string -> string, p: Param): Option<RustType> {
    match p
    case Plain(t) => if t.Some? then Some(Named(t.value)) else None
    case Tuple(path, _) => if path.Some? then Some(StructType(rustName(path.value))) else None
    case ListOf(e) =>
      (match RustTypeOf(rustName, e)
       case Some(t) => Some(VecType(t))
       case None => None)
    case ArrayOf(e, n) =>
      (match RustTypeOf(rustName, e)
       case Some(t) => Some(ArrayType(t, n))
       case None => None)
  }

  /** `fields` are the components, in order, with their Rust types. */
  predicate FieldsFor(rustName: string -> string, fields: seq<GeneratedField>, components: seq<Component>) {
    && |fields| == |components|
    && forall i | 0 <= i < |fields| ::
         fields[i].name == components[i].name && Some(fields[i].rustType) == RustTypeOf(rustName, components[i].param)
  }

  /** `s` is the Rust struct of the Solidity struct at `path`. */
  predicate Generates(rustName: string -> string, s: GeneratedStruct, path: string, components: seq<Component>) {
    s.name == rustName(path) && FieldsFor(rustName, s.fields, components)
  }

  /** `s` is the Rust struct of some Solidity struct in the parameter's tree. */
  predicate Emits(rustName: string -> string, p: Param, s: GeneratedStruct)
    decreases p, 1
  {
    match p
    case Plain(_) => false
    case Tuple(path, cs) => path.Some? && (Generates(rustName, s, path.value, cs) || AnyEmits(rustName, cs, s))
    case ListOf(e) => Emits(rustName, e, s)
    case ArrayOf(e, _) => Emits(rustName, e, s)
  }

  predicate AnyEmits(rustName: string -> string, cs: seq<Component>, s: GeneratedStruct)
    decreases cs, 0
  {
    exists i | 0 <= i < |cs| :: Emits(rustName, cs[i].param, s)
  }

  /** `after` is `before` with structs of the parameter's tree behind it. */
  ghost predicate Grows(rustName: string -> string, p: Param, before: seq<GeneratedStruct>,
      after: seq<GeneratedStruct>)
  {
    before <= after && forall k | |before| <= k < |after| :: Emits(rustName, p, after[k])
  }

  ghost predicate GrowsByAny(rustName: string -> string, cs: seq<Component>, before: seq<GeneratedStruct>,
      after: seq<GeneratedStruct>)
  {
    before <= after && forall k | |before| <= k < |after| :: AnyEmits(rustName, cs, after[k])
  }

  predicate EmittedBy(rustName: string -> string, params: seq<Param>, s: GeneratedStruct) {
    exists i | 0 <= i < |params| :: Emits(rustName, params[i], s)
  }

  /** `types` are the parameters' Rust types, and every struct they mention is in `order`. */
  predicate TypesFor(rustName: string -> string, types: seq<RustType>, params: seq<Param>,
      order: seq<GeneratedStruct>)
  {
    && |types| == |params|
    && forall i | 0 <= i < |params| :: Some(types[i]) == RustTypeOf(rustName, params[i]) && Covered(order, types[i])
  }

  class StructRegistry {
    /** The Rust name of a Solidity path: its last segment, made a legal identifier. */
    const rustName: string -> string
    var byPath: map<string, string>
    var nameOwner: map<string, string>
    var order: seq<GeneratedStruct>

    /** `byPath` and `nameOwner` are inverse to each other. */
    ghost predicate Inverse()
      reads this
    {
      && (forall p | p in byPath :: byPath[p] == rustName(p) && byPath[p] in nameOwner && nameOwner[byPath[p]] == p)
      && (forall n | n in nameOwner :: nameOwner[n] in byPath && byPath[nameOwner[n]] == n)
    }

    /** `open` are the paths being registered; `order` holds every other registered struct, once. */
    ghost predicate Valid(open: set<string>)
      reads this
    {
      && Inverse() && open <= byPath.Keys
      && (forall i, j | 0 <= i < j < |order| :: order[i].name != order[j].name)
      && (forall k | 0 <= k < |order| :: order[k].name in nameOwner && nameOwner[order[k].name] !in open)
      && (forall p | p in byPath && p !in open :: NamedIn(order, rustName(p)))
    }

    constructor (rustName: string -> string)
      ensures Valid({}) && order == [] && byPath == map[] && this.rustName == rustName
    {
      this.rustName := rustName;
      byPath, nameOwner, order := map[], map[], [];
    }

    /** `abi_param_rust_type` with `tuple_rust_type`. */
    method ParamRustType(p: Param, ghost open: set<string>) returns (r: Option<RustType>)
      requires Valid(open)
      modifies this
      ensures byPath.Keys <= old(byPath.Keys) + Paths(p)
      ensures r.None? ==> Unmappable(p) || Clash(rustName, old(byPath.Keys) + Paths(p))
      ensures r.Some? ==> Valid(open) && Grows(rustName, p, old(order), order)
      ensures r.Some? ==> r == RustTypeOf(rustName, p)
      ensures r.Some? && Mentioned(r.value).Some? ==> Mentioned(r.value).value in nameOwner
      ensures r.Some? && NotNested(p, open) && old(DefinedBeforeUse(order)) ==>
                DefinedBeforeUse(order) && Covered(order, r.value)
      decreases p, 1
    {
      hide DefinedBeforeUse, ComponentPaths, Clash, NamedIn;
      match p
      case Plain(t) =>
        r := if t.Some? then Some(Named(t.value)) else None;
      case ListOf(e) =>
        var inner := ParamRustType(e, open);
        GrowsWraps(rustName, p, e, old(order), order);
        r := if inner.Some? then Some(VecType(inner.value)) else None;
      case ArrayOf(e, n) =>
        var inner := ParamRustType(e, open);
        GrowsWraps(rustName, p, e, old(order), order);
        r := if inner.Some? then Some(ArrayType(inner.value, n)) else None;
      case Tuple(path, cs) =>
        if path.None? {
          return None;
        }
        var ok := RegisterStruct(path.value, cs, open);
        assert old(byPath.Keys) + {path.value} + ComponentPaths(cs) == old(byPath.Keys) + Paths(p);
        r := if ok then Some(StructType(rustName(path.value))) else None;
    }

    /** `register_struct`. */
    method RegisterStruct(path: string, components: seq<Component>, ghost open: set<string>) returns (ok: bool)
      requires Valid(open)
      modifies this
      ensures byPath.Keys <= old(byPath.Keys) + {path} + ComponentPaths(components)
      ensures ok || AnyUnmappable(components) || Clash(rustName, old(byPath.Keys) + {path} + ComponentPaths(components))
      ensures ok ==> Valid(open) && path in byPath && Grows(rustName, Tuple(Some(path), components), old(order), order)
      ensures ok && path !in old(byPath) ==> order != [] && Generates(rustName, order[|order| - 1], path, components)
      ensures ok && NotNested(Tuple(Some(path), components), open) && old(DefinedBeforeUse(order)) ==>
                DefinedBeforeUse(order) && NamedIn(order, rustName(path))
      decreases components, 1
    {
      hide *;
      if path in byPath {
        AlreadyKnown(path, components, open);
        return true;
      }
      if rustName(path) in nameOwner {
        NameTaken(path, open);
        ClashGrows(rustName, byPath.Keys + {path}, byPath.Keys + {path} + ComponentPaths(components));
        return false;
      }
      NestedInside(path, components, open);
      Open(path, open);
      var fields := FieldTypes(components, open + {path});
      if fields.None? {
        ok := false;
      } else {
        ghost var grown := order;
        OpenIsKnown(open + {path});
        Close(path, fields.value, open);
        GrowsWith(rustName, path, components, old(order), grown, order);
        ok := true;
      }
    }

    lemma AlreadyKnown(path: string, components: seq<Component>, open: set<string>)
      requires Valid(open) && path in byPath
      ensures Grows(rustName, Tuple(Some(path), components), order, order)
      ensures NotNested(Tuple(Some(path), components), open) ==> NamedIn(order, rustName(path))
    {
    }

    lemma OpenIsKnown(open: set<string>)
      requires Valid(open)
      ensures open <= byPath.Keys
    {
    }

    /** Another path owns the name. */
    lemma NameTaken(path: string, open: set<string>)
      requires Valid(open) && path !in byPath && rustName(path) in nameOwner
      ensures Clash(rustName, byPath.Keys + {path})
    {
      var other := nameOwner[rustName(path)];
      assert other != path && rustName(other) == rustName(path);
    }

    /** Mark the struct as seen before recursing, so that a self-referential one terminates. */
    method Open(path: string, ghost open: set<string>)
      requires Valid(open) && path !in byPath && rustName(path) !in nameOwner
      modifies this`byPath, this`nameOwner
      ensures Valid(open + {path}) && path in byPath && path !in open && byPath.Keys == old(byPath.Keys) + {path}
    {
      byPath := byPath[path := rustName(path)];
      nameOwner := nameOwner[rustName(path) := path];
    }

    /** The loop over a struct's fields. */
    method FieldTypes(components: seq<Component>, ghost open: set<string>) returns (r: Option<seq<GeneratedField>>)
      requires Valid(open)
      modifies this
      ensures byPath.Keys <= old(byPath.Keys) + ComponentPaths(components)
      ensures r.Some? || AnyUnmappable(components) || Clash(rustName, old(byPath.Keys) + ComponentPaths(components))
      ensures r.Some? ==> Valid(open) && GrowsByAny(rustName, components, old(order), order)
      ensures r.Some? ==> FieldsFor(rustName, r.value, components)
      ensures r.Some? && NoneNested(components, open) && old(DefinedBeforeUse(order)) ==>
                DefinedBeforeUse(order) && AllCovered(order, r.value)
      decreases components, 0
    {
      hide NotNested, DefinedBeforeUse, Unmappable, Paths, Inverse, Valid, Emits, Covered, Clash;
      var fields: seq<GeneratedField> := [];
      for i := 0 to |components|
        invariant Valid(open) && GrowsByAny(rustName, components, old(order), order)
        invariant byPath.Keys <= old(byPath.Keys) + ComponentPaths(components)
        invariant FieldsFor(rustName, fields, components[..i])
        invariant NoneNested(components, open) && old(DefinedBeforeUse(order)) ==>
            DefinedBeforeUse(order) && AllCovered(order, fields)
      {
        ghost var before, known := order, byPath.Keys;
        var t := ParamRustType(components[i].param, open);
        if t.None? {
          ClashGrows(rustName, known + Paths(components[i].param), old(byPath.Keys) + ComponentPaths(components));
          return None;
        }
        GrowsOn(rustName, components, i, old(order), before, order);
        AllCoveredLater(before, order, fields);
        fields := fields + [GeneratedField(components[i].name, t.value)];
      }
      assert components[..|components|] == components;
      return Some(fields);
    }

    /** The registrations of a whole interface, parameter by parameter. */
    method RegisterAll(params: seq<Param>) returns (r: Option<seq<RustType>>)
      requires Valid({}) && DefinedBeforeUse(order)
      modifies this
      ensures r.None? ==>
                (exists i | 0 <= i < |params| :: Unmappable(params[i]))
                || Clash(rustName, old(byPath.Keys) + AllPaths(params))
      ensures r.Some? ==> Valid({}) && old(order) <= order && TypesFor(rustName, r.value, params, order)
      ensures r.Some? ==> forall k | |old(order)| <= k < |order| :: EmittedBy(rustName, params, order[k])
      ensures r.Some? && (forall i | 0 <= i < |params| :: NotNested(params[i], {})) ==> DefinedBeforeUse(order)
    {
      hide NotNested, DefinedBeforeUse, Unmappable, Paths, Inverse, Valid, Emits, Covered, Clash, EmittedBy, TypesFor;
      var types: seq<RustType> := [];
      NoTypes(rustName, order);
      for i := 0 to |params|
        invariant Valid({}) && old(order) <= order
        invariant byPath.Keys <= old(byPath.Keys) + AllPaths(params)
        invariant TypesFor(rustName, types, params[..i], order)
        invariant forall k | |old(order)| <= k < |order| :: EmittedBy(rustName, params, order[k])
        invariant (forall j | 0 <= j < i :: NotNested(params[j], {})) ==> DefinedBeforeUse(order)
      {
        ghost var before, known := order, byPath.Keys;
        var t := ParamRustType(params[i], {});
        if t.None? {
          ClashGrows(rustName, known + Paths(params[i]), old(byPath.Keys) + AllPaths(params));
          return None;
        }
        KnownIsCovered(t.value);
        MoreTypes(rustName, types, t.value, params, i, before, order);
        types := types + [t.value];
        EmittedOn(rustName, params, i, before, order);
      }
      assert params[..|params|] == params;
      return Some(types);
    }

    lemma KnownIsCovered(t: RustType)
      requires Valid({})
      ensures Mentioned(t).Some? && Mentioned(t).value in nameOwner ==> Covered(order, t)
      ensures Mentioned(t).None? ==> Covered(order, t)
    {
    }

    /** Emit the struct, behind every struct its fields mention. */
    method Close(path: string, fields: seq<GeneratedField>, ghost open: set<string>)
      requires path in byPath && path !in open && Valid(open + {path})
      modifies this`order
      ensures Valid(open) && order == old(order) + [GeneratedStruct(rustName(path), fields)]
      ensures NamedIn(order, rustName(path))
      ensures old(DefinedBeforeUse(order)) && AllCovered(old(order), fields) ==> DefinedBeforeUse(order)
    {
      ghost var before := order;
      order := order + [GeneratedStruct(rustName(path), fields)];
      assert order[|before|].name == rustName(path);
      forall p | p in byPath && p !in open ensures NamedIn(order, rustName(p)) {
        if p != path {
          NamedLater(before, order, rustName(p));
        }
      }
      AppendDefined(before, GeneratedStruct(rustName(path), fields));
    }
  }

  /** The parameter itself and all that is inside it. */
  function Parts(p: Param): set<Param>
    decreases p
  {
    match p
    case Plain(_) => {p}
    case Tuple(_, cs) => {p} + set i, q | 0 <= i < |cs| && q in Parts(cs[i].param) :: q
    case ListOf(e) => {p} + Parts(e)
    case ArrayOf(e, _) => {p} + Parts(e)
  }

  /** An unsupported leaf type, or a tuple that is no struct. */
  predicate IsMisfit(p: Param) {
    p == Plain(None) || (p.Tuple? && p.path.None?)
  }

  /** A parameter maps to no Rust type exactly if a part of it is a leaf or a tuple that does not. */
  lemma {:induction false} UnmappableMeans(p: Param)
    ensures Unmappable(p) <==> exists q | q in Parts(p) :: IsMisfit(q)
    decreases p
  {
    match p
    case Plain(_) =>
      assert p in Parts(p);
    case Tuple(_, cs) =>
      forall i | 0 <= i < |cs|
        ensures Unmappable(cs[i].param) <==> exists q | q in Parts(cs[i].param) :: IsMisfit(q)
      {
        UnmappableMeans(cs[i].param);
      }
      assert p in Parts(p);
    case ListOf(e) =>
      UnmappableMeans(e);
      assert !IsMisfit(p) && forall q :: q in Parts(p) <==> q == p || q in Parts(e);
    case ArrayOf(e, _) =>
      UnmappableMeans(e);
      assert !IsMisfit(p) && forall q :: q in Parts(p) <==> q == p || q in Parts(e);
  }

  /** The struct does not occur among its own components, at any depth. */
  predicate FreeOfItself(p: Param) {
    p.Tuple? && p.path.Some? ==> p.path.value !in ComponentPaths(p.components)
  }

  /** Nesting is ruled out exactly if no part contains itself and none is one of `outer`. */
  lemma {:induction false} NotNestedMeans(p: Param, outer: set<string>)
    requires !Unmappable(p)
    ensures NotNested(p, outer) <==> Paths(p) !! outer && forall q | q in Parts(p) :: FreeOfItself(q)
    decreases p
  {
    match p
    case Plain(_) =>
    case ListOf(e) =>
      NotNestedMeans(e, outer);
      assert FreeOfItself(p) && forall q :: q in Parts(p) <==> q == p || q in Parts(e);
    case ArrayOf(e, _) =>
      NotNestedMeans(e, outer);
      assert FreeOfItself(p) && forall q :: q in Parts(p) <==> q == p || q in Parts(e);
    case Tuple(path, cs) =>
      var inner := outer + {path.value};
      forall i | 0 <= i < |cs|
        ensures NotNested(cs[i].param, inner) <==>
                Paths(cs[i].param) !! inner && forall q | q in Parts(cs[i].param) :: FreeOfItself(q)
      {
        NotNestedMeans(cs[i].param, inner);
      }
      TupleParts(p);
      hide Parts, Paths, ComponentPaths, Unmappable;
      if Paths(p) !! outer && forall q | q in Parts(p) :: FreeOfItself(q) {
        assert path.value in Paths(p) && FreeOfItself(p);
        forall i | 0 <= i < |cs| ensures NotNested(cs[i].param, inner) {
          assert forall c | c in Paths(cs[i].param) :: c in ComponentPaths(cs) && c in Paths(p);
          assert Paths(cs[i].param) !! inner;
          assert forall q | q in Parts(cs[i].param) :: q in Parts(p);
        }
      }
      if NotNested(p, outer) {
        assert path.value in inner && outer <= inner;
        assert forall c | c in ComponentPaths(cs) :: c !in inner;
      }
  }

  lemma TupleParts(p: Param)
    requires p.Tuple? && p.path.Some?
    ensures Paths(p) == {p.path.value} + ComponentPaths(p.components)
    ensures forall c :: c in ComponentPaths(p.components) <==>
              exists i | 0 <= i < |p.components| :: c in Paths(p.components[i].param)
    ensures forall q :: q in Parts(p) <==>
              q == p || exists i | 0 <= i < |p.components| :: q in Parts(p.components[i].param)
  {
  }

  /** A parameter without what is inside its structs. */
  function Outline(p: Param): Param {
    match p
    case Plain(t) => Plain(t)
    case Tuple(path, _) => Tuple(path, [])
    case ListOf(e) => ListOf(Outline(e))
    case ArrayOf(e, n) => ArrayOf(Outline(e), n)
  }

  /** The parameter that a Rust type is the type of, as far as the type tells. */
  function Described(t: RustType, owner: map<string, string>): Option<Param> {
    match t
    case Named(text) => Some(Plain(Some(text)))
    case StructType(n) => if n in owner then Some(Tuple(Some(owner[n]), [])) else None
    case VecType(e) =>
      (match Described(e, owner)
       case Some(p) => Some(ListOf(p))
       case None => None)
    case ArrayType(e, n) =>
      (match Described(e, owner)
       case Some(p) => Some(ArrayOf(p, n))
       case None => None)
  }

  /** The Rust type tells the parameter's nesting, sizes, leaf types and struct: nothing is mixed up. */
  lemma {:induction false} TypeTellsParam(rustName: string -> string, owner: map<string, string>, p: Param)
    requires RustTypeOf(rustName, p).Some?
    requires forall path | path in Paths(p) && rustName(path) in owner :: owner[rustName(path)] == path
    requires var t := RustTypeOf(rustName, p).value; Mentioned(t).Some? ==> Mentioned(t).value in owner
    ensures Described(RustTypeOf(rustName, p).value, owner) == Some(Outline(p))
  {
    match p
    case ListOf(e) => TypeTellsParam(rustName, owner, e);
    case ArrayOf(e, _) => TypeTellsParam(rustName, owner, e);
    case _ =>
  }

  lemma NestedInside(path: string, components: seq<Component>, open: set<string>)
    ensures NotNested(Tuple(Some(path), components), open) ==> NoneNested(components, open + {path})
  {
  }

  lemma NamedLater(before: seq<GeneratedStruct>, after: seq<GeneratedStruct>, name: string)
    requires before <= after && NamedIn(before, name)
    ensures NamedIn(after, name)
  {
    var k :| 0 <= k < |before| && before[k].name == name;
    assert after[k].name == name;
  }

  lemma CoveredLater(before: seq<GeneratedStruct>, after: seq<GeneratedStruct>, t: RustType)
    requires before <= after && Covered(before, t)
    ensures Covered(after, t)
  {
    if Mentioned(t).Some? {
      NamedLater(before, after, Mentioned(t).value);
    }
  }

  lemma AllCoveredLater(before: seq<GeneratedStruct>, after: seq<GeneratedStruct>, fields: seq<GeneratedField>)
    requires before <= after
    ensures AllCovered(before, fields) ==> AllCovered(after, fields)
  {
    forall j | 0 <= j < |fields| && Covered(before, fields[j].rustType) ensures Covered(after, fields[j].rustType) {
      CoveredLater(before, after, fields[j].rustType);
    }
  }

  lemma NoTypes(rustName: string -> string, order: seq<GeneratedStruct>)
    ensures TypesFor(rustName, [], [], order)
  {
  }

  lemma MoreTypes(rustName: string -> string, types: seq<RustType>, t: RustType, params: seq<Param>, i: nat,
      before: seq<GeneratedStruct>, after: seq<GeneratedStruct>)
    requires i < |params| && before <= after && TypesFor(rustName, types, params[..i], before)
    requires Some(t) == RustTypeOf(rustName, params[i]) && Covered(after, t)
    ensures TypesFor(rustName, types + [t], params[..i + 1], after)
  {
    forall j | 0 <= j < i ensures Covered(after, types[j]) {
      CoveredLater(before, after, types[j]);
    }
  }

  lemma EmittedOn(rustName: string -> string, params: seq<Param>, i: nat, before: seq<GeneratedStruct>,
      after: seq<GeneratedStruct>)
    requires i < |params| && Grows(rustName, params[i], before, after)
    ensures forall k | |before| <= k < |after| :: EmittedBy(rustName, params, after[k])
  {
  }

  lemma ClashGrows(rustName: string -> string, few: set<string>, many: set<string>)
    requires few <= many
    ensures Clash(rustName, few) ==> Clash(rustName, many)
  {
  }

  lemma GrowsWraps(rustName: string -> string, p: Param, e: Param, before: seq<GeneratedStruct>,
      after: seq<GeneratedStruct>)
    requires (p.ListOf? || p.ArrayOf?) && e == p.elem
    ensures Grows(rustName, e, before, after) ==> Grows(rustName, p, before, after)
  {
  }

  lemma GrowsOn(rustName: string -> string, cs: seq<Component>, i: nat, start: seq<GeneratedStruct>,
      before: seq<GeneratedStruct>, after: seq<GeneratedStruct>)
    requires i < |cs| && GrowsByAny(rustName, cs, start, before) && Grows(rustName, cs[i].param, before, after)
    ensures GrowsByAny(rustName, cs, start, after)
  {
    forall k | |start| <= k < |after| ensures AnyEmits(rustName, cs, after[k]) {
      if k < |before| {
        assert after[k] == before[k];
      }
    }
  }

  lemma GrowsWith(rustName: string -> string, path: string, cs: seq<Component>, start: seq<GeneratedStruct>,
      before: seq<GeneratedStruct>, after: seq<GeneratedStruct>)
    requires GrowsByAny(rustName, cs, start, before) && |after| == |before| + 1 && before == after[..|before|]
    requires after[|before|].name == rustName(path) && FieldsFor(rustName, after[|before|].fields, cs)
    ensures Grows(rustName, Tuple(Some(path), cs), start, after)
    ensures Generates(rustName, after[|after| - 1], path, cs)
  {
    forall k | |start| <= k < |after| ensures Emits(rustName, Tuple(Some(path), cs), after[k]) {
      if k < |before| {
        assert after[k] == before[k];
      }
    }
  }

  lemma AppendDefined(order: seq<GeneratedStruct>, s: GeneratedStruct)
    ensures DefinedBeforeUse(order) && AllCovered(order, s.fields) ==> DefinedBeforeUse(order + [s])
  {
    var after := order + [s];
    assert after[..|order|] == order;
    forall k | 0 <= k < |order| ensures after[..k] == order[..k] {
    }
  }
}
