/**
 * Expansion is substitution: on registries in which no declaration contains itself, the canonical type of an
 * expanded declaration is the name of the type with every user-defined name replaced by what it stands for.
 */
module ExpansionNames {
  import opened Wrappers
  import opened AbiTypes
  import opened TypeNames
  import opened StructExpansion

  /** A declaration that stands for other types. */
  predicate IsNode(reg: Registry, n: string) {
    IsStruct(reg, n) || IsUdt(reg, n)
  }

  /** A field of struct `a`, or the type under the value type `a`, mentions `b`. */
  predicate Refers(reg: Registry, a: string, b: string) {
    || (IsStruct(reg, a) && exists i | 0 <= i < |reg[a].fields| :: b in Mentions(reg[a].fields[i].ty))
    || (IsUdt(reg, a) && b in Mentions(reg[a].underlying))
  }

  /** `rank` shows that no declaration contains itself: each ranks above those it refers to. */
  ghost predicate Acyclic(reg: Registry, rank: string -> nat) {
    forall a, b | Refers(reg, a, b) && IsNode(reg, b) :: rank(b) < rank(a)
  }

  /** Every struct and value type that `ty` mentions ranks below `bound`. */
  ghost predicate Below(ty: SolType, reg: Registry, rank: string -> nat, bound: nat) {
    forall c | c in Mentions(ty) && IsNode(reg, c) :: rank(c) < bound
  }

  lemma FieldIsBelow(n: string, i: nat, reg: Registry, rank: string -> nat)
    requires Acyclic(reg, rank) && IsStruct(reg, n) && i < |reg[n].fields|
    ensures Below(reg[n].fields[i].ty, reg, rank, rank(n))
  {
    forall c | c in Mentions(reg[n].fields[i].ty) && IsNode(reg, c) ensures rank(c) < rank(n) {
      assert Refers(reg, n, c);
    }
  }

  lemma UnderlyingIsBelow(n: string, reg: Registry, rank: string -> nat)
    requires Acyclic(reg, rank) && IsUdt(reg, n)
    ensures Below(reg[n].underlying, reg, rank, rank(n))
  {
    forall c | c in Mentions(reg[n].underlying) && IsNode(reg, c) ensures rank(c) < rank(n) {
      assert Refers(reg, n, c);
    }
  }

  lemma MemberIsBelow(ts: seq<SolType>, i: nat, reg: Registry, rank: string -> nat, bound: nat)
    requires i < |ts| && Below(TupleOf(ts), reg, rank, bound)
    ensures Below(ts[i], reg, rank, bound)
  {
    assert forall c | c in Mentions(ts[i]) :: c in Mentions(TupleOf(ts));
  }

  lemma AcyclicRanksUdts(reg: Registry, rank: string -> nat)
    requires Acyclic(reg, rank)
    ensures UdtsRanked(reg, rank)
  {
    forall n, c | IsUdt(reg, n) && c in Mentions(reg[n].underlying) && IsUdt(reg, c) ensures rank(c) < rank(n) {
      assert Refers(reg, n, c);
    }
  }

  /** A type as it may stand in an ABI: resolved names, no empty tuple. */
  predicate Complete(ty: SolType, reg: Registry) {
    match ty
    case Elementary(n) => IsPlain(n)
    case Unsupported => false
    case Array(e, _) => Complete(e, reg)
    case TupleOf(ts) => |ts| > 0 && forall i | 0 <= i < |ts| :: Complete(ts[i], reg)
    case Custom(n) => n in reg
  }

  predicate CompleteRegistry(reg: Registry) {
    forall n | n in reg ::
      match reg[n]
      case EnumDef => true
      case UdtDef(underlying) => Complete(underlying, reg)
      case StructDef(fields) => |fields| > 0 && forall i | 0 <= i < |fields| :: Complete(fields[i].ty, reg)
  }

  /** Full substitution: structs by the tuple of their fields' types, enums by `uint8`, value types by theirs. */
  ghost function Substitute(ty: SolType, reg: Registry, rank: string -> nat, bound: nat): SolType
    requires Acyclic(reg, rank) && Below(ty, reg, rank, bound)
    decreases bound, ty, 0
  {
    match ty
    case Array(e, size) => Array(Substitute(e, reg, rank, bound), size)
    case TupleOf(ts) =>
      TupleOf(seq(|ts|, i requires 0 <= i < |ts| => SubstituteNth(ts, i, reg, rank, bound)))
    case Custom(n) =>
      if n !in reg then ty
      else (match reg[n]
            case EnumDef => Elementary("uint8")
            case UdtDef(underlying) =>
              assert n in Mentions(ty);
              UnderlyingIsBelow(n, reg, rank);
              Substitute(underlying, reg, rank, rank(n))
            case StructDef(fields) =>
              assert n in Mentions(ty);
              TupleOf(seq(|fields|, i requires 0 <= i < |fields| => SubstituteField(n, i, reg, rank))))
    case _ => ty
  }

  ghost function SubstituteNth(ts: seq<SolType>, i: nat, reg: Registry, rank: string -> nat, bound: nat): SolType
    requires Acyclic(reg, rank) && Below(TupleOf(ts), reg, rank, bound) && i < |ts|
    decreases bound, ts, 0
  {
    MemberIsBelow(ts, i, reg, rank, bound);
    Substitute(ts[i], reg, rank, bound)
  }

  ghost function SubstituteField(n: string, i: nat, reg: Registry, rank: string -> nat): SolType
    requires Acyclic(reg, rank) && IsStruct(reg, n) && i < |reg[n].fields|
    decreases rank(n), reg[n].fields[i].ty, 1
  {
    FieldIsBelow(n, i, reg, rank);
    Substitute(reg[n].fields[i].ty, reg, rank, rank(n))
  }

  /** The canonical name of a type without user-defined names. */
  function TypeName(ty: SolType): string
    decreases ty, 0
  {
    match ty
    case Elementary(n) => n
    case Unsupported => ""
    case Array(e, size) => TypeName(e) + SizeSuffix(size)
    case TupleOf(ts) => "(" + Join(TypeNamesOf(ts)) + ")"
    case Custom(n) => n
  }

  function TypeNamesOf(ts: seq<SolType>): (names: seq<string>)
    ensures |names| == |ts| && forall i | 0 <= i < |ts| :: names[i] == TypeName(ts[i])
    decreases ts, 0
  {
    seq(|ts|, i requires 0 <= i < |ts| => TypeName(ts[i]))
  }

  /** `canonical_type` prints the entry as `s`: a tuple's expansion or a plain name, then array suffixes. */
  ghost predicate Prints(p: AbiParam, s: string) {
    exists head, suffix ::
      && (suffix == "" || suffix[0] == '[') && s == head + suffix
      && PrintsHead(p, head, suffix)
  }

  ghost predicate PrintsHead(p: AbiParam, head: string, suffix: string) {
    || (IsPlain(head) && p.paramType == head + suffix)
    || (p.paramType == "tuple" + suffix && CanonicalComponents(p.components).Some?
        && head == "(" + CanonicalComponents(p.components).value + ")")
  }

  lemma PrintsCanonical(p: AbiParam, s: string)
    requires Prints(p, s)
    ensures Canonical(p) == Some(s)
  {
    var head, suffix :| (suffix == "" || suffix[0] == '[') && s == head + suffix && PrintsHead(p, head, suffix);
    if IsPlain(head) && p.paramType == head + suffix {
      PlainSuffix(p, head, suffix);
    } else {
      TupleSuffix(p, suffix);
    }
  }

  lemma PrintsPlain(p: AbiParam)
    requires IsPlain(p.paramType)
    ensures Prints(p, p.paramType)
  {
    assert p.paramType + "" == p.paramType;
    assert PrintsHead(p, p.paramType, "");
  }

  lemma PrintsArray(inner: AbiParam, s: string, name: string, size: Option<nat>)
    requires Prints(inner, s)
    ensures Prints(AbiParam(name, inner.paramType + SizeSuffix(size), inner.components), s + SizeSuffix(size))
  {
    var head, suffix :| (suffix == "" || suffix[0] == '[') && s == head + suffix && PrintsHead(inner, head, suffix);
    var p, more := AbiParam(name, inner.paramType + SizeSuffix(size), inner.components), suffix + SizeSuffix(size);
    Regroup(head, suffix, SizeSuffix(size));
    Regroup("tuple", suffix, SizeSuffix(size));
    assert PrintsHead(p, head, more) && more[0] == '[';
  }

  /** A tuple entry whose components print as `names`. */
  lemma PrintsTuple(p: AbiParam, names: seq<string>)
    requires p.paramType == "tuple" && |p.components| == |names| > 0
    requires forall i | 0 <= i < |names| :: Canonical(p.components[i]) == Some(names[i])
    ensures Prints(p, "(" + Join(names) + ")")
  {
    var ps := p.components;
    assert seq(|ps|, i requires 0 <= i < |ps| => Canonical(ps[i]).value) == names;
    assert CanonicalComponents(ps) == Some(Join(names));
    var head := "(" + Join(names) + ")";
    assert head + "" == head && PrintsHead(p, head, "");
  }

  // ---------------------------------------------------------------------------
  // Entries one by one
  // ---------------------------------------------------------------------------

  /** An entry has the name it is declared with; fields keep theirs, and members of an inline tuple have none. */
  lemma {:induction false} EntriesKeepNames(name: string, ty: SolType, reg: Registry, active: seq<string>,
      udts: string -> nat)
    requires UdtsRanked(reg, udts)
    ensures Expand(name, ty, reg, active, udts).name == name
    ensures ty.TupleOf? ==>
              forall p | p in Expand(name, ty, reg, active, udts).components :: p.name == ""
    ensures ty.Custom? && ty.name !in active && IsStruct(reg, ty.name) ==>
              var fields, components := reg[ty.name].fields, Expand(name, ty, reg, active, udts).components;
              |components| == |fields| && forall i | 0 <= i < |fields| :: components[i].name == fields[i].name
    decreases Remaining(reg, active), Height(ty, reg, udts) + 1, ty
  {
    match ty
    case TupleOf(ts) =>
      forall i | 0 <= i < |ts| ensures Expand("", ts[i], reg, active, udts).name == "" {
        EntriesKeepNames("", ts[i], reg, active, udts);
      }
    case Custom(n) =>
      if n !in active && IsUdt(reg, n) {
        UnderlyingIsLower(n, reg, udts);
        EntriesKeepNames(name, reg[n].underlying, reg, active, udts);
      } else if n !in active && IsStruct(reg, n) {
        var fields := reg[n].fields;
        EnteringShrinks(n, reg, active);
        forall i | 0 <= i < |fields|
          ensures Expand(fields[i].name, fields[i].ty, reg, active + [n], udts).name == fields[i].name
        {
          EntriesKeepNames(fields[i].name, fields[i].ty, reg, active + [n], udts);
        }
      }
    case _ =>
  }

  /** The declaration of a type of the codec. */
  function Declared(t: Type): SolType
    decreases t, 0
  {
    match t
    case FixedArray(e, n) => Array(Declared(e), Some(n))
    case Vec(e) => Array(Declared(e), None)
    case Tuple(ts) => TupleOf(DeclaredAll(ts))
    case _ => Elementary(SolName(t))
  }

  function DeclaredAll(ts: seq<Type>): (tys: seq<SolType>)
    ensures |tys| == |ts| && forall i | 0 <= i < |ts| :: tys[i] == Declared(ts[i])
    decreases ts, 0
  {
    seq(|ts|, i requires 0 <= i < |ts| => Declared(ts[i]))
  }

  /** The entry made from a declaration is the one that the Rust type makes for itself. */
  lemma {:induction false} DeclarationMatchesRust(name: string, t: Type, reg: Registry, active: seq<string>,
      udts: string -> nat)
    requires UdtsRanked(reg, udts)
    ensures Expand(name, Declared(t), reg, active, udts) == AbiParamOf(name, t)
    decreases t
  {
    match t
    case FixedArray(e, _) => DeclarationMatchesRust("", e, reg, active, udts);
    case Vec(e) => DeclarationMatchesRust("", e, reg, active, udts);
    case Tuple(ts) =>
      forall i | 0 <= i < |ts| ensures Expand("", Declared(ts[i]), reg, active, udts) == AbiParamOf("", ts[i]) {
        DeclarationMatchesRust("", ts[i], reg, active, udts);
      }
      assert ExpandAll(DeclaredAll(ts), reg, active, udts) == ParamsOf(ts);
    case _ =>
  }

  /** An enum is a `u8`; a name that is active or not in the registry stays; mappings and functions have no type. */
  lemma NamesOnTheirOwn(name: string, n: string, reg: Registry, active: seq<string>, udts: string -> nat)
    requires UdtsRanked(reg, udts)
    ensures n !in active && n in reg && reg[n].EnumDef? ==>
              Expand(name, Custom(n), reg, active, udts) == AbiParamOf(name, Uint(1))
    ensures n in active || n !in reg ==>
              Expand(name, Custom(n), reg, active, udts) == AbiParam(name, n, [])
    ensures Expand(name, Unsupported, reg, active, udts) == AbiParam(name, "", [])
  {
    assert Decimal(8 * 1) == "8";
    assert SolName(Uint(1)) == "uint8";
  }

  // ---------------------------------------------------------------------------
  // Names
  // ---------------------------------------------------------------------------

  /** The structs being expanded rank at or above `bound`. */
  ghost predicate ActiveAbove(active: seq<string>, reg: Registry, rank: string -> nat, bound: nat) {
    forall a | a in active :: IsNode(reg, a) && rank(a) >= bound
  }

  /**
   * On an acyclic registry the canonical type of every expanded entry is the name of the type with all
   * structs, enums and value types substituted.
   */
  lemma {:induction false} ExpansionIsSubstitution(name: string, ty: SolType, reg: Registry, active: seq<string>,
      udts: string -> nat, rank: string -> nat, bound: nat)
    requires UdtsRanked(reg, udts) && CompleteRegistry(reg) && Acyclic(reg, rank)
    requires Complete(ty, reg) && Below(ty, reg, rank, bound) && ActiveAbove(active, reg, rank, bound)
    ensures Prints(Expand(name, ty, reg, active, udts), TypeName(Substitute(ty, reg, rank, bound)))
    decreases bound, ty, 1
  {
    match ty
    case Elementary(n) =>
      PrintsPlain(Leaf(name, n));
    case Array(e, size) =>
      ExpansionIsSubstitution("", e, reg, active, udts, rank, bound);
      PrintsArray(Expand("", e, reg, active, udts), TypeName(Substitute(e, reg, rank, bound)), name, size);
    case TupleOf(ts) =>
      TupleIsSubstitution(name, ts, reg, active, udts, rank, bound);
    case Custom(n) =>
      assert n in Mentions(ty);
      match reg[n]
      case EnumDef =>
        PrintsPlain(Leaf(name, "uint8"));
      case UdtDef(underlying) =>
        UnderlyingIsBelow(n, reg, rank);
        ExpansionIsSubstitution(name, underlying, reg, active, udts, rank, rank(n));
      case StructDef(fields) =>
        StructIsSubstitution(name, n, reg, active, udts, rank, bound);
  }

  lemma {:induction false} TupleIsSubstitution(name: string, ts: seq<SolType>, reg: Registry, active: seq<string>,
      udts: string -> nat, rank: string -> nat, bound: nat)
    requires UdtsRanked(reg, udts) && CompleteRegistry(reg) && Acyclic(reg, rank)
    requires Complete(TupleOf(ts), reg) && Below(TupleOf(ts), reg, rank, bound)
    requires ActiveAbove(active, reg, rank, bound)
    ensures Prints(Expand(name, TupleOf(ts), reg, active, udts), TypeName(Substitute(TupleOf(ts), reg, rank, bound)))
    decreases bound, ts, 0
  {
    var p := Expand(name, TupleOf(ts), reg, active, udts);
    var us := Substitute(TupleOf(ts), reg, rank, bound).types;
    forall i | 0 <= i < |ts| ensures Canonical(p.components[i]) == Some(TypeNamesOf(us)[i]) {
      MemberIsBelow(ts, i, reg, rank, bound);
      assert us[i] == SubstituteNth(ts, i, reg, rank, bound);
      ExpansionIsSubstitution("", ts[i], reg, active, udts, rank, bound);
      PrintsCanonical(p.components[i], TypeName(us[i]));
    }
    PrintsTuple(p, TypeNamesOf(us));
  }

  lemma {:induction false} StructIsSubstitution(name: string, n: string, reg: Registry, active: seq<string>,
      udts: string -> nat, rank: string -> nat, bound: nat)
    requires UdtsRanked(reg, udts) && CompleteRegistry(reg) && Acyclic(reg, rank)
    requires IsStruct(reg, n) && rank(n) < bound && Below(Custom(n), reg, rank, bound)
    requires ActiveAbove(active, reg, rank, bound)
    ensures Prints(Expand(name, Custom(n), reg, active, udts), TypeName(Substitute(Custom(n), reg, rank, bound)))
    decreases bound, Custom(n), 0
  {
    var fields := reg[n].fields;
    var p := Expand(name, Custom(n), reg, active, udts);
    var us := Substitute(Custom(n), reg, rank, bound).types;
    forall i | 0 <= i < |fields| ensures Canonical(p.components[i]) == Some(TypeNamesOf(us)[i]) {
      FieldIsBelow(n, i, reg, rank);
      assert us[i] == SubstituteField(n, i, reg, rank);
      ExpansionIsSubstitution(fields[i].name, fields[i].ty, reg, active + [n], udts, rank, rank(n));
      PrintsCanonical(p.components[i], TypeName(us[i]));
    }
    PrintsTuple(p, TypeNamesOf(us));
  }

  /** The canonical type string of a declaration, as it enters the function's selector. */
  lemma DeclarationIsCanonical(name: string, ty: SolType, reg: Registry, udts: string -> nat, rank: string -> nat,
      bound: nat)
    requires UdtsRanked(reg, udts) && CompleteRegistry(reg) && Acyclic(reg, rank)
    requires Complete(ty, reg) && Below(ty, reg, rank, bound)
    ensures Canonical(Expand(name, ty, reg, [], udts)) == Some(TypeName(Substitute(ty, reg, rank, bound)))
    ensures Mentions(Substitute(ty, reg, rank, bound)) == {}
  {
    ExpansionIsSubstitution(name, ty, reg, [], udts, rank, bound);
    PrintsCanonical(Expand(name, ty, reg, [], udts), TypeName(Substitute(ty, reg, rank, bound)));
    SubstituteResolves(ty, reg, rank, bound);
  }

  lemma {:induction false} SubstituteResolves(ty: SolType, reg: Registry, rank: string -> nat, bound: nat)
    requires CompleteRegistry(reg) && Acyclic(reg, rank)
    requires Complete(ty, reg) && Below(ty, reg, rank, bound)
    ensures Mentions(Substitute(ty, reg, rank, bound)) == {}
    decreases bound, ty
  {
    match ty
    case Array(e, _) =>
      SubstituteResolves(e, reg, rank, bound);
    case TupleOf(ts) =>
      forall i | 0 <= i < |ts| ensures Mentions(SubstituteNth(ts, i, reg, rank, bound)) == {} {
        MemberIsBelow(ts, i, reg, rank, bound);
        SubstituteResolves(ts[i], reg, rank, bound);
      }
    case Custom(n) =>
      assert n in Mentions(ty);
      if reg[n].StructDef? {
        forall i | 0 <= i < |reg[n].fields| ensures Mentions(SubstituteField(n, i, reg, rank)) == {} {
          FieldIsBelow(n, i, reg, rank);
          SubstituteResolves(reg[n].fields[i].ty, reg, rank, rank(n));
        }
      } else if reg[n].UdtDef? {
        UnderlyingIsBelow(n, reg, rank);
        SubstituteResolves(reg[n].underlying, reg, rank, rank(n));
      }
    case _ =>
  }
}
