/**
 * When the cycle fallback of the expansion fires, and when the expansion ends at all.
 */
module ExpansionCycles {
  import opened Wrappers
  import opened TypeNames
  import opened StructExpansion
  import opened ExpansionNames

  // ---------------------------------------------------------------------------
  // The fallback fires on cycles
  // ---------------------------------------------------------------------------

  predicate IsPath(reg: Registry, p: seq<string>) {
    |p| > 0 && forall i | 0 <= i < |p| - 1 :: Refers(reg, p[i], p[i + 1])
  }

  ghost predicate Reaches(reg: Registry, a: string, b: string) {
    exists p :: IsPath(reg, p) && p[0] == a && p[|p| - 1] == b
  }

  /** The struct `c` contains itself, directly or through structs and value types. */
  ghost predicate OnCycle(reg: Registry, c: string) {
    IsStruct(reg, c) && exists d :: Refers(reg, c, d) && Reaches(reg, d, c)
  }

  /** The path ends at an active name, or at a struct that it has already passed. */
  predicate Closes(reg: Registry, p: seq<string>, active: seq<string>)
    requires |p| > 0
  {
    var last := p[|p| - 1];
    last in active || (IsStruct(reg, last) && last in p[..|p| - 1])
  }

  lemma {:induction false} MentionFires(ty: SolType, reg: Registry, active: seq<string>, udts: string -> nat, c: string)
    requires UdtsRanked(reg, udts) && c in Mentions(ty) && Fires(Custom(c), reg, active, udts)
    ensures Fires(ty, reg, active, udts)
    decreases ty
  {
    match ty
    case Array(e, _) => MentionFires(e, reg, active, udts, c);
    case TupleOf(ts) =>
      var i :| 0 <= i < |ts| && c in Mentions(ts[i]);
      MentionFires(ts[i], reg, active, udts, c);
    case _ =>
  }

  /** Behind its first name, the path closes the same way, or at that name if it is a struct just entered. */
  lemma RestCloses(reg: Registry, p: seq<string>, active: seq<string>)
    requires |p| > 1 && Closes(reg, p, active)
    ensures Closes(reg, p[1..], active) || (IsStruct(reg, p[0]) && p[|p| - 1] == p[0])
    ensures IsStruct(reg, p[0]) ==> Closes(reg, p[1..], active + [p[0]])
  {
    var rest, last := p[1..], p[|p| - 1];
    assert rest[|rest| - 1] == last;
    if last !in active {
      var k :| 0 <= k < |p| - 1 && p[k] == last;
      assert k > 0 ==> rest[..|rest| - 1][k - 1] == last;
    }
  }

  /** Along a path that comes back to an active name, or to a struct of its own, the fallback fires. */
  lemma {:induction false} PathFires(reg: Registry, p: seq<string>, active: seq<string>, udts: string -> nat)
    requires UdtsRanked(reg, udts) && IsPath(reg, p) && Closes(reg, p, active)
    ensures Fires(Custom(p[0]), reg, active, udts)
    decreases |p|
  {
    if p[0] !in active {
      var rest := p[1..];
      assert Refers(reg, p[0], p[1]);
      RestCloses(reg, p, active);
      if IsStruct(reg, p[0]) {
        PathFires(reg, rest, active + [p[0]], udts);
        var i :| 0 <= i < |reg[p[0]].fields| && p[1] in Mentions(reg[p[0]].fields[i].ty);
        MentionFires(reg[p[0]].fields[i].ty, reg, active + [p[0]], udts, p[1]);
      } else {
        PathFires(reg, rest, active, udts);
        MentionFires(reg[p[0]].underlying, reg, active, udts, p[1]);
      }
    }
  }

  lemma {:induction false} FiringMention(ty: SolType, reg: Registry, active: seq<string>, udts: string -> nat)
    returns (c: string)
    requires UdtsRanked(reg, udts) && Fires(ty, reg, active, udts)
    ensures c in Mentions(ty) && Fires(Custom(c), reg, active, udts)
    decreases ty
  {
    match ty
    case Array(e, _) => c := FiringMention(e, reg, active, udts);
    case TupleOf(ts) =>
      var i :| 0 <= i < |ts| && Fires(ts[i], reg, active, udts);
      c := FiringMention(ts[i], reg, active, udts);
    case Custom(n) => c := n;
  }

  lemma ClosesBehind(reg: Registry, n: string, rest: seq<string>, active: seq<string>)
    requires |rest| > 0
    ensures Closes(reg, rest, active) ==> Closes(reg, [n] + rest, active)
    ensures IsStruct(reg, n) && Closes(reg, rest, active + [n]) ==> Closes(reg, [n] + rest, active)
  {
    var p := [n] + rest;
    assert p[..|p| - 1] == [n] + rest[..|rest| - 1];
  }

  /** Where the fallback fires there is such a path. */
  lemma {:induction false} FiringPath(n: string, reg: Registry, active: seq<string>, udts: string -> nat)
    returns (p: seq<string>)
    requires UdtsRanked(reg, udts) && Fires(Custom(n), reg, active, udts)
    ensures IsPath(reg, p) && p[0] == n && Closes(reg, p, active)
    decreases Remaining(reg, active), Height(Custom(n), reg, udts)
  {
    p := [n];
    if n !in active {
      if IsUdt(reg, n) {
        UnderlyingIsLower(n, reg, udts);
        var c := FiringMention(reg[n].underlying, reg, active, udts);
        var rest := FiringPath(c, reg, active, udts);
        p := [n] + rest;
        assert Refers(reg, n, c);
        ClosesBehind(reg, n, rest, active);
      } else {
        EnteringShrinks(n, reg, active);
        var i :| 0 <= i < |reg[n].fields| && Fires(reg[n].fields[i].ty, reg, active + [n], udts);
        var c := FiringMention(reg[n].fields[i].ty, reg, active + [n], udts);
        var rest := FiringPath(c, reg, active + [n], udts);
        p := [n] + rest;
        assert Refers(reg, n, c);
        ClosesBehind(reg, n, rest, active);
      }
    }
  }

  lemma SubPath(reg: Registry, p: seq<string>, i: nat, j: nat)
    requires IsPath(reg, p) && i <= j < |p|
    ensures Reaches(reg, p[i], p[j])
  {
    var q := p[i..j + 1];
    assert IsPath(reg, q) && q[0] == p[i] && q[|q| - 1] == p[j];
  }

  lemma FiringLeadsToCycle(n: string, reg: Registry, udts: string -> nat) returns (c: string)
    requires UdtsRanked(reg, udts) && Fires(Custom(n), reg, [], udts)
    ensures Reaches(reg, n, c) && OnCycle(reg, c)
  {
    hide Fires, UdtsRanked, Refers;
    var p := FiringPath(n, reg, [], udts);
    var i :| 0 <= i < |p| - 1 && p[i] == p[|p| - 1];
    c := p[i];
    SubPath(reg, p, 0, i);
    SubPath(reg, p, i + 1, |p| - 1);
    assert Refers(reg, p[i], p[i + 1]);
  }

  lemma CycleFires(n: string, c: string, reg: Registry, udts: string -> nat)
    requires UdtsRanked(reg, udts) && Reaches(reg, n, c) && OnCycle(reg, c)
    ensures Fires(Custom(n), reg, [], udts)
  {
    hide Fires, UdtsRanked, Refers;
    var p :| IsPath(reg, p) && p[0] == n && p[|p| - 1] == c;
    var d :| Refers(reg, c, d) && Reaches(reg, d, c);
    var q :| IsPath(reg, q) && q[0] == d && q[|q| - 1] == c;
    assert (p + q)[|p| - 1] == c && (p + q)[|p|] == d;
    assert (p + q)[..|p + q| - 1][|p| - 1] == c;
    PathFires(reg, p + q, [], udts);
  }

  /** The fallback fires in the expansion of a name exactly when it leads to a struct that contains itself. */
  lemma FiresOnlyOnCycles(n: string, reg: Registry, udts: string -> nat)
    requires UdtsRanked(reg, udts)
    ensures Fires(Custom(n), reg, [], udts) <==> exists c :: Reaches(reg, n, c) && OnCycle(reg, c)
  {
    hide Fires, UdtsRanked, Reaches, OnCycle;
    if Fires(Custom(n), reg, [], udts) {
      var c := FiringLeadsToCycle(n, reg, udts);
    }
    if c :| Reaches(reg, n, c) && OnCycle(reg, c) {
      CycleFires(n, c, reg, udts);
    }
  }

  // ---------------------------------------------------------------------------
  // A registry without cycles has a ranking
  // ---------------------------------------------------------------------------

  /** How many declarations deep the expansion of `ty` goes. */
  ghost function Depth(ty: SolType, reg: Registry, active: seq<string>, udts: string -> nat): nat
    requires UdtsRanked(reg, udts)
    decreases Remaining(reg, active), Height(ty, reg, udts) + 1, ty, 0
  {
    match ty
    case Array(e, _) => Depth(e, reg, active, udts)
    case TupleOf(ts) => DepthOfTypes(ts, |ts|, reg, active, udts)
    case Custom(n) =>
      if n in active then 0
      else if IsUdt(reg, n) then
        UnderlyingIsLower(n, reg, udts);
        1 + Depth(reg[n].underlying, reg, active, udts)
      else if IsStruct(reg, n) then 1 + DepthOfFields(n, |reg[n].fields|, reg, active, udts)
      else 0
    case _ => 0
  }

  ghost function DepthOfTypes(ts: seq<SolType>, k: nat, reg: Registry, active: seq<string>, udts: string -> nat)
      : (d: nat)
    requires UdtsRanked(reg, udts) && k <= |ts|
    ensures forall i | 0 <= i < k :: Depth(ts[i], reg, active, udts) <= d
    decreases Remaining(reg, active), Height(TupleOf(ts), reg, udts) + 1, ts, k
  {
    if k == 0 then 0
    else
      var d, e := DepthOfTypes(ts, k - 1, reg, active, udts), Depth(ts[k - 1], reg, active, udts);
      if d > e then d else e
  }

  ghost function DepthOfFields(n: string, k: nat, reg: Registry, active: seq<string>, udts: string -> nat): nat
    requires UdtsRanked(reg, udts) && IsStruct(reg, n) && n !in active && k <= |reg[n].fields|
    decreases Remaining(reg, active), 0, k
  {
    if k == 0 then 0
    else
      EnteringShrinks(n, reg, active);
      var d := DepthOfFields(n, k - 1, reg, active, udts);
      var e := Depth(reg[n].fields[k - 1].ty, reg, active + [n], udts);
      if d > e then d else e
  }

  lemma {:induction false} FieldIsShallower(n: string, k: nat, i: nat, reg: Registry, active: seq<string>,
      udts: string -> nat)
    requires UdtsRanked(reg, udts) && IsStruct(reg, n) && n !in active && i < k <= |reg[n].fields|
    ensures Depth(reg[n].fields[i].ty, reg, active + [n], udts) <= DepthOfFields(n, k, reg, active, udts)
  {
    if i < k - 1 {
      FieldIsShallower(n, k - 1, i, reg, active, udts);
    }
  }

  /** Where the fallback does not fire, the depth does not depend on the names being expanded. */
  lemma {:induction false} DepthIsIntrinsic(ty: SolType, reg: Registry, a: seq<string>, b: seq<string>,
      udts: string -> nat)
    requires UdtsRanked(reg, udts) && !Fires(ty, reg, a, udts) && !Fires(ty, reg, b, udts)
    ensures Depth(ty, reg, a, udts) == Depth(ty, reg, b, udts)
    decreases Remaining(reg, a), Height(ty, reg, udts) + 1, ty, 0
  {
    match ty
    case Array(e, _) => DepthIsIntrinsic(e, reg, a, b, udts);
    case TupleOf(ts) => TypesDepthIsIntrinsic(ts, |ts|, reg, a, b, udts);
    case Custom(n) =>
      if IsStruct(reg, n) {
        FieldsDepthIsIntrinsic(n, |reg[n].fields|, reg, a, b, udts);
      } else if IsUdt(reg, n) {
        UnderlyingIsLower(n, reg, udts);
        DepthIsIntrinsic(reg[n].underlying, reg, a, b, udts);
      }
    case _ =>
  }

  lemma {:induction false} TypesDepthIsIntrinsic(ts: seq<SolType>, k: nat, reg: Registry, a: seq<string>,
      b: seq<string>, udts: string -> nat)
    requires UdtsRanked(reg, udts) && k <= |ts|
    requires forall i | 0 <= i < |ts| :: !Fires(ts[i], reg, a, udts) && !Fires(ts[i], reg, b, udts)
    ensures DepthOfTypes(ts, k, reg, a, udts) == DepthOfTypes(ts, k, reg, b, udts)
    decreases Remaining(reg, a), Height(TupleOf(ts), reg, udts) + 1, ts, k
  {
    if k > 0 {
      TypesDepthIsIntrinsic(ts, k - 1, reg, a, b, udts);
      DepthIsIntrinsic(ts[k - 1], reg, a, b, udts);
    }
  }

  lemma {:induction false} FieldsDepthIsIntrinsic(n: string, k: nat, reg: Registry, a: seq<string>, b: seq<string>,
      udts: string -> nat)
    requires UdtsRanked(reg, udts) && IsStruct(reg, n) && n !in a && n !in b && k <= |reg[n].fields|
    requires !FieldFires(n, reg, a, udts) && !FieldFires(n, reg, b, udts)
    ensures DepthOfFields(n, k, reg, a, udts) == DepthOfFields(n, k, reg, b, udts)
    decreases Remaining(reg, a), 0, k
  {
    if k > 0 {
      EnteringShrinks(n, reg, a);
      FieldsDepthIsIntrinsic(n, k - 1, reg, a, b, udts);
      DepthIsIntrinsic(reg[n].fields[k - 1].ty, reg, a + [n], b + [n], udts);
    }
  }

  /** A name mentioned in a type is no deeper than the type, and fires no fallback that the type does not. */
  lemma {:induction false} MentionedIsShallower(ty: SolType, reg: Registry, active: seq<string>, udts: string -> nat,
      c: string)
    requires UdtsRanked(reg, udts) && !Fires(ty, reg, active, udts) && c in Mentions(ty)
    ensures !Fires(Custom(c), reg, active, udts)
    ensures Depth(Custom(c), reg, active, udts) <= Depth(ty, reg, active, udts)
    decreases ty
  {
    match ty
    case Array(e, _) => MentionedIsShallower(e, reg, active, udts, c);
    case TupleOf(ts) =>
      var i :| 0 <= i < |ts| && c in Mentions(ts[i]);
      MentionedIsShallower(ts[i], reg, active, udts, c);
    case _ =>
  }

  /** What a declaration refers to is less deep. */
  lemma ReferredIsShallower(a: string, b: string, reg: Registry, udts: string -> nat)
    requires UdtsRanked(reg, udts) && Refers(reg, a, b)
    requires !Fires(Custom(a), reg, [], udts) && !Fires(Custom(b), reg, [], udts)
    ensures Depth(Custom(b), reg, [], udts) < Depth(Custom(a), reg, [], udts)
  {
    if IsStruct(reg, a) {
      var i :| 0 <= i < |reg[a].fields| && b in Mentions(reg[a].fields[i].ty);
      assert [] + [a] == [a];
      assert !FieldFires(a, reg, [], udts);
      FieldIsShallower(a, |reg[a].fields|, i, reg, [], udts);
      MentionedIsShallower(reg[a].fields[i].ty, reg, [a], udts, b);
      DepthIsIntrinsic(Custom(b), reg, [a], [], udts);
    } else {
      MentionedIsShallower(reg[a].underlying, reg, [], udts, b);
    }
  }

  /** If the fallback fires for no name, the depths rank the declarations. */
  lemma DepthRanks(reg: Registry, udts: string -> nat)
    requires UdtsRanked(reg, udts) && forall n :: !Fires(Custom(n), reg, [], udts)
    ensures exists rank :: Acyclic(reg, rank)
  {
    hide Fires, Depth, Refers;
    ghost var rank := n => DepthOfName(n, reg, udts);
    forall a, b | Refers(reg, a, b) && IsNode(reg, b) ensures rank(b) < rank(a) {
      ReferredIsShallower(a, b, reg, udts);
    }
    assert Acyclic(reg, rank);
  }

  ghost function DepthOfName(n: string, reg: Registry, udts: string -> nat): nat {
    if UdtsRanked(reg, udts) then Depth(Custom(n), reg, [], udts) else 0
  }

  /** On an acyclic registry it does not fire, whatever of higher rank is being expanded. */
  lemma {:induction false} AcyclicNeverFires(ty: SolType, reg: Registry, active: seq<string>, udts: string -> nat,
      rank: string -> nat, bound: nat)
    requires UdtsRanked(reg, udts) && Acyclic(reg, rank) && Below(ty, reg, rank, bound)
    requires ActiveAbove(active, reg, rank, bound)
    ensures !Fires(ty, reg, active, udts)
    decreases bound, ty
  {
    match ty
    case Array(e, _) => AcyclicNeverFires(e, reg, active, udts, rank, bound);
    case TupleOf(ts) =>
      forall i | 0 <= i < |ts| ensures !Fires(ts[i], reg, active, udts) {
        MemberIsBelow(ts, i, reg, rank, bound);
        AcyclicNeverFires(ts[i], reg, active, udts, rank, bound);
      }
    case Custom(n) =>
      assert n in Mentions(ty);
      if IsStruct(reg, n) {
        forall i | 0 <= i < |reg[n].fields| ensures !Fires(reg[n].fields[i].ty, reg, active + [n], udts) {
          FieldIsBelow(n, i, reg, rank);
          AcyclicNeverFires(reg[n].fields[i].ty, reg, active + [n], udts, rank, rank(n));
        }
      } else if IsUdt(reg, n) {
        UnderlyingIsBelow(n, reg, rank);
        AcyclicNeverFires(reg[n].underlying, reg, active, udts, rank, rank(n));
      }
    case _ =>
  }

  /** The fallback is for cycles only: it fires for no name of a registry exactly when a ranking exists. */
  lemma FallbackOnlyOnCycles(reg: Registry, udts: string -> nat)
    requires UdtsRanked(reg, udts)
    ensures (forall n :: !Fires(Custom(n), reg, [], udts)) <==> exists rank :: Acyclic(reg, rank)
  {
    hide Fires;
    if forall n :: !Fires(Custom(n), reg, [], udts) {
      DepthRanks(reg, udts);
    }
    if rank :| Acyclic(reg, rank) {
      forall n ensures !Fires(Custom(n), reg, [], udts) {
        AcyclicNeverFires(Custom(n), reg, [], udts, rank, rank(n) + 1);
      }
    }
  }

  /** Where it does not fire, the expansion itself is the same whatever is being expanded around it. */
  lemma {:induction false} ExpandIsIntrinsic(name: string, ty: SolType, reg: Registry, a: seq<string>,
      b: seq<string>, udts: string -> nat)
    requires UdtsRanked(reg, udts) && !Fires(ty, reg, a, udts) && !Fires(ty, reg, b, udts)
    ensures Expand(name, ty, reg, a, udts) == Expand(name, ty, reg, b, udts)
    decreases Remaining(reg, a), Height(ty, reg, udts) + 1, ty, 0
  {
    match ty
    case Array(e, _) => ExpandIsIntrinsic("", e, reg, a, b, udts);
    case TupleOf(ts) =>
      forall i | 0 <= i < |ts| ensures Expand("", ts[i], reg, a, udts) == Expand("", ts[i], reg, b, udts) {
        ExpandIsIntrinsic("", ts[i], reg, a, b, udts);
      }
      assert ExpandAll(ts, reg, a, udts) == ExpandAll(ts, reg, b, udts);
    case Custom(n) =>
      if IsStruct(reg, n) {
        FieldsExpandIsIntrinsic(n, reg, a, b, udts);
      } else if IsUdt(reg, n) {
        UnderlyingIsLower(n, reg, udts);
        ExpandIsIntrinsic(name, reg[n].underlying, reg, a, b, udts);
      }
    case _ =>
  }

  lemma {:induction false} FieldsExpandIsIntrinsic(n: string, reg: Registry, a: seq<string>, b: seq<string>,
      udts: string -> nat)
    requires UdtsRanked(reg, udts) && IsStruct(reg, n) && n !in a && n !in b
    requires !FieldFires(n, reg, a, udts) && !FieldFires(n, reg, b, udts)
    ensures ExpandFields(n, reg[n].fields, reg, a, udts) == ExpandFields(n, reg[n].fields, reg, b, udts)
    decreases Remaining(reg, a), 0
  {
    var fields := reg[n].fields;
    EnteringShrinks(n, reg, a);
    forall i | 0 <= i < |fields|
      ensures Expand(fields[i].name, fields[i].ty, reg, a + [n], udts)
           == Expand(fields[i].name, fields[i].ty, reg, b + [n], udts)
    {
      ExpandIsIntrinsic(fields[i].name, fields[i].ty, reg, a + [n], b + [n], udts);
    }
  }

  // ---------------------------------------------------------------------------
  // When the expansion ends
  // ---------------------------------------------------------------------------

  /** `type_to_abi_param` on any registry, given up after `fuel` nested calls. */
  function ExpandWithin(fuel: nat, name: string, ty: SolType, reg: Registry, active: seq<string>): Option<AbiParam>
    decreases fuel
  {
    if fuel == 0 then None
    else
      match ty
      case Elementary(n) => Some(Leaf(name, n))
      case Unsupported => Some(Leaf(name, ""))
      case Array(e, size) =>
        (match ExpandWithin(fuel - 1, "", e, reg, active)
         case Some(inner) => Some(AbiParam(name, inner.paramType + SizeSuffix(size), inner.components))
         case None => None)
      case TupleOf(ts) => TupleParam(name, seq(|ts|, i requires 0 <= i < |ts| =>
          ExpandWithin(fuel - 1, "", ts[i], reg, active)))
      case Custom(n) =>
        if n in active || n !in reg then Some(Leaf(name, n))
        else match reg[n]
             case EnumDef => Some(Leaf(name, "uint8"))
             case UdtDef(underlying) => ExpandWithin(fuel - 1, name, underlying, reg, active)
             case StructDef(fields) => TupleParam(name, seq(|fields|, i requires 0 <= i < |fields| =>
                 ExpandWithin(fuel - 1, fields[i].name, fields[i].ty, reg, active + [n])))
  }

  function TupleParam(name: string, components: seq<Option<AbiParam>>): (p: Option<AbiParam>)
    ensures p.Some? <==> forall i | 0 <= i < |components| :: components[i].Some?
  {
    if exists i | 0 <= i < |components| :: components[i].None? then None
    else Some(AbiParam(name, "tuple", seq(|components|, i requires 0 <= i < |components| => components[i].value)))
  }

  /** An expansion that ends within `fuel` calls ends within more, with the same result. */
  lemma {:induction false} MoreFuel(fuel: nat, more: nat, name: string, ty: SolType, reg: Registry, active: seq<string>)
    requires ExpandWithin(fuel, name, ty, reg, active).Some? && fuel <= more
    ensures ExpandWithin(more, name, ty, reg, active) == ExpandWithin(fuel, name, ty, reg, active)
    decreases fuel
  {
    match ty
    case Array(e, _) => MoreFuel(fuel - 1, more - 1, "", e, reg, active);
    case TupleOf(ts) =>
      forall i | 0 <= i < |ts|
        ensures ExpandWithin(more - 1, "", ts[i], reg, active) == ExpandWithin(fuel - 1, "", ts[i], reg, active)
      {
        TupleMember(fuel, name, ts, reg, active, i);
        MoreFuel(fuel - 1, more - 1, "", ts[i], reg, active);
      }
      assert seq(|ts|, i requires 0 <= i < |ts| => ExpandWithin(more - 1, "", ts[i], reg, active))
          == seq(|ts|, i requires 0 <= i < |ts| => ExpandWithin(fuel - 1, "", ts[i], reg, active));
    case Custom(n) =>
      if n !in active && n in reg {
        match reg[n]
        case UdtDef(underlying) => MoreFuel(fuel - 1, more - 1, name, underlying, reg, active);
        case StructDef(fields) =>
          forall i | 0 <= i < |fields|
            ensures ExpandWithin(more - 1, fields[i].name, fields[i].ty, reg, active + [n])
                 == ExpandWithin(fuel - 1, fields[i].name, fields[i].ty, reg, active + [n])
          {
            FieldMember(fuel, name, n, reg, active, i);
            MoreFuel(fuel - 1, more - 1, fields[i].name, fields[i].ty, reg, active + [n]);
          }
          assert seq(|fields|, i requires 0 <= i < |fields| =>
                   ExpandWithin(more - 1, fields[i].name, fields[i].ty, reg, active + [n]))
              == seq(|fields|, i requires 0 <= i < |fields| =>
                   ExpandWithin(fuel - 1, fields[i].name, fields[i].ty, reg, active + [n]));
        case _ =>
      }
    case _ =>
  }

  lemma TupleMember(fuel: nat, name: string, ts: seq<SolType>, reg: Registry, active: seq<string>, i: nat)
    requires fuel > 0 && i < |ts| && ExpandWithin(fuel, name, TupleOf(ts), reg, active).Some?
    ensures ExpandWithin(fuel - 1, "", ts[i], reg, active).Some?
  {
    var components := seq(|ts|, i requires 0 <= i < |ts| => ExpandWithin(fuel - 1, "", ts[i], reg, active));
    assert TupleParam(name, components).Some?;
    assert components[i].Some?;
  }

  lemma FieldMember(fuel: nat, name: string, n: string, reg: Registry, active: seq<string>, i: nat)
    requires fuel > 0 && n !in active && IsStruct(reg, n) && i < |reg[n].fields|
    requires ExpandWithin(fuel, name, Custom(n), reg, active).Some?
    ensures ExpandWithin(fuel - 1, reg[n].fields[i].name, reg[n].fields[i].ty, reg, active + [n]).Some?
  {
    var fields := reg[n].fields;
    var components := seq(|fields|, i requires 0 <= i < |fields| =>
      ExpandWithin(fuel - 1, fields[i].name, fields[i].ty, reg, active + [n]));
    assert TupleParam(name, components).Some?;
    assert components[i].Some?;
  }

  /** All value types that `ty` mentions rank below `bound`. */
  ghost predicate UdtsBelow(ty: SolType, reg: Registry, udts: string -> nat, bound: nat) {
    forall c | c in Mentions(ty) && IsUdt(reg, c) :: udts(c) < bound
  }

  lemma {:induction false} SomeBound(names: set<string>, udts: string -> nat) returns (bound: nat)
    ensures forall c | c in names :: udts(c) < bound
  {
    if names == {} {
      bound := 0;
    } else {
      var c :| c in names;
      var rest := SomeBound(names - {c}, udts);
      bound := if udts(c) < rest then rest else udts(c) + 1;
    }
  }

  /** Without a cycle of value types every expansion ends. */
  lemma {:induction false} Terminates(name: string, ty: SolType, reg: Registry, active: seq<string>,
      udts: string -> nat, bound: nat) returns (fuel: nat)
    requires UdtsRanked(reg, udts) && UdtsBelow(ty, reg, udts, bound)
    ensures ExpandWithin(fuel, name, ty, reg, active).Some?
    decreases Remaining(reg, active), bound + 1, ty, 0
  {
    fuel := 1;
    match ty
    case Array(e, _) =>
      fuel := Terminates("", e, reg, active, udts, bound);
      fuel := fuel + 1;
    case TupleOf(ts) =>
      fuel := TypesTerminate(ts, |ts|, reg, active, udts, bound);
      fuel := fuel + 1;
    case Custom(n) =>
      if n !in active && n in reg {
        match reg[n]
        case UdtDef(underlying) =>
          fuel := Terminates(name, underlying, reg, active, udts, udts(n));
          fuel := fuel + 1;
        case StructDef(fields) =>
          fuel := FieldsTerminate(n, |fields|, reg, active, udts);
          fuel := fuel + 1;
        case _ =>
      }
    case _ =>
  }

  lemma {:induction false} TypesTerminate(ts: seq<SolType>, k: nat, reg: Registry, active: seq<string>,
      udts: string -> nat, bound: nat) returns (fuel: nat)
    requires UdtsRanked(reg, udts) && UdtsBelow(TupleOf(ts), reg, udts, bound) && k <= |ts|
    ensures forall i | 0 <= i < k :: ExpandWithin(fuel, "", ts[i], reg, active).Some?
    decreases Remaining(reg, active), bound + 1, ts, k
  {
    fuel := 0;
    if k > 0 {
      assert forall c | c in Mentions(ts[k - 1]) :: c in Mentions(TupleOf(ts));
      var front := TypesTerminate(ts, k - 1, reg, active, udts, bound);
      var last := Terminates("", ts[k - 1], reg, active, udts, bound);
      fuel := front + last;
      MoreFuel(last, fuel, "", ts[k - 1], reg, active);
      forall i | 0 <= i < k - 1 ensures ExpandWithin(fuel, "", ts[i], reg, active).Some? {
        MoreFuel(front, fuel, "", ts[i], reg, active);
      }
    }
  }

  lemma {:induction false} FieldsTerminate(n: string, k: nat, reg: Registry, active: seq<string>,
      udts: string -> nat) returns (fuel: nat)
    requires UdtsRanked(reg, udts) && IsStruct(reg, n) && n !in active && k <= |reg[n].fields|
    ensures forall i | 0 <= i < k ::
              ExpandWithin(fuel, reg[n].fields[i].name, reg[n].fields[i].ty, reg, active + [n]).Some?
    decreases Remaining(reg, active), 0, k
  {
    fuel := 0;
    if k > 0 {
      assert n in Remaining(reg, active) && n !in Remaining(reg, active + [n]);
      var fields := reg[n].fields;
      var front := FieldsTerminate(n, k - 1, reg, active, udts);
      var bound := SomeBound(Mentions(fields[k - 1].ty), udts);
      var last := Terminates(fields[k - 1].name, fields[k - 1].ty, reg, active + [n], udts, bound);
      fuel := front + last;
      MoreFuel(last, fuel, fields[k - 1].name, fields[k - 1].ty, reg, active + [n]);
      forall i | 0 <= i < k - 1
        ensures ExpandWithin(fuel, fields[i].name, fields[i].ty, reg, active + [n]).Some?
      {
        MoreFuel(front, fuel, fields[i].name, fields[i].ty, reg, active + [n]);
      }
    }
  }

  ghost predicate Ends(name: string, ty: SolType, reg: Registry, active: seq<string>) {
    exists fuel :: ExpandWithin(fuel, name, ty, reg, active).Some?
  }

  /** Whether an expansion ends does not depend on the name given to its entry. */
  lemma {:induction false} AnyName(fuel: nat, name: string, other: string, ty: SolType, reg: Registry,
      active: seq<string>)
    requires ExpandWithin(fuel, name, ty, reg, active).Some?
    ensures ExpandWithin(fuel, other, ty, reg, active).Some?
    decreases fuel
  {
    if ty.Custom? && ty.name !in active && IsUdt(reg, ty.name) {
      AnyName(fuel - 1, name, other, reg[ty.name].underlying, reg, active);
    } else if ty.Custom? && ty.name !in active && IsStruct(reg, ty.name) {
      var fields := reg[ty.name].fields;
      forall i | 0 <= i < |fields|
        ensures ExpandWithin(fuel - 1, fields[i].name, fields[i].ty, reg, active + [ty.name]).Some?
      {
        FieldMember(fuel, name, ty.name, reg, active, i);
      }
    } else if ty.TupleOf? {
      forall i | 0 <= i < |ty.types| ensures ExpandWithin(fuel - 1, "", ty.types[i], reg, active).Some? {
        TupleMember(fuel, name, ty.types, reg, active, i);
      }
    }
  }

  /** Where an expansion ends, so do those of the names in it, within as many calls. */
  lemma {:induction false} MentionEnds(fuel: nat, name: string, ty: SolType, reg: Registry, active: seq<string>,
      c: string)
    requires ExpandWithin(fuel, name, ty, reg, active).Some? && c in Mentions(ty)
    ensures ExpandWithin(fuel, "", Custom(c), reg, active).Some?
    decreases ty
  {
    match ty
    case Array(e, _) =>
      MentionEnds(fuel - 1, "", e, reg, active, c);
      MoreFuel(fuel - 1, fuel, "", Custom(c), reg, active);
    case TupleOf(ts) =>
      var i :| 0 <= i < |ts| && c in Mentions(ts[i]);
      TupleMember(fuel, name, ts, reg, active, i);
      MentionEnds(fuel - 1, "", ts[i], reg, active, c);
      MoreFuel(fuel - 1, fuel, "", Custom(c), reg, active);
    case Custom(n) =>
      AnyName(fuel, name, "", ty, reg, active);
    case _ =>
  }

  /** The least fuel with which the expansion of `n` ends. */
  ghost function LeastFuel(fuel: nat, n: string, reg: Registry): (least: nat)
    requires ExpandWithin(fuel, "", Custom(n), reg, []).Some?
    ensures 0 < least <= fuel && ExpandWithin(least, "", Custom(n), reg, []).Some?
    ensures ExpandWithin(least - 1, "", Custom(n), reg, []).None?
  {
    if ExpandWithin(fuel - 1, "", Custom(n), reg, []).Some? then LeastFuel(fuel - 1, n, reg) else fuel
  }

  ghost function FuelRank(n: string, reg: Registry): nat {
    if Ends("", Custom(n), reg, []) then
      var fuel :| ExpandWithin(fuel, "", Custom(n), reg, []).Some?;
      LeastFuel(fuel, n, reg)
    else 0
  }

  lemma FuelRanks(reg: Registry)
    requires forall n | IsUdt(reg, n) :: Ends("", Custom(n), reg, [])
    ensures UdtsRanked(reg, n => FuelRank(n, reg))
  {
    forall n, c | IsUdt(reg, n) && c in Mentions(reg[n].underlying) && IsUdt(reg, c)
      ensures FuelRank(c, reg) < FuelRank(n, reg)
    {
      var fuel := FuelRank(n, reg);
      assert ExpandWithin(fuel - 1, "", reg[n].underlying, reg, []).Some?;
      MentionEnds(fuel - 1, "", reg[n].underlying, reg, [], c);
      if FuelRank(c, reg) >= fuel {
        MoreFuel(fuel - 1, FuelRank(c, reg) - 1, "", Custom(c), reg, []);
      }
    }
  }

  /**
   * The cycle breaker looks at structs only. So on an arbitrary registry every expansion ends exactly if no
   * chain of value types comes back to itself, which Solidity's own rule on value types excludes.
   */
  lemma EndsWithoutAliasCycles(reg: Registry)
    ensures (forall name, ty, active :: Ends(name, ty, reg, active)) <==> exists udts :: UdtsRanked(reg, udts)
  {
    if forall name, ty, active :: Ends(name, ty, reg, active) {
      forall n | IsUdt(reg, n) ensures Ends("", Custom(n), reg, []) {
      }
      FuelRanks(reg);
    }
    if udts :| UdtsRanked(reg, udts) {
      forall name, ty, active ensures Ends(name, ty, reg, active) {
        var bound := SomeBound(Mentions(ty), udts);
        var fuel := Terminates(name, ty, reg, active, udts, bound);
      }
    }
  }

  /** `type A is A;` expands forever. */
  lemma {:induction false} SelfAliasNeverEnds(fuel: nat, name: string, a: string)
    ensures ExpandWithin(fuel, name, Custom(a), map[a := UdtDef(Custom(a))], []) == None
  {
    if fuel > 0 {
      SelfAliasNeverEnds(fuel - 1, name, a);
    }
  }

  /** Where it ends, the result is `Expand`, whatever ranking shows that value types form no cycle. */
  lemma {:induction false} ExpandIsTheResult(fuel: nat, name: string, ty: SolType, reg: Registry, active: seq<string>,
      udts: string -> nat)
    requires UdtsRanked(reg, udts) && ExpandWithin(fuel, name, ty, reg, active).Some?
    ensures ExpandWithin(fuel, name, ty, reg, active) == Some(Expand(name, ty, reg, active, udts))
    decreases fuel
  {
    match ty
    case Array(e, _) => ExpandIsTheResult(fuel - 1, "", e, reg, active, udts);
    case TupleOf(ts) =>
      forall i | 0 <= i < |ts|
        ensures ExpandWithin(fuel - 1, "", ts[i], reg, active) == Some(Expand("", ts[i], reg, active, udts))
      {
        TupleMember(fuel, name, ts, reg, active, i);
        ExpandIsTheResult(fuel - 1, "", ts[i], reg, active, udts);
      }
      assert ExpandWithin(fuel, name, ty, reg, active).value.components == ExpandAll(ts, reg, active, udts);
    case Custom(n) =>
      if n !in active && n in reg {
        match reg[n]
        case UdtDef(underlying) => ExpandIsTheResult(fuel - 1, name, underlying, reg, active, udts);
        case StructDef(fields) =>
          forall i | 0 <= i < |fields|
            ensures ExpandWithin(fuel - 1, fields[i].name, fields[i].ty, reg, active + [n])
                 == Some(Expand(fields[i].name, fields[i].ty, reg, active + [n], udts))
          {
            FieldMember(fuel, name, n, reg, active, i);
            ExpandIsTheResult(fuel - 1, fields[i].name, fields[i].ty, reg, active + [n], udts);
          }
          assert ExpandWithin(fuel, name, ty, reg, active).value.components
              == ExpandFields(n, fields, reg, active, udts);
        case _ =>
      }
    case _ =>
  }
}
