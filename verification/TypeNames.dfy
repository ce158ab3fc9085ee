/**
 * Type names: the printer `SOL_NAME`, the parser `parse_type_str`, the ABI entry `abi_param`, and the
 * second printer `canonical_type`.
 */
module TypeNames {
  import opened Wrappers
  import opened AbiTypes

  datatype AbiParam = AbiParam(name: string, paramType: string, components: seq<AbiParam>)

  function Digit(d: nat): (c: char)
    requires d < 10
    ensures '0' <= c <= '9'
  {
    "0123456789"[d]
  }

  /** Decimal notation. */
  function Decimal(n: nat): (s: string)
    ensures |s| > 0 && forall i | 0 <= i < |s| :: '0' <= s[i] <= '9'
  {
    if n < 10 then [Digit(n)] else Decimal(n / 10) + [Digit(n % 10)]
  }

  function Join(names: seq<string>): string {
    if |names| == 0 then ""
    else if |names| == 1 then names[0]
    else names[0] + "," + Join(names[1..])
  }

  /** `SOL_NAME`. */
  function SolName(t: Type): string
    decreases t, 0
  {
    match t
    case Uint(w) => "uint" + Decimal(8 * w)
    case Int(w) => "int" + Decimal(8 * w)
    case Bool => "bool"
    case Address => "address"
    case FixedBytes(n) => "bytes" + Decimal(n)
    case Unit => "unit"
    case DynBytes => "bytes"
    case Str => "string"
    case FixedArray(e, n) => SolName(e) + "[" + Decimal(n) + "]"
    case Vec(e) => SolName(e) + "[]"
    case Tuple(ts) => "(" + Join(Names(ts)) + ")"
  }

  function Names(ts: seq<Type>): (names: seq<string>)
    ensures |names| == |ts| && forall i | 0 <= i < |ts| :: names[i] == SolName(ts[i])
    decreases ts, 0
  {
    seq(|ts|, i requires 0 <= i < |ts| => SolName(ts[i]))
  }

  /** `abi_param`: an array has its element's components, a tuple an entry for each field. */
  function AbiParamOf(name: string, t: Type): AbiParam
    decreases t, 0
  {
    match t
    case FixedArray(e, n) =>
      var inner := AbiParamOf("", e);
      AbiParam(name, inner.paramType + "[" + Decimal(n) + "]", inner.components)
    case Vec(e) =>
      var inner := AbiParamOf("", e);
      AbiParam(name, inner.paramType + "[]", inner.components)
    case Tuple(ts) => AbiParam(name, "tuple", ParamsOf(ts))
    case _ => AbiParam(name, SolName(t), [])
  }

  function ParamsOf(ts: seq<Type>): (ps: seq<AbiParam>)
    ensures |ps| == |ts| && forall i | 0 <= i < |ts| :: ps[i] == AbiParamOf("", ts[i])
    decreases ts, 0
  {
    seq(|ts|, i requires 0 <= i < |ts| => AbiParamOf("", ts[i]))
  }

  // ---------------------------------------------------------------------------
  // The parser
  // ---------------------------------------------------------------------------

  function RFind(s: string, c: char): (r: Option<nat>)
    ensures r.Some? ==> r.value < |s| && s[r.value] == c && forall i | r.value < i < |s| :: s[i] != c
    ensures r.None? ==> c !in s
  {
    if |s| == 0 then None
    else if s[|s| - 1] == c then Some(|s| - 1)
    else RFind(s[..|s| - 1], c)
  }

  /** The characters with the Unicode property White_Space, which `str::trim` removes. */
  predicate IsSpace(c: char) {
    var n := c as int;
    || 0x09 <= n <= 0x0D || n == 0x20 || n == 0x85 || n == 0xA0 || n == 0x1680
    || 0x2000 <= n <= 0x200A || n == 0x2028 || n == 0x2029 || n == 0x202F || n == 0x205F || n == 0x3000
  }

  function Trim(s: string): (r: string)
    ensures |r| <= |s|
  {
    if |s| == 0 then s
    else if IsSpace(s[0]) then Trim(s[1..])
    else if IsSpace(s[|s| - 1]) then Trim(s[..|s| - 1])
    else s
  }

  function NonEmpty(s: string): seq<string> {
    if s == "" then [] else [s]
  }

  /** `split_top_level_params` with `current` the text since the last split and `rest` still to be read. */
  function Split(rest: string, depth: nat, current: string): (ps: seq<string>)
    ensures forall i | 0 <= i < |ps| :: |ps[i]| <= |current| + |rest|
    decreases |rest|
  {
    if rest == "" then NonEmpty(Trim(current))
    else if rest[0] == ',' && depth == 0 then NonEmpty(Trim(current)) + Split(rest[1..], 0, "")
    else Split(rest[1..], NextDepth(rest[0], depth), current + [rest[0]])
  }

  function NextDepth(c: char, depth: nat): nat {
    if c == '(' then depth + 1 else if c == ')' && depth > 0 then depth - 1 else depth
  }

  lemma SplitStep(rest: string, depth: nat, current: string)
    requires rest != ""
    ensures Split(rest, depth, current) ==
            if rest[0] == ',' && depth == 0 then NonEmpty(Trim(current)) + Split(rest[1..], 0, "")
            else Split(rest[1..], NextDepth(rest[0], depth), current + [rest[0]])
  {
  }

  lemma SplitEnd(depth: nat, current: string)
    ensures Split("", depth, current) == NonEmpty(Trim(current))
  {
  }

  /** The loop of `split_top_level_params`. */
  method SplitTopLevelParams(s: string) returns (params: seq<string>)
    ensures params == Split(s, 0, "")
  {
    hide Split, Trim;
    params := [];
    var depth: nat, start: nat := 0, 0;
    for i := 0 to |s|
      invariant start <= i
      invariant Split(s, 0, "") == params + Split(s[i..], depth, s[start..i])
    {
      var ch := s[i];
      SplitStep(s[i..], depth, s[start..i]);
      assert s[i..][1..] == s[i + 1..] && s[start..i] + [s[i]] == s[start..i + 1];
      assert s[i + 1..i + 1] == "";
      if ch == '(' {
        depth := depth + 1;
      } else if ch == ')' {
        depth := if depth > 0 then depth - 1 else 0;
      } else if ch == ',' && depth == 0 {
        var p := Trim(s[start..i]);
        if p != "" {
          params := params + [p];
        }
        start := i + 1;
      }
    }
    var last := Trim(s[start..]);
    assert s[|s|..] == "" && s[start..|s|] == s[start..];
    SplitEnd(depth, s[start..]);
    if last != "" {
      params := params + [last];
    }
  }

  /** `parse_type_str`. */
  function ParseTypeStr(name: string, raw: string): AbiParam
    decreases |raw|, 0
  {
    if |raw| >= 2 && raw[|raw| - 2..] == "[]" then
      var inner := ParseTypeStr("", raw[..|raw| - 2]);
      AbiParam(name, inner.paramType + "[]", inner.components)
    else if |raw| > 0 && raw[|raw| - 1] == ']' && RFind(raw, '[').Some? then
      var bracket := RFind(raw, '[').value;
      var inner := ParseTypeStr("", raw[..bracket]);
      AbiParam(name, inner.paramType + raw[bracket..], inner.components)
    else if |raw| >= 2 && raw[0] == '(' && raw[|raw| - 1] == ')' then
      AbiParam(name, "tuple", ParseAll(Split(raw[1..|raw| - 1], 0, ""), |raw| - 1))
    else AbiParam(name, raw, [])
  }

  function ParseAll(pieces: seq<string>, bound: nat): (ps: seq<AbiParam>)
    requires forall i | 0 <= i < |pieces| :: |pieces[i]| <= bound
    ensures |ps| == |pieces| && forall i | 0 <= i < |ps| :: ps[i] == ParseTypeStr("", Trim(pieces[i]))
    decreases bound, 1
  {
    seq(|pieces|, i requires 0 <= i < |pieces| => ParseTypeStr("", Trim(pieces[i])))
  }

  // ---------------------------------------------------------------------------
  // Splitting inverts joining
  // ---------------------------------------------------------------------------

  /** Depth after reading `s` from depth `d`; `None` if a comma or a closing parenthesis meets depth 0. */
  function Scan(s: string, d: nat): Option<nat>
    decreases |s|
  {
    if s == "" then Some(d)
    else if (s[0] == ',' || s[0] == ')') && d == 0 then None
    else Scan(s[1..], NextDepth(s[0], d))
  }

  lemma {:induction false} ScanConcat(a: string, b: string, d: nat)
    requires Scan(a, d).Some?
    ensures Scan(a + b, d) == Scan(b, Scan(a, d).value)
    decreases |a|
  {
    if a == "" {
      assert a + b == b;
    } else {
      assert (a + b)[1..] == a[1..] + b;
      ScanConcat(a[1..], b, NextDepth(a[0], d));
    }
  }

  lemma {:induction false} ScanDeeper(s: string, d: nat)
    requires Scan(s, d).Some?
    ensures Scan(s, d + 1) == Some(Scan(s, d).value + 1)
    decreases |s|
  {
    if s != "" {
      ScanDeeper(s[1..], NextDepth(s[0], d));
    }
  }

  /** A stretch without parentheses or commas leaves the depth alone. */
  lemma {:induction false} ScanPlain(s: string, d: nat)
    requires forall i | 0 <= i < |s| :: s[i] != '(' && s[i] != ')' && s[i] != ','
    ensures Scan(s, d) == Some(d)
    decreases |s|
  {
    if s != "" {
      ScanPlain(s[1..], d);
    }
  }

  /** What every type name satisfies: balanced, no comma outside parentheses, no white space, not empty. */
  predicate IsName(s: string) {
    s != "" && Scan(s, 0) == Some(0) && forall i | 0 <= i < |s| :: !IsSpace(s[i])
  }

  lemma {:induction false} TrimKeeps(s: string)
    requires forall i | 0 <= i < |s| :: !IsSpace(s[i])
    ensures Trim(s) == s
  {
  }

  /** Reading a balanced stretch moves it from `rest` to `current`. */
  lemma {:induction false} SplitReads(a: string, rest: string, d: nat, current: string)
    requires Scan(a, d).Some?
    ensures Split(a + rest, d, current) == Split(rest, Scan(a, d).value, current + a)
    decreases |a|
  {
    if a == "" {
      assert a + rest == rest && current + a == current;
    } else {
      assert (a + rest)[1..] == a[1..] + rest;
      assert current + a == current + [a[0]] + a[1..];
      SplitReads(a[1..], rest, NextDepth(a[0], d), current + [a[0]]);
    }
  }

  /** `split_top_level_params` inverts joining with commas. */
  lemma {:induction false} SplitInvertsJoin(names: seq<string>)
    requires forall i | 0 <= i < |names| :: IsName(names[i])
    ensures Split(Join(names), 0, "") == names
    decreases |names|
  {
    if |names| > 0 {
      var first := names[0];
      TrimKeeps(first);
      assert "" + first == first;
      if |names| == 1 {
        assert first + "" == first;
        SplitReads(first, "", 0, "");
      } else {
        var rest := "," + Join(names[1..]);
        assert Join(names) == first + rest;
        SplitReads(first, rest, 0, "");
        assert rest[1..] == Join(names[1..]);
        SplitInvertsJoin(names[1..]);
        assert names == [first] + names[1..];
      }
    }
  }

  lemma {:induction false} JoinScans(names: seq<string>)
    requires forall i | 0 <= i < |names| :: IsName(names[i])
    ensures Scan(Join(names), 1) == Some(1)
    ensures forall i | 0 <= i < |Join(names)| :: !IsSpace(Join(names)[i])
    decreases |names|
  {
    if |names| > 0 {
      ScanDeeper(names[0], 0);
      if |names| > 1 {
        JoinScans(names[1..]);
        var rest := "," + Join(names[1..]);
        assert Join(names) == names[0] + rest;
        assert rest[1..] == Join(names[1..]);
        ScanConcat(names[0], rest, 1);
      }
    }
  }

  /** The name is a leaf: plain characters only, and nothing that the parser would take apart. */
  predicate IsPlain(s: string) {
    s != "" && s[0] != 't' && forall i | 0 <= i < |s| :: 'a' <= s[i] <= 'z' || '0' <= s[i] <= '9'
  }

  predicate IsArrayOrTuple(t: Type) {
    t.FixedArray? || t.Vec? || t.Tuple?
  }

  lemma LeafNameIsPlain(t: Type)
    requires !IsArrayOrTuple(t)
    ensures IsPlain(SolName(t))
  {
  }

  lemma PlainIsName(s: string)
    requires IsPlain(s)
    ensures IsName(s)
  {
    ScanPlain(s, 0);
  }

  lemma AppendPlain(s: string, tail: string)
    requires IsName(s) && forall i | 0 <= i < |tail| :: tail[i] == '[' || tail[i] == ']' || '0' <= tail[i] <= '9'
    ensures IsName(s + tail)
  {
    ScanConcat(s, tail, 0);
    ScanPlain(tail, 0);
  }

  lemma TupleIsName(names: seq<string>)
    requires forall i | 0 <= i < |names| :: IsName(names[i])
    ensures IsName("(" + Join(names) + ")")
  {
    var inner := Join(names);
    JoinScans(names);
    assert !IsSpace('(') && !IsSpace(')');
    assert Scan("(", 0) == Some(1) && Scan(")", 1) == Some(0);
    hide IsSpace, Scan, Join;
    Regroup("(", inner, ")");
    ScanConcat("(", inner + ")", 0);
    ScanConcat(inner, ")", 1);
  }

  lemma {:induction false} NameIsName(t: Type)
    ensures IsName(SolName(t))
    decreases t
  {
    hide IsName, Join, Decimal;
    match t
    case FixedArray(e, n) =>
      NameIsName(e);
      Brackets(SolName(e), Decimal(n));
      AppendPlain(SolName(e), "[" + Decimal(n) + "]");
    case Vec(e) =>
      NameIsName(e);
      AppendPlain(SolName(e), "[]");
    case Tuple(ts) =>
      forall i | 0 <= i < |ts| ensures IsName(Names(ts)[i]) {
        NameIsName(ts[i]);
      }
      TupleIsName(Names(ts));
    case _ =>
      LeafNameIsPlain(t);
      PlainIsName(SolName(t));
  }

  lemma ParseVec(name: string, base: string)
    ensures ParseTypeStr(name, base + "[]") ==
            var inner := ParseTypeStr("", base); AbiParam(name, inner.paramType + "[]", inner.components)
  {
    var raw := base + "[]";
    assert raw[..|raw| - 2] == base && raw[|raw| - 2..] == "[]";
  }

  lemma ParseFixedArray(name: string, base: string, digits: string)
    requires |digits| > 0 && forall i | 0 <= i < |digits| :: '0' <= digits[i] <= '9'
    ensures ParseTypeStr(name, base + "[" + digits + "]") ==
            var inner := ParseTypeStr("", base);
            AbiParam(name, inner.paramType + "[" + digits + "]", inner.components)
  {
    LastBracket(base, digits);
    var inner := ParseTypeStr("", base);
    assert inner.paramType + ("[" + digits + "]") == inner.paramType + "[" + digits + "]";
  }

  lemma ParseTuple(name: string, names: seq<string>)
    requires forall i | 0 <= i < |names| :: IsName(names[i])
    ensures var p := ParseTypeStr(name, "(" + Join(names) + ")");
            && p.name == name && p.paramType == "tuple" && |p.components| == |names|
            && forall i | 0 <= i < |names| :: p.components[i] == ParseTypeStr("", names[i])
  {
    var raw := "(" + Join(names) + ")";
    assert raw[0] == '(' && raw[|raw| - 1] == ')' && raw[|raw| - 2..][1] == ')';
    assert raw[1..|raw| - 1] == Join(names);
    SplitInvertsJoin(names);
    assert ParseTypeStr(name, raw) == AbiParam(name, "tuple", ParseAll(names, |raw| - 1));
    forall i | 0 <= i < |names| ensures Trim(names[i]) == names[i] {
      TrimKeeps(names[i]);
    }
  }

  /** Parsing a type's printed name builds the entry that `abi_param` builds directly. */
  lemma {:induction false} ParseInvertsPrint(name: string, t: Type)
    ensures ParseTypeStr(name, SolName(t)) == AbiParamOf(name, t)
    decreases t
  {
    hide ParseTypeStr, IsName, Join, Decimal;
    match t
    case Vec(e) =>
      ParseVec(name, SolName(e));
      ParseInvertsPrint("", e);
    case FixedArray(e, n) =>
      ParseFixedArray(name, SolName(e), Decimal(n));
      ParseInvertsPrint("", e);
    case Tuple(ts) =>
      forall i | 0 <= i < |ts| ensures IsName(Names(ts)[i]) && ParseTypeStr("", Names(ts)[i]) == ParamsOf(ts)[i] {
        NameIsName(ts[i]);
        ParseInvertsPrint("", ts[i]);
      }
      ParseTuple(name, Names(ts));
      assert ParseTypeStr(name, SolName(t)).components == ParamsOf(ts);
    case _ =>
      LeafNameIsPlain(t);
      ParsePlain(name, SolName(t));
  }

  lemma ParsePlain(name: string, raw: string)
    requires IsPlain(raw)
    ensures ParseTypeStr(name, raw) == AbiParam(name, raw, [])
  {
    assert |raw| >= 2 ==> raw[|raw| - 2..][1] != ']';
  }

  lemma LastBracket(base: string, digits: string)
    requires |digits| > 0 && forall i | 0 <= i < |digits| :: '0' <= digits[i] <= '9'
    ensures var raw := base + "[" + digits + "]";
            && raw[|raw| - 2..] != "[]" && raw[|raw| - 1] == ']'
            && RFind(raw, '[') == Some(|base|)
            && raw[..|base|] == base && raw[|base|..] == "[" + digits + "]"
  {
    var raw := base + "[" + digits + "]";
    assert raw[|base|] == '[';
    assert raw[|raw| - 2] == digits[|digits| - 1];
    assert forall i | |base| < i < |raw| :: raw[i] != '[';
  }

  // ---------------------------------------------------------------------------
  // The second printer
  // ---------------------------------------------------------------------------

  predicate HasPrefix(s: string, p: string) {
    |s| >= |p| && s[..|p|] == p
  }

  /**
   * `canonical_type`. An entry without components is serialised without the key, so a tuple entry
   * with none is the error "missing 'components'".
   */
  function Canonical(p: AbiParam): Option<string>
    decreases p, 0
  {
    if p.paramType == "tuple" then
      match CanonicalComponents(p.components)
      case Some(inner) => Some("(" + inner + ")")
      case None => None
    else if p.paramType == "tuple[]" then
      match CanonicalComponents(p.components)
      case Some(inner) => Some("(" + inner + ")[]")
      case None => None
    else if HasPrefix(p.paramType, "tuple[") then
      match CanonicalComponents(p.components)
      case Some(inner) => Some("(" + inner + ")[" + p.paramType[6..])
      case None => None
    else Some(p.paramType)
  }

  function CanonicalComponents(ps: seq<AbiParam>): Option<string>
    decreases ps, 0
  {
    if |ps| == 0 || exists i | 0 <= i < |ps| :: Canonical(ps[i]).None? then None
    else Some(Join(seq(|ps|, i requires 0 <= i < |ps| => Canonical(ps[i]).value)))
  }

  /** Every tuple has a field; the tuple impls start at arity 1. */
  predicate TuplesHaveFields(t: Type) {
    match t
    case FixedArray(e, _) => TuplesHaveFields(e)
    case Vec(e) => TuplesHaveFields(e)
    case Tuple(ts) => |ts| > 0 && forall i | 0 <= i < |ts| :: TuplesHaveFields(ts[i])
    case _ => true
  }

  /** The type under all array suffixes, and the suffixes. */
  function Base(t: Type): Type {
    match t
    case FixedArray(e, _) => Base(e)
    case Vec(e) => Base(e)
    case _ => t
  }

  function Suffix(t: Type): string {
    match t
    case FixedArray(e, n) => Suffix(e) + "[" + Decimal(n) + "]"
    case Vec(e) => Suffix(e) + "[]"
    case _ => ""
  }

  lemma {:induction false} NamesSplit(name: string, t: Type)
    ensures !Base(t).FixedArray? && !Base(t).Vec?
    ensures Suffix(t) == "" || Suffix(t)[0] == '['
    ensures SolName(t) == SolName(Base(t)) + Suffix(t)
    ensures AbiParamOf(name, t).paramType == AbiParamOf("", Base(t)).paramType + Suffix(t)
    ensures AbiParamOf(name, t).components == AbiParamOf("", Base(t)).components
    ensures TuplesHaveFields(t) ==> TuplesHaveFields(Base(t))
    decreases t
  {
    hide Decimal, Names;
    match t
    case FixedArray(e, n) =>
      NamesSplit("", e);
      Regroup(SolName(Base(e)), Suffix(e), "[" + Decimal(n) + "]");
      Regroup(AbiParamOf("", Base(e)).paramType, Suffix(e), "[" + Decimal(n) + "]");
      Brackets(SolName(e), Decimal(n));
      Brackets(AbiParamOf("", e).paramType, Decimal(n));
      Brackets(Suffix(e), Decimal(n));
    case Vec(e) =>
      NamesSplit("", e);
      Regroup(SolName(Base(e)), Suffix(e), "[]");
      Regroup(AbiParamOf("", Base(e)).paramType, Suffix(e), "[]");
    case _ =>
      assert SolName(t) + "" == SolName(t);
      assert AbiParamOf("", t).paramType + "" == AbiParamOf("", t).paramType;
  }

  lemma Regroup(a: string, b: string, c: string)
    ensures (a + b) + c == a + (b + c)
  {
  }

  lemma Brackets(a: string, digits: string)
    ensures a + "[" + digits + "]" == a + ("[" + digits + "]")
  {
  }

  /** `canonical_type` of a tuple entry with array suffixes puts the suffixes after the expansion. */
  lemma TupleSuffix(p: AbiParam, suffix: string)
    requires p.paramType == "tuple" + suffix && (suffix == "" || suffix[0] == '[')
    requires CanonicalComponents(p.components).Some?
    ensures Canonical(p) == Some("(" + CanonicalComponents(p.components).value + ")" + suffix)
  {
    hide CanonicalComponents;
    var inner := CanonicalComponents(p.components).value;
    if suffix == "" {
      assert p.paramType == "tuple";
      assert "(" + inner + ")" + suffix == "(" + inner + ")";
    } else if p.paramType == "tuple[]" {
      assert suffix == p.paramType[5..] == "[]";
      assert "(" + inner + ")[]" == "(" + inner + ")" + "[]";
    } else {
      assert p.paramType != "tuple" && p.paramType[..6] == "tuple[";
      assert suffix == "[" + p.paramType[6..];
      assert "(" + inner + ")[" + p.paramType[6..] == "(" + inner + ")" + suffix;
    }
  }

  /** A leaf's name, with suffixes, is never taken for a tuple's. */
  lemma PlainSuffix(p: AbiParam, plain: string, suffix: string)
    requires IsPlain(plain) && p.paramType == plain + suffix
    ensures Canonical(p) == Some(p.paramType)
  {
    assert p.paramType[0] != 't';
  }

  /** `canonical_type` of a type's own ABI entry is the type's name. */
  lemma {:induction false} CanonicalIsName(name: string, t: Type)
    requires TuplesHaveFields(t)
    ensures Canonical(AbiParamOf(name, t)) == Some(SolName(t))
    decreases t
  {
    var p, base := AbiParamOf(name, t), Base(t);
    NamesSplit(name, t);
    if base.Tuple? {
      BaseIsSmall(t);
      FieldsCanonical(base.fields);
      TupleSuffix(p, Suffix(t));
    } else {
      LeafNameIsPlain(base);
      PlainSuffix(p, SolName(base), Suffix(t));
    }
  }

  lemma {:induction false} BaseIsSmall(t: Type)
    ensures Base(t) == t || Base(t) < t
  {
    match t
    case FixedArray(e, _) => BaseIsSmall(e);
    case Vec(e) => BaseIsSmall(e);
    case _ =>
  }

  lemma {:induction false} FieldsCanonical(ts: seq<Type>)
    requires |ts| > 0 && forall i | 0 <= i < |ts| :: TuplesHaveFields(ts[i])
    ensures CanonicalComponents(ParamsOf(ts)) == Some(Join(Names(ts)))
    decreases ts
  {
    var ps := ParamsOf(ts);
    forall i | 0 <= i < |ts| ensures Canonical(ps[i]) == Some(Names(ts)[i]) {
      CanonicalIsName("", ts[i]);
    }
    assert seq(|ps|, i requires 0 <= i < |ps| => Canonical(ps[i]).value) == Names(ts);
  }

  /** Both ways around: print, parse and print again. */
  lemma NamesRoundTrip(t: Type)
    requires TuplesHaveFields(t)
    ensures Canonical(ParseTypeStr("", SolName(t))) == Some(SolName(t))
  {
    ParseInvertsPrint("", t);
    CanonicalIsName("", t);
  }

  /** `build_function_signature`: the function's name and the canonical types of its inputs. */
  function FunctionSignature(name: string, inputs: seq<AbiParam>): Option<string> {
    if exists i | 0 <= i < |inputs| :: Canonical(inputs[i]).None? then None
    else Some(name + "(" + Join(seq(|inputs|, i requires 0 <= i < |inputs| => Canonical(inputs[i]).value)) + ")")
  }

  /** The signature is the function's name followed by the name of the tuple of its argument types. */
  lemma SignatureIsTupleName(name: string, ts: seq<Type>)
    requires forall i | 0 <= i < |ts| :: TuplesHaveFields(ts[i])
    ensures FunctionSignature(name, ParamsOf(ts)) == Some(name + SolName(Tuple(ts)))
  {
    hide Canonical, SolName, Join;
    var ps := ParamsOf(ts);
    forall i | 0 <= i < |ts| ensures Canonical(ps[i]) == Some(Names(ts)[i]) {
      CanonicalIsName("", ts[i]);
    }
    assert seq(|ps|, i requires 0 <= i < |ps| => Canonical(ps[i]).value) == Names(ts);
    TupleName(ts);
    Regroup(name, "(", Join(Names(ts)));
    Regroup(name, "(" + Join(Names(ts)), ")");
  }

  lemma TupleName(ts: seq<Type>)
    ensures SolName(Tuple(ts)) == "(" + Join(Names(ts)) + ")"
  {
  }

  // ---------------------------------------------------------------------------
  // ConstStr
  // ---------------------------------------------------------------------------

  const CAPACITY: nat := 256

  /** The fixed buffer in which `SOL_NAME` is assembled. Overflowing it is a compile-time panic: `ok` is false. */
  class ConstStr {
    const buf: array<char>
    var len: nat

    ghost predicate Valid()
      reads this, buf
    {
      buf.Length == CAPACITY && len <= CAPACITY
    }

    function Text(): string
      requires Valid()
      reads this, buf
    {
      buf[..len]
    }

    constructor ()
      ensures Valid() && Text() == "" && fresh(buf)
    {
      buf := new char[CAPACITY](_ => ' ');
      len := 0;
    }

    /** `append`. */
    method Append(s: string) returns (ok: bool)
      requires Valid()
      modifies this, buf
      ensures Valid() && (ok <==> old(len) + |s| <= CAPACITY)
      ensures Text() == if ok then old(Text()) + s else old(Text())
    {
      if len + |s| > CAPACITY {
        return false;
      }
      ghost var before := buf[..];
      for i := 0 to |s|
        invariant len == old(len) && |before| == CAPACITY
        invariant buf[..len + i] == before[..len] + s[..i]
      {
        buf[len + i] := s[i];
      }
      len := len + |s|;
      return true;
    }

    /** `append_usize`: digits are produced backwards, then written forwards. */
    method AppendUsize(n: nat) returns (ok: bool)
      requires Valid()
      modifies this, buf
      ensures Valid() && (ok <==> old(len) + |Decimal(n)| <= CAPACITY)
      ensures ok ==> Text() == old(Text()) + Decimal(n)
    {
      if n == 0 {
        ok := Append("0");
      } else {
        var digits := Digits(n);
        ok := AppendBackwards(digits);
      }
    }

    static lemma DigitStep(val: nat, digits: string)
      requires val > 0
      ensures Decimal(val) + Reverse(digits) ==
              (if val / 10 > 0 then Decimal(val / 10) else "") + Reverse(digits + [Digit(val % 10)])
    {
      ReverseAppend(digits, Digit(val % 10));
      hide Reverse, Digit;
    }

    static method Digits(n: nat) returns (digits: string)
      requires n > 0
      ensures Reverse(digits) == Decimal(n)
    {
      digits := [];
      var val := n;
      while val > 0
        invariant Decimal(n) == (if val > 0 then Decimal(val) else "") + Reverse(digits)
      {
        hide *;
        DigitStep(val, digits);
        digits := digits + [Digit(val % 10)];
        val := val / 10;
      }
    }

    method AppendBackwards(digits: string) returns (ok: bool)
      requires Valid()
      modifies this, buf
      ensures Valid() && (ok <==> old(len) + |Reverse(digits)| <= CAPACITY)
      ensures ok ==> Text() == old(Text()) + Reverse(digits)
    {
      ReverseLength(digits);
      ghost var start, text := Text(), Reverse(digits);
      var i := |digits|;
      while i > 0
        invariant 0 <= i <= |digits| && Valid() && len == |start| + (|digits| - i)
        invariant Text() == start + text[..|digits| - i]
      {
        i := i - 1;
        if len >= CAPACITY {
          return false;
        }
        ReverseAt(digits, i);
        buf[len] := digits[i];
        len := len + 1;
      }
      return true;
    }
  }

  /** A tuple's name up to its first `k` fields. */
  function Opened(names: seq<string>, k: nat): string
    requires k <= |names|
  {
    "(" + Join(names[..k])
  }

  lemma OpenedSteps(names: seq<string>, k: nat)
    requires 0 < k < |names|
    ensures Opened(names, k + 1) == Opened(names, k) + "," + names[k]
  {
    JoinLast(names[..k + 1]);
    assert names[..k + 1][..k] == names[..k];
    hide Join;
  }

  lemma OpenedEnds(names: seq<string>)
    requires |names| > 0
    ensures Opened(names, 1) == "(" + names[0]
    ensures Opened(names, |names|) + ")" == "(" + Join(names) + ")"
  {
    assert names[..1] == [names[0]] && names[..|names|] == names;
  }

  /** The `SOL_NAME` chain of a tuple: `new("(", first)`, then `append(",")` and the next name, then `append(")")`. */
  method WriteTupleName(names: seq<string>) returns (ok: bool, text: string)
    requires |names| > 0
    ensures ok <==> |"(" + Join(names) + ")"| <= CAPACITY
    ensures ok ==> text == "(" + Join(names) + ")"
  {
    hide Opened, Join;
    var c := new ConstStr();
    ok := c.Append("(" + names[0]);
    OpenedEnds(names);
    for i := 1 to |names|
      invariant fresh(c) && fresh(c.buf) && c.Valid()
      invariant ok <==> |Opened(names, i)| <= CAPACITY
      invariant ok ==> c.Text() == Opened(names, i)
    {
      OpenedSteps(names, i);
      if ok {
        ok := AppendField(c, names[i]);
      }
    }
    text := "";
    if ok {
      ok := c.Append(")");
      text := c.Text();
    }
  }

  method AppendField(c: ConstStr, name: string) returns (ok: bool)
    requires c.Valid()
    modifies c, c.buf
    ensures c.Valid() && (ok <==> |old(c.Text()) + "," + name| <= CAPACITY)
    ensures ok ==> c.Text() == old(c.Text()) + "," + name
  {
    ok := c.Append(",");
    if ok {
      ok := c.Append(name);
    }
  }

  lemma {:induction false} JoinLast(names: seq<string>)
    requires |names| > 1
    ensures Join(names) == Join(names[..|names| - 1]) + "," + names[|names| - 1]
    decreases |names|
  {
    if |names| > 2 {
      JoinLast(names[1..]);
      assert names[1..][..|names| - 2] == names[..|names| - 1][1..];
    }
  }

  function Reverse(s: string): string {
    if s == "" then "" else Reverse(s[1..]) + [s[0]]
  }

  lemma {:induction false} ReverseLength(s: string)
    ensures |Reverse(s)| == |s|
  {
    if s != "" {
      ReverseLength(s[1..]);
    }
  }

  lemma {:induction false} ReverseAppend(s: string, c: char)
    ensures Reverse(s + [c]) == [c] + Reverse(s)
  {
    if s != "" {
      assert (s + [c])[1..] == s[1..] + [c];
      ReverseAppend(s[1..], c);
    }
  }

  lemma {:induction false} ReverseAt(s: string, i: nat)
    requires i < |s|
    ensures |Reverse(s)| == |s| && Reverse(s)[|s| - 1 - i] == s[i]
  {
    ReverseLength(s);
    ReverseLength(s[1..]);
    if i > 0 {
      ReverseAt(s[1..], i - 1);
    }
  }
}
