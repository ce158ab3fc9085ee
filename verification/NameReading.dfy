/**
 * Reading type names back: which type a printed name belongs to, and what a decimal stands for. So no two
 * types share a name, and no two functions a signature.
 */
module NameReading {
  import opened Wrappers
  import opened AbiTypes
  import opened TypeNames

  // ---------------------------------------------------------------------------
  // Decimals
  // ---------------------------------------------------------------------------

  predicate AreDigits(s: string) {
    |s| > 0 && forall i | 0 <= i < |s| :: '0' <= s[i] <= '9'
  }

  /** The number that a string of digits stands for. */
  function ReadDecimal(s: string): nat
    requires forall i | 0 <= i < |s| :: '0' <= s[i] <= '9'
  {
    if s == "" then 0
    else 10 * ReadDecimal(s[..|s| - 1]) + (s[|s| - 1] as int - '0' as int)
  }

  lemma DigitReads(d: nat)
    requires d < 10
    ensures Digit(d) as int - '0' as int == d
  {
  }

  /** Decimal notation stands for the number, without leading zeros. */
  lemma {:induction false} DecimalReads(n: nat)
    ensures ReadDecimal(Decimal(n)) == n
    ensures Decimal(n)[0] == '0' ==> n == 0
  {
    DigitReads(n % 10);
    if n < 10 {
      assert ReadDecimal(Decimal(n)[..0]) == 0;
    } else {
      DecimalReads(n / 10);
      assert Decimal(n)[..|Decimal(n)| - 1] == Decimal(n / 10);
    }
  }

  // ---------------------------------------------------------------------------
  // White space
  // ---------------------------------------------------------------------------

  predicate IsBlank(s: string) {
    forall i | 0 <= i < |s| :: IsSpace(s[i])
  }

  /** Not empty, with no white space at either end. */
  predicate IsBare(s: string) {
    s != "" && !IsSpace(s[0]) && !IsSpace(s[|s| - 1])
  }

  /** Trimming removes the white space around a string, all of it and nothing else. */
  lemma {:induction false} TrimStrips(a: string, s: string, b: string)
    requires IsBlank(a) && IsBlank(b) && (s == "" || IsBare(s))
    ensures Trim(a + s + b) == s
    decreases |a| + |b|
  {
    var all := a + s + b;
    if a != "" {
      assert all[0] == a[0] && all[1..] == a[1..] + s + b;
      TrimStrips(a[1..], s, b);
    } else if b != "" {
      if s == "" {
        assert all == b && all[1..] == "" + s + b[1..];
        TrimStrips("", s, b[1..]);
      } else {
        assert all[0] == s[0] && all[|all| - 1] == b[|b| - 1];
        assert all[..|all| - 1] == "" + s + b[..|b| - 1];
        TrimStrips("", s, b[..|b| - 1]);
      }
    } else {
      assert all == s;
    }
  }

  lemma {:induction false} TrimIsBare(s: string)
    ensures Trim(s) == "" || IsBare(Trim(s))
  {
    if s != "" {
      if IsSpace(s[0]) {
        TrimIsBare(s[1..]);
      } else if IsSpace(s[|s| - 1]) {
        TrimIsBare(s[..|s| - 1]);
      }
    }
  }

  /** Whatever the text, its pieces are not empty and have no white space at either end. */
  lemma {:induction false} PiecesAreBare(rest: string, depth: nat, current: string)
    ensures forall i | 0 <= i < |Split(rest, depth, current)| :: IsBare(Split(rest, depth, current)[i])
    decreases |rest|
  {
    hide IsBare, Trim, NextDepth;
    TrimIsBare(current);
    if rest != "" {
      if rest[0] == ',' && depth == 0 {
        PiecesAreBare(rest[1..], 0, "");
      } else {
        PiecesAreBare(rest[1..], NextDepth(rest[0], depth), current + [rest[0]]);
      }
    }
  }

  /** A name with white space around it. */
  datatype Padded = Padded(before: string, name: string, after: string) {
    predicate Valid() {
      IsBlank(before) && IsName(name) && IsBlank(after)
    }

    function Text(): string {
      before + name + after
    }
  }

  lemma BlankScans(s: string, d: nat)
    requires IsBlank(s)
    ensures Scan(s, d) == Some(d)
  {
    assert !IsSpace('(') && !IsSpace(')') && !IsSpace(',');
    ScanPlain(s, d);
  }

  lemma PaddedScans(p: Padded)
    requires p.Valid()
    ensures Scan(p.Text(), 0) == Some(0) && Trim(p.Text()) == p.name
  {
    TrimStrips(p.before, p.name, p.after);
    BlankScans(p.before, 0);
    BlankScans(p.after, 0);
    hide IsSpace, Scan, Trim;
    ScanConcat(p.before, p.name, 0);
    ScanConcat(p.before + p.name, p.after, 0);
  }

  function Texts(ps: seq<Padded>): (texts: seq<string>)
    ensures |texts| == |ps| && forall i | 0 <= i < |ps| :: texts[i] == ps[i].Text()
  {
    seq(|ps|, i requires 0 <= i < |ps| => ps[i].Text())
  }

  function NamesOf(ps: seq<Padded>): (names: seq<string>)
    ensures |names| == |ps| && forall i | 0 <= i < |ps| :: names[i] == ps[i].name
  {
    seq(|ps|, i requires 0 <= i < |ps| => ps[i].name)
  }

  /** Splitting at top-level commas finds the names also where there is white space around them. */
  lemma {:induction false} SplitFindsNames(ps: seq<Padded>)
    requires forall i | 0 <= i < |ps| :: ps[i].Valid()
    ensures Split(Join(Texts(ps)), 0, "") == NamesOf(ps)
    decreases |ps|
  {
    if |ps| > 0 {
      var first, names := ps[0].Text(), NamesOf(ps);
      PaddedScans(ps[0]);
      PrefixOfNothing(first);
      assert ps[0].name != "" && names[0] == ps[0].name;
      hide Padded.Valid, Padded.Text, Scan, Trim, Split, NextDepth, Texts, NamesOf;
      JoinTexts(ps);
      if |ps| == 1 {
        SplitReads(first, "", 0, "");
        SplitEnd(0, first);
        assert names == [ps[0].name];
      } else {
        var rest := "," + Join(Texts(ps[1..]));
        assert rest[1..] == Join(Texts(ps[1..]));
        SplitReads(first, rest, 0, "");
        SplitStep(rest, 0, first);
        SplitFindsNames(ps[1..]);
        assert names == [ps[0].name] + NamesOf(ps[1..]);
      }
    }
  }

  lemma PrefixOfNothing(s: string)
    ensures "" + s == s && s + "" == s
  {
  }

  lemma JoinTexts(ps: seq<Padded>)
    requires |ps| > 0
    ensures Join(Texts(ps)) == if |ps| == 1 then ps[0].Text() else ps[0].Text() + ("," + Join(Texts(ps[1..])))
  {
    hide Padded.Text;
    var texts, first := Texts(ps), ps[0].Text();
    assert texts[1..] == Texts(ps[1..]);
    if |ps| > 1 {
      assert Join(texts) == first + "," + Join(texts[1..]) == first + ("," + Join(texts[1..]));
    }
  }

  // ---------------------------------------------------------------------------
  // Types
  // ---------------------------------------------------------------------------

  /** The type without components that a name stands for. */
  function LeafOfName(s: string): Option<Type> {
    if s == "bool" then Some(Bool)
    else if s == "address" then Some(Address)
    else if s == "string" then Some(Str)
    else if s == "bytes" then Some(DynBytes)
    else if s == "unit" then Some(Unit)
    else if HasPrefix(s, "uint") && AreDigits(s[4..]) then Some(Uint(ReadDecimal(s[4..]) / 8))
    else if HasPrefix(s, "int") && AreDigits(s[3..]) then Some(Int(ReadDecimal(s[3..]) / 8))
    else if HasPrefix(s, "bytes") && AreDigits(s[5..]) then Some(FixedBytes(ReadDecimal(s[5..])))
    else None
  }

  /** The type that a name stands for. */
  function TypeOfName(s: string): Option<Type>
    decreases |s|, 0
  {
    if |s| >= 2 && s[|s| - 2..] == "[]" then
      match TypeOfName(s[..|s| - 2])
      case Some(e) => Some(Vec(e))
      case None => None
    else if |s| > 0 && s[|s| - 1] == ']' && RFind(s, '[').Some? then
      var bracket := RFind(s, '[').value;
      var digits := s[bracket + 1..|s| - 1];
      match TypeOfName(s[..bracket])
      case Some(e) => if AreDigits(digits) then Some(FixedArray(e, ReadDecimal(digits))) else None
      case None => None
    else if |s| >= 2 && s[0] == '(' && s[|s| - 1] == ')' then
      TypesOfNames(Split(s[1..|s| - 1], 0, ""), |s| - 1)
    else LeafOfName(s)
  }

  function TypesOfNames(pieces: seq<string>, bound: nat): (r: Option<Type>)
    requires forall i | 0 <= i < |pieces| :: |pieces[i]| <= bound
    decreases bound, 1
  {
    if exists i | 0 <= i < |pieces| :: TypeOfName(pieces[i]).None? then None
    else Some(Tuple(seq(|pieces|, i requires 0 <= i < |pieces| => TypeOfName(pieces[i]).value)))
  }

  lemma Suffixed(prefix: string, digits: string)
    ensures HasPrefix(prefix + digits, prefix) && (prefix + digits)[|prefix|..] == digits
  {
  }

  lemma NumberedReads(prefix: string, n: nat)
    requires prefix == "uint" || prefix == "int" || prefix == "bytes"
    ensures LeafOfName(prefix + Decimal(n)) ==
            Some(if prefix == "uint" then Uint(n / 8) else if prefix == "int" then Int(n / 8) else FixedBytes(n))
  {
    var s := prefix + Decimal(n);
    DecimalReads(n);
    DecimalIsDigits(n);
    Suffixed(prefix, Decimal(n));
    hide Decimal, ReadDecimal, AreDigits;
    assert s[0] == prefix[0] && s[1] == prefix[1] && |s| > |prefix|;
    assert '0' <= s[|prefix|] <= '9';
  }

  lemma LeafReads(t: Type)
    requires !IsArrayOrTuple(t)
    ensures LeafOfName(SolName(t)) == Some(t)
  {
    LeafName(t);
    hide LeafOfName, Decimal;
    match t
    case Uint(w) => NumberedReads("uint", 8 * w);
    case Int(w) => NumberedReads("int", 8 * w);
    case FixedBytes(n) => NumberedReads("bytes", n);
    case _ =>
      WordsRead();
  }

  lemma LeafName(t: Type)
    ensures t.Uint? ==> SolName(t) == "uint" + Decimal(8 * t.width)
    ensures t.Int? ==> SolName(t) == "int" + Decimal(8 * t.width)
    ensures t.FixedBytes? ==> SolName(t) == "bytes" + Decimal(t.size)
  {
    hide Decimal;
  }

  lemma WordsRead()
    ensures LeafOfName("bool") == Some(Bool) && LeafOfName("address") == Some(Address)
    ensures LeafOfName("string") == Some(Str) && LeafOfName("bytes") == Some(DynBytes)
    ensures LeafOfName("unit") == Some(Unit)
  {
    hide AreDigits, ReadDecimal, HasPrefix;
  }

  lemma ReadVec(base: string)
    ensures TypeOfName(base + "[]") == match TypeOfName(base) case Some(e) => Some(Vec(e)) case None => None
  {
    var s := base + "[]";
    assert s[..|s| - 2] == base && s[|s| - 2..] == "[]";
  }

  lemma ReadFixedArray(base: string, digits: string)
    requires AreDigits(digits)
    ensures TypeOfName(base + "[" + digits + "]") ==
            match TypeOfName(base) case Some(e) => Some(FixedArray(e, ReadDecimal(digits))) case None => None
  {
    LastBracket(base, digits);
    var s := base + "[" + digits + "]";
    assert s[|base| + 1..|s| - 1] == digits;
  }

  lemma ReadTuple(names: seq<string>)
    requires forall i | 0 <= i < |names| :: IsName(names[i])
    requires forall i | 0 <= i < |names| :: TypeOfName(names[i]).Some?
    ensures var r := TypeOfName("(" + Join(names) + ")");
            && r.Some? && r.value.Tuple? && |r.value.fields| == |names|
            && forall i | 0 <= i < |names| :: Some(r.value.fields[i]) == TypeOfName(names[i])
  {
    var s := "(" + Join(names) + ")";
    assert s[0] == '(' && s[|s| - 1] == ')' && s[|s| - 2..][1] == ')';
    assert s[1..|s| - 1] == Join(names);
    SplitInvertsJoin(names);
    assert TypeOfName(s) == TypesOfNames(names, |s| - 1);
  }

  lemma NameStarts(t: Type)
    requires !IsArrayOrTuple(t)
    ensures SolName(t) != "" && forall i | 0 <= i < |SolName(t)| :: IsNameChar(SolName(t)[i])
  {
  }

  predicate IsNameChar(c: char) {
    'a' <= c <= 'z' || '0' <= c <= '9'
  }

  lemma ReadLeaf(s: string)
    requires s != "" && forall i | 0 <= i < |s| :: IsNameChar(s[i])
    ensures TypeOfName(s) == LeafOfName(s)
  {
    hide LeafOfName, TypesOfNames, Split, RFind, ReadDecimal, AreDigits;
    assert s[0] != '(' && s[|s| - 1] != ']';
    assert |s| >= 2 ==> s[|s| - 2..][1] != ']';
  }

  /** A type's name reads back as the type. */
  lemma {:induction false} NameReads(t: Type)
    ensures TypeOfName(SolName(t)) == Some(t)
    decreases t
  {
    hide TypeOfName, LeafOfName, IsName, IsNameChar, Join, Decimal, ReadDecimal, AreDigits;
    match t
    case Vec(e) =>
      NameReads(e);
      ReadVec(SolName(e));
    case FixedArray(e, n) =>
      NameReads(e);
      DecimalReads(n);
      DecimalIsDigits(n);
      ReadFixedArray(SolName(e), Decimal(n));
    case Tuple(ts) =>
      forall i | 0 <= i < |ts| ensures IsName(Names(ts)[i]) && TypeOfName(Names(ts)[i]) == Some(ts[i]) {
        NameIsName(ts[i]);
        NameReads(ts[i]);
      }
      ReadTuple(Names(ts));
      assert TypeOfName(SolName(t)).value.fields == ts;
    case _ =>
      NameStarts(t);
      ReadLeaf(SolName(t));
      LeafReads(t);
  }

  lemma DecimalIsDigits(n: nat)
    ensures AreDigits(Decimal(n))
  {
  }

  /** No two types have one name. */
  lemma NamesAreDistinct(t: Type, u: Type)
    requires SolName(t) == SolName(u)
    ensures t == u
  {
    NameReads(t);
    NameReads(u);
  }

  /** No two functions have one signature: it tells the name and the types of all arguments. */
  lemma SignaturesAreDistinct(f: string, ts: seq<Type>, g: string, us: seq<Type>)
    requires '(' !in f && '(' !in g
    requires forall i | 0 <= i < |ts| :: TuplesHaveFields(ts[i])
    requires forall i | 0 <= i < |us| :: TuplesHaveFields(us[i])
    requires FunctionSignature(f, ParamsOf(ts)) == FunctionSignature(g, ParamsOf(us))
    ensures f == g && ts == us
  {
    SignatureIsTupleName(f, ts);
    SignatureIsTupleName(g, us);
    var a, b := f + SolName(Tuple(ts)), g + SolName(Tuple(us));
    assert a == b && a[|f|] == '(' && b[|g|] == '(';
    assert a[..|f|] == f && b[..|g|] == g && a[|f|..] == SolName(Tuple(ts)) && b[|g|..] == SolName(Tuple(us));
    NamesAreDistinct(Tuple(ts), Tuple(us));
  }

  // ---------------------------------------------------------------------------
  // Any text, any entry
  // ---------------------------------------------------------------------------

  /** The components are the parsed pieces of the text. */
  predicate AreParsed(ps: seq<AbiParam>, inner: string) {
    var pieces := Split(inner, 0, "");
    |ps| == |pieces| && forall i | 0 <= i < |ps| :: ps[i] == ParseTypeStr("", pieces[i])
  }

  /** The entry's type is the text itself, or the text is a list in parentheses with suffixes. */
  predicate Keeps(p: AbiParam, raw: string, inner: string, suffix: string) {
    || (p.paramType == raw && p.components == [])
    || (raw == "(" + inner + ")" + suffix && p.paramType == "tuple" + suffix && AreParsed(p.components, inner))
  }

  predicate InParentheses(raw: string) {
    |raw| >= 2 && raw[0] == '(' && raw[|raw| - 1] == ')'
  }

  /**
   * Parsing any text loses none of it: the entry's type is the text itself, or the text is a parenthesised list
   * with array suffixes, whose pieces are the components and whose suffixes stand behind `tuple`.
   */
  lemma {:induction false} ParseKeepsText(name: string, raw: string) returns (inner: string, suffix: string)
    ensures ParseTypeStr(name, raw).name == name
    ensures Keeps(ParseTypeStr(name, raw), raw, inner, suffix)
    ensures InParentheses(raw) ==> ParseTypeStr(name, raw).paramType == "tuple" && raw == "(" + inner + ")"
    decreases |raw|
  {
    hide ParseTypeStr, Keeps, ArraySuffix;
    inner, suffix := "", "";
    if InParentheses(raw) {
      ParseParentheses(name, raw);
      inner := raw[1..|raw| - 1];
    } else if ArraySuffix(raw).Some? {
      var base, last := raw[..ArraySuffix(raw).value], raw[ArraySuffix(raw).value..];
      ParseArray(name, raw);
      inner, suffix := ParseKeepsText("", base);
      assert raw == base + last;
      KeepsSuffix(ParseTypeStr("", base), name, base, inner, suffix, last);
      suffix := suffix + last;
    } else {
      PlainKeeps(name, raw);
    }
  }

  lemma PlainKeeps(name: string, raw: string)
    requires !InParentheses(raw) && ArraySuffix(raw).None?
    ensures ParseTypeStr(name, raw).name == name && Keeps(ParseTypeStr(name, raw), raw, "", "")
  {
    assert ParseTypeStr(name, raw) == AbiParam(name, raw, []);
  }

  /** Where the last array suffix starts. */
  function ArraySuffix(raw: string): (r: Option<nat>)
    ensures r.Some? ==> r.value < |raw| && raw[|raw| - 1] == ']'
  {
    if |raw| >= 2 && raw[|raw| - 2..] == "[]" then
      assert raw[|raw| - 1] == raw[|raw| - 2..][1];
      Some(|raw| - 2)
    else if |raw| > 0 && raw[|raw| - 1] == ']' then RFind(raw, '[')
    else None
  }

  lemma ParseArray(name: string, raw: string)
    requires ArraySuffix(raw).Some?
    ensures var bracket := ArraySuffix(raw).value;
            var inner := ParseTypeStr("", raw[..bracket]);
            ParseTypeStr(name, raw) == AbiParam(name, inner.paramType + raw[bracket..], inner.components)
  {
  }

  lemma ParseParentheses(name: string, raw: string)
    requires InParentheses(raw)
    ensures ParseTypeStr(name, raw).name == name && ParseTypeStr(name, raw).paramType == "tuple"
    ensures raw == "(" + raw[1..|raw| - 1] + ")"
    ensures Keeps(ParseTypeStr(name, raw), raw, raw[1..|raw| - 1], "")
  {
    var inner := raw[1..|raw| - 1];
    assert raw == "(" + inner + ")" == "(" + inner + ")" + "" && "tuple" == "tuple" + "";
    assert raw[|raw| - 1] != ']' && raw[|raw| - 2..][1] != ']';
    assert ParseTypeStr(name, raw) == AbiParam(name, "tuple", ParseAll(Split(inner, 0, ""), |raw| - 1));
    PiecesParse(inner, |raw| - 1);
    hide AreParsed, ParseTypeStr;
  }

  lemma KeepsSuffix(p: AbiParam, name: string, base: string, inner: string, suffix: string, last: string)
    requires Keeps(p, base, inner, suffix)
    ensures Keeps(AbiParam(name, p.paramType + last, p.components), base + last, inner, suffix + last)
  {
    hide AreParsed;
    assert ("tuple" + suffix) + last == "tuple" + (suffix + last);
    assert ("(" + inner + ")" + suffix) + last == "(" + inner + ")" + (suffix + last);
  }

  lemma PiecesParse(inner: string, bound: nat)
    requires |inner| <= bound
    ensures AreParsed(ParseAll(Split(inner, 0, ""), bound), inner)
  {
    hide Split, Trim, ParseTypeStr, IsBare;
    var pieces := Split(inner, 0, "");
    PiecesAreBare(inner, 0, "");
    forall i | 0 <= i < |pieces| ensures Trim(pieces[i]) == pieces[i] {
      TrimStrips("", pieces[i], "");
      assert "" + pieces[i] + "" == pieces[i];
    }
  }

  predicate IsTupleEntry(p: AbiParam) {
    p.paramType == "tuple" || HasPrefix(p.paramType, "tuple[")
  }

  /** The entry and, if it is a tuple, the entries of its components, at any depth. */
  function Entries(p: AbiParam): set<AbiParam>
    decreases p
  {
    {p} + if IsTupleEntry(p) then set i, q | 0 <= i < |p.components| && q in Entries(p.components[i]) :: q else {}
  }

  /** The error "missing 'components'": an entry has no canonical type exactly if a tuple in it has no component. */
  lemma {:induction false} CanonicalFails(p: AbiParam)
    ensures Canonical(p).None? <==> exists q | q in Entries(p) :: IsTupleEntry(q) && q.components == []
    decreases p
  {
    hide HasPrefix, Join;
    forall i | 0 <= i < |p.components|
      ensures Canonical(p.components[i]).None? <==>
              exists q | q in Entries(p.components[i]) :: IsTupleEntry(q) && q.components == []
    {
      CanonicalFails(p.components[i]);
    }
    CanonicalTuple(p);
    hide Canonical;
    assert p in Entries(p);
  }

  lemma CanonicalTuple(p: AbiParam)
    ensures Canonical(p).None? <==>
            && IsTupleEntry(p)
            && (p.components == [] || exists i | 0 <= i < |p.components| :: Canonical(p.components[i]).None?)
  {
    assert "tuple[]"[..6] == "tuple[";
    hide Join;
  }

  /** An ABI entry has the name it is given, and the components of a tuple, under any arrays, have none. */
  lemma {:induction false} EntryKeepsName(name: string, t: Type)
    ensures AbiParamOf(name, t).name == name
    ensures forall i | 0 <= i < |AbiParamOf(name, t).components| :: AbiParamOf(name, t).components[i].name == ""
    decreases t
  {
    match t
    case FixedArray(e, _) => EntryKeepsName("", e);
    case Vec(e) => EntryKeepsName("", e);
    case Tuple(ts) =>
      forall i | 0 <= i < |ts| ensures ParamsOf(ts)[i].name == "" {
        EntryKeepsName("", ts[i]);
      }
    case _ =>
  }

  lemma SampleNames()
    ensures SolName(Address) == "address" && SolName(Uint(32)) == "uint256"
  {
    assert Decimal(2) == "2" && Decimal(25) == "25" && Decimal(256) == "256";
  }

  lemma JoinTwo(a: string, b: string)
    ensures Join([a, b]) == a + "," + b
  {
    assert [a, b][1..] == [b];
  }

  lemma SampleName()
    ensures SolName(Tuple([Address, Uint(32)])) == "(address,uint256)"
  {
    var ts := [Address, Uint(32)];
    SampleNames();
    hide Decimal;
    assert Names(ts) == ["address", "uint256"];
    JoinTwo("address", "uint256");
    assert "(" + ("address" + "," + "uint256") + ")" == "(address,uint256)";
  }

  /** `transfer(address,uint256)`, letter by letter. */
  lemma TransferSignature()
    ensures FunctionSignature("transfer", ParamsOf([Address, Uint(32)])) == Some("transfer(address,uint256)")
  {
    hide FunctionSignature, ParamsOf, AbiParamOf, SolName, Join, Names;
    SampleName();
    SignatureIsTupleName("transfer", [Address, Uint(32)]);
    assert "transfer" + "(address,uint256)" == "transfer(address,uint256)";
  }
}
