/**
 * A cross-contract call from end to end: the caller frames selector and arguments in its buffer, the
 * callee's dispatcher hands the rest of that buffer to the matched handler, and the caller decodes what
 * the handler returned.
 */
module Call {
  import opened Wrappers
  import opened Bytes
  import opened AbiTypes
  import opened AbiSizes
  import opened AbiSpec
  import opened AbiDecoder
  import opened AbiRoundTrip
  import opened AbiEncoder
  import opened Dispatcher

  datatype CallError = InputBufTooSmall | OutputBufTooSmall | CalleeReverted | DecodingError

  datatype CallResult<+T> = Done(value: T) | Failed(error: CallError)

  // ---------------------------------------------------------------------------
  // The caller
  // ---------------------------------------------------------------------------

  /** The framing of `call_raw_inner`: the callee is given the whole buffer. */
  method FrameCall(selector: seq<byte>, t: Type, args: Value, inputBuf: array<byte>) returns (r: CallResult<seq<byte>>)
    requires |selector| == 4 && HasType(t, args) && WellFormed(t)
    requires inputBuf.Length < USIZE_LIMIT
    modifies inputBuf
    ensures r.Failed? <==> inputBuf.Length < 4 + EncodeLen(t, args)
    ensures r.Failed? ==> r.error == InputBufTooSmall && inputBuf[..] == old(inputBuf[..])
    ensures r.Done? ==> |EncTop(t, args)| == EncodeLen(t, args)
    ensures r.Done? ==> r.value == inputBuf[..] == Framed(selector, t, args, old(inputBuf[..]))
  {
    hide HasType, WellFormed, EncTop, EncodeLen, Splice;
    if inputBuf.Length < 4 + EncodeLen(t, args) {
      return Failed(InputBufTooSmall);
    }
    CopyRange(inputBuf, 0, selector);
    EncodeTo(t, args, inputBuf, 4);
    return Done(inputBuf[..]);
  }

  /** Selector, encoded arguments, and what was left over in the caller's buffer. */
  ghost function Framed(selector: seq<byte>, t: Type, args: Value, buf: seq<byte>): (r: seq<byte>)
    requires HasType(t, args) && |selector| == 4 && 4 + |EncTop(t, args)| <= |buf|
    ensures |r| == |buf|
  {
    Splice(Splice(buf, 0, Solid(selector)), 4, EncTop(t, args))
  }

  lemma SpliceLies(s: seq<byte>, pos: nat, cs: seq<Cell>)
    requires pos + |cs| <= |s|
    ensures At(Splice(s, pos, cs), pos, cs) && Splice(s, pos, cs)[..pos] == s[..pos]
    ensures Splice(s, pos, cs)[pos + |cs|..] == s[pos + |cs|..]
  {
  }

  lemma AtRest(s: seq<byte>, pos: nat, cs: seq<Cell>)
    requires At(s, pos, cs)
    ensures At(s[pos..], 0, cs)
  {
  }

  /** The callee finds the selector, and behind it an input that starts with the arguments. */
  lemma FramedParts(selector: seq<byte>, t: Type, args: Value, buf: seq<byte>)
    requires HasType(t, args) && |selector| == 4 && 4 + |EncTop(t, args)| <= |buf|
    ensures Framed(selector, t, args, buf)[..4] == selector
    ensures At(Framed(selector, t, args, buf)[4..], 0, EncTop(t, args))
    ensures Framed(selector, t, args, buf)[4 + |EncTop(t, args)|..] == buf[4 + |EncTop(t, args)|..]
  {
    var once := Splice(buf, 0, Solid(selector));
    SpliceLies(buf, 0, Solid(selector));
    AtSolid(once, 0, selector);
    SpliceLies(once, 4, EncTop(t, args));
    assert once[4 + |EncTop(t, args)|..] == buf[4 + |EncTop(t, args)|..];
    hide HasType, EncTop, Splice, At;
    AtRest(Splice(once, 4, EncTop(t, args)), 4, EncTop(t, args));
  }

  /** `extract_output`: `returned` is the host's return data, copied into the caller's buffer. */
  method ExtractOutput(t: Type, returned: seq<byte>, outputBuf: array<byte>) returns (r: CallResult<Value>)
    requires WellFormed(t)
    modifies outputBuf
    ensures r == Extracted(t, returned, outputBuf.Length)
    ensures outputBuf[..] ==
            if |returned| > outputBuf.Length then old(outputBuf[..]) else returned + old(outputBuf[|returned|..])
  {
    if |returned| > outputBuf.Length {
      return Failed(OutputBufTooSmall);
    }
    CopyRange(outputBuf, 0, returned);
    assert outputBuf[..|returned|] == returned;
    match Decode(t, outputBuf[..|returned|])
    case Ok(v) => r := Done(v);
    case Err => r := Failed(DecodingError);
  }

  /** The return data decoded, if they fit a buffer of `size` bytes. */
  function Extracted(t: Type, returned: seq<byte>, size: nat): CallResult<Value>
    requires WellFormed(t)
  {
    if |returned| > size then Failed(OutputBufTooSmall)
    else match Decode(t, returned)
         case Ok(v) => Done(v)
         case Err => Failed(DecodingError)
  }

  // ---------------------------------------------------------------------------
  // The callee
  // ---------------------------------------------------------------------------

  /** The handler reports success and has left `cells` at the front of its buffer. */
  predicate Answers(ran: Ran, cells: seq<Cell>) {
    && |cells| <= |ran.output| && ran.result == Success(|cells|)
    && forall i | 0 <= i < |cells| :: cells[i] == Hole || cells[i] == Byte(ran.output[i])
  }

  /** A handler that decodes its arguments, applies `f` and encodes the result, given room for it. */
  ghost predicate Serves(h: Handler, targs: Type, tres: Type, f: Value -> Value)
    requires WellFormed(targs)
  {
    forall input, output, v ::
      Decode(targs, input) == Ok(v) && HasType(tres, f(v)) && |EncTop(tres, f(v))| <= |output| ==>
        Answers(h(input, output), EncTop(tres, f(v)))
  }

  /** The first method registered for the selector serves `f`, and accepts the value attached. */
  ghost predicate Offers(entries: seq<Entry>, selector: seq<byte>, targs: Type, tres: Type, f: Value -> Value,
      value: nat)
    requires WellFormed(targs)
  {
    match FirstMatch(entries, selector)
    case Some(i) => Serves(entries[i].handler, targs, tres, f) && (entries[i].payable || value == 0)
    case None => false
  }

  /** The length guard admits the value in an input of `size` bytes. */
  predicate Admitted(t: Type, v: Value, size: nat)
    requires HasType(t, v)
  {
    VecsFit(t, v, size / 32)
  }

  /** It always does where the elements of every `Vec` take up space. */
  lemma FittingIsAdmitted(t: Type, v: Value, size: nat)
    requires WellFormed(t) && ElementsTakeSpace(t) && HasType(t, v) && |EncTop(t, v)| <= size
    ensures Admitted(t, v, size)
  {
    EncLength(t, v);
    GuardAdmits(t, v, size);
  }

  lemma DispatchMatched(entries: seq<Entry>, size: nat, calldata: seq<byte>, value: nat, i: nat)
    requires 4 <= |calldata| <= size && FirstMatch(entries, calldata[..4]) == Some(i)
    requires entries[i].payable || value == 0
    ensures Dispatch(entries, size, calldata, value)
         == Outcome(Finalize(entries[i].handler(calldata[4..], Fill(size, 0))), Method(i))
  {
  }

  lemma ServedExit(h: Handler, targs: Type, tres: Type, f: Value -> Value, input: seq<byte>, output: seq<byte>,
      v: Value)
    requires WellFormed(targs) && Serves(h, targs, tres, f) && Decode(targs, input) == Ok(v)
    requires HasType(tres, f(v)) && |EncTop(tres, f(v))| <= |output|
    ensures Finalize(h(input, output)).Returned?
    ensures var data := Finalize(h(input, output)).data;
            |data| == |EncTop(tres, f(v))| && At(data, 0, EncTop(tres, f(v)))
  {
    hide HasType, WellFormed, EncTop, Decode;
    assert Answers(h(input, output), EncTop(tres, f(v)));
  }

  /**
   * The call computes `f`: the bytes framed by the caller, with anything left over behind them, reach
   * the first method registered for the selector, and its return data decode to the result.
   */
  lemma CallComputes(entries: seq<Entry>, size: nat, selector: seq<byte>, targs: Type, tres: Type, args: Value,
      f: Value -> Value, buf: seq<byte>, value: nat)
    requires WellFormed(targs) && HasType(targs, args) && WellFormed(tres) && HasType(tres, f(args))
    requires |selector| == 4 && Offers(entries, selector, targs, tres, f, value)
    requires 4 + |EncTop(targs, args)| <= |buf| <= size <= ISIZE_MAX && |EncTop(tres, f(args))| <= size
    requires Admitted(targs, args, |buf| - 4) && Admitted(tres, f(args), |EncTop(tres, f(args))|)
    ensures var o := Dispatch(entries, size, Framed(selector, targs, args, buf), value);
            && FirstMatch(entries, selector).Some? && o.called == Method(FirstMatch(entries, selector).value)
            && o.exit.Returned? && |o.exit.data| == |EncTop(tres, f(args))|
            && Decode(tres, o.exit.data) == Ok(f(args))
  {
    hide HasType, WellFormed, VecsFit, EncTop, Decode, Dispatch, FirstMatch, Serves, Framed, Finalize, At;
    var i := FirstMatch(entries, selector).value;
    var calldata := Framed(selector, targs, args, buf);
    FramedParts(selector, targs, args, buf);
    DispatchMatched(entries, size, calldata, value, i);
    DecodeInvertsEncode(targs, args, calldata[4..]);
    ServedExit(entries[i].handler, targs, tres, f, calldata[4..], Fill(size, 0), args);
    DecodeInvertsEncode(tres, f(args), Dispatch(entries, size, calldata, value).exit.data);
  }

  ghost function Respond(targs: Type, tres: Type, f: Value -> Value, input: seq<byte>, output: seq<byte>): (r: Ran)
    requires WellFormed(targs)
    ensures |r.output| == |output|
  {
    match Decode(targs, input)
    case Err => Ran(Revert(0), output)
    case Ok(v) =>
      if HasType(tres, f(v)) && |EncTop(tres, f(v))| <= |output|
      then Ran(Success(|EncTop(tres, f(v))|), Splice(output, 0, EncTop(tres, f(v))))
      else Ran(Revert(0), output)
  }

  /** Such handlers exist for every `f`, so the theorem is about something. */
  lemma SomeHandlerServes(targs: Type, tres: Type, f: Value -> Value)
    requires WellFormed(targs)
    ensures exists h: Handler :: Serves(h, targs, tres, f)
  {
    hide HasType, WellFormed, Decode, EncTop, Answers, Respond;
    var respond := (input: seq<byte>, output: seq<byte>) => Respond(targs, tres, f, input, output);
    assert forall i: seq<byte>, o: seq<byte> :: |respond(i, o).output| == |o|;
    var h: Handler := respond;
    forall input, output, v |
      Decode(targs, input) == Ok(v) && HasType(tres, f(v)) && |EncTop(tres, f(v))| <= |output|
      ensures Answers(h(input, output), EncTop(tres, f(v)))
    {
      RespondAnswers(targs, tres, f, input, output, v);
    }
    assert Serves(h, targs, tres, f);
  }

  lemma RespondAnswers(targs: Type, tres: Type, f: Value -> Value, input: seq<byte>, output: seq<byte>, v: Value)
    requires WellFormed(targs) && Decode(targs, input) == Ok(v)
    requires HasType(tres, f(v)) && |EncTop(tres, f(v))| <= |output|
    ensures Answers(Respond(targs, tres, f, input, output), EncTop(tres, f(v)))
  {
    hide HasType, WellFormed, Decode, EncTop;
  }

  // ---------------------------------------------------------------------------
  // Both
  // ---------------------------------------------------------------------------

  /** What the caller makes of the callee's exit. */
  function Received(t: Type, exit: Exit, size: nat): CallResult<Value>
    requires WellFormed(t)
  {
    match exit
    case Returned(data) => Extracted(t, data, size)
    case Reverted(_) => Failed(CalleeReverted)
  }

  /**
   * The caller has a result exactly if the callee returned data that fit its buffer and decode; a callee that
   * reverts never yields one.
   */
  lemma DoneMeansReturned(t: Type, exit: Exit, size: nat, v: Value)
    requires WellFormed(t)
    ensures Received(t, exit, size) == Done(v) <==>
            exit.Returned? && |exit.data| <= size && Decode(t, exit.data) == Ok(v)
    ensures Received(t, exit, size) == Failed(CalleeReverted) <==> exit.Reverted?
    ensures Received(t, exit, size) == Failed(OutputBufTooSmall) <==> exit.Returned? && |exit.data| > size
  {
    hide Decode, WellFormed;
  }

  /** `call`: frame the arguments, run the callee, decode what it returned. */
  method CallContract(selector: seq<byte>, targs: Type, args: Value, tres: Type, inputBuf: array<byte>,
      outputBuf: array<byte>, callee: ContractBuilder, size: nat, value: nat) returns (r: CallResult<Value>)
    requires |selector| == 4 && WellFormed(targs) && HasType(targs, args) && WellFormed(tres)
    requires callee.Valid() && inputBuf != outputBuf && inputBuf.Length < USIZE_LIMIT
    modifies inputBuf, outputBuf
    ensures inputBuf.Length < 4 + EncodeLen(targs, args) ==> r == Failed(InputBufTooSmall)
    ensures inputBuf.Length >= 4 + EncodeLen(targs, args) ==>
              && |EncTop(targs, args)| == EncodeLen(targs, args)
              && var calldata := Framed(selector, targs, args, old(inputBuf[..]));
                 r == Received(tres, Dispatch(callee.Entries(), size, calldata, value).exit, outputBuf.Length)
  {
    hide *;
    var framed := FrameCall(selector, targs, args, inputBuf);
    match framed
    case Failed(e) => r := Failed(e);
    case Done(calldata) =>
      var exit := RunCallee(callee, size, calldata, value);
      r := Receive(tres, exit, outputBuf);
  }

  /** The host runs the callee on the calldata. */
  method RunCallee(callee: ContractBuilder, size: nat, calldata: seq<byte>, value: nat) returns (exit: Exit)
    requires callee.Valid()
    ensures exit == Dispatch(callee.Entries(), size, calldata, value).exit
  {
    hide Dispatch;
    var host := new Host(calldata, value);
    callee.DispatchImpl(host, size);
    exit := host.exits[0];
  }

  method Receive(t: Type, exit: Exit, outputBuf: array<byte>) returns (r: CallResult<Value>)
    requires WellFormed(t)
    modifies outputBuf
    ensures r == Received(t, exit, outputBuf.Length)
  {
    match exit
    case Returned(data) => r := ExtractOutput(t, data, outputBuf);
    case Reverted(_) => r := Failed(CalleeReverted);
  }

  /**
   * What `CallContract` returns for a callee that offers `f`: the result itself if its encoding fits the
   * caller's buffer, and the length check's error otherwise.
   */
  lemma CallReturnsResult(entries: seq<Entry>, size: nat, selector: seq<byte>, targs: Type, tres: Type, args: Value,
      f: Value -> Value, buf: seq<byte>, value: nat, room: nat)
    requires WellFormed(targs) && HasType(targs, args) && WellFormed(tres) && HasType(tres, f(args))
    requires |selector| == 4 && Offers(entries, selector, targs, tres, f, value)
    requires 4 + |EncTop(targs, args)| <= |buf| <= size <= ISIZE_MAX && |EncTop(tres, f(args))| <= size
    requires Admitted(targs, args, |buf| - 4) && Admitted(tres, f(args), |EncTop(tres, f(args))|)
    ensures Received(tres, Dispatch(entries, size, Framed(selector, targs, args, buf), value).exit, room)
         == if |EncTop(tres, f(args))| > room then Failed(OutputBufTooSmall) else Done(f(args))
  {
    hide HasType, WellFormed, Admitted, EncTop, Decode, Dispatch, FirstMatch, Framed, Offers;
    CallComputes(entries, size, selector, targs, tres, args, f, buf, value);
  }
}
