/**
 * The builder DSL's selector dispatch: a fixed array of methods with a payable bitmask, and the dispatch
 * loops over it, as a refinement of an ordered list of entries.
 */
module Dispatcher {
  import opened Wrappers
  import opened Bytes
  import opened Bits

  datatype HandlerResult = Success(n: nat) | Revert(n: nat)

  datatype Ran = Ran(result: HandlerResult, output: seq<byte>)

  /** A method handler: from the input and the output buffer to a result and the buffer, rewritten in place. */
  type Handler = h: (seq<byte>, seq<byte>) -> Ran | forall i, o :: |h(i, o).output| == |o|
    witness (i: seq<byte>, o: seq<byte>) => Ran(Success(0), o)

  const NO_OP: Handler := (i: seq<byte>, o: seq<byte>) => Ran(Success(0), o)

  const MAX_METHODS: nat := 16

  /** The selectors of the framework errors. */
  const CALLDATA_TOO_LARGE: seq<byte> := [0x9e, 0x07, 0x7a, 0xe5]
  const NO_SELECTOR: seq<byte> := [0x68, 0x6f, 0xe3, 0x97]
  const UNKNOWN_SELECTOR: seq<byte> := [0xdc, 0x66, 0xf6, 0x73]
  const NON_PAYABLE_VALUE_RECEIVED: seq<byte> := [0xd4, 0xf4, 0x8f, 0x8d]

  // ---------------------------------------------------------------------------
  // Specification: an ordered list of entries
  // ---------------------------------------------------------------------------

  datatype Entry = Entry(selector: seq<byte>, handler: Handler, payable: bool)

  /** How the contract leaves: the two doors of the host. */
  datatype Exit = Returned(data: seq<byte>) | Reverted(data: seq<byte>)

  /** Which handler a dispatch runs, if any. */
  datatype Called = Nobody | Method(index: nat) | Fallback | Receive

  datatype Outcome = Outcome(exit: Exit, called: Called)

  /** The first entry with the selector. */
  function FirstMatch(entries: seq<Entry>, selector: seq<byte>): (r: Option<nat>)
    ensures r.Some? ==> r.value < |entries| && entries[r.value].selector == selector
    ensures r.Some? ==> forall j | 0 <= j < r.value :: entries[j].selector != selector
    ensures r.None? ==> forall j | 0 <= j < |entries| :: entries[j].selector != selector
  {
    if entries == [] then None
    else if entries[0].selector == selector then Some(0)
    else match FirstMatch(entries[1..], selector)
         case Some(i) => Some(i + 1)
         case None => None
  }

  function Min(a: nat, b: nat): nat {
    if a < b then a else b
  }

  /** `finalize_response`: the length is clamped to the buffer. */
  function Finalize(ran: Ran): Exit {
    match ran.result
    case Success(n) => Returned(ran.output[..Min(n, |ran.output|)])
    case Revert(n) => Reverted(ran.output[..Min(n, |ran.output|)])
  }

  /** Run `handler`, unless it is not payable and value is attached. */
  function Guarded(handler: Handler, payable: bool, called: Called, value: nat, input: seq<byte>,
      output: seq<byte>): Outcome
  {
    if !payable && value != 0 then Outcome(Reverted(NON_PAYABLE_VALUE_RECEIVED), Nobody)
    else Outcome(Finalize(handler(input, output)), called)
  }

  /** `ContractBuilder::dispatch_impl`. */
  function Dispatch(entries: seq<Entry>, size: nat, calldata: seq<byte>, value: nat): Outcome {
    if |calldata| > size then Outcome(Reverted(CALLDATA_TOO_LARGE), Nobody)
    else if |calldata| < 4 then Outcome(Reverted(NO_SELECTOR), Nobody)
    else match FirstMatch(entries, calldata[..4])
         case None => Outcome(Reverted(UNKNOWN_SELECTOR), Nobody)
         case Some(i) => Guarded(entries[i].handler, entries[i].payable, Method(i), value, calldata[4..], Fill(size, 0))
  }

  datatype FallbackSlot = FallbackSlot(handler: Handler, payable: bool)

  /** `ContractBuilderWithHandlers::dispatch_impl`. */
  function DispatchWithHandlers(entries: seq<Entry>, fallback: Option<FallbackSlot>, receive: Option<Handler>,
      size: nat, calldata: seq<byte>, value: nat): Outcome
  {
    if |calldata| > size then Outcome(Reverted(CALLDATA_TOO_LARGE), Nobody)
    else if |calldata| == 0 && receive.Some? then
      Outcome(Finalize(receive.value([], Fill(size, 0))), Receive)
    else if |calldata| >= 4 && FirstMatch(entries, calldata[..4]).Some? then
      var i := FirstMatch(entries, calldata[..4]).value;
      Guarded(entries[i].handler, entries[i].payable, Method(i), value, calldata[4..], Fill(size, 0))
    else if fallback.Some? then
      Guarded(fallback.value.handler, fallback.value.payable, Fallback, value, calldata, Fill(size, 0))
    else Outcome(Reverted(if |calldata| < 4 then NO_SELECTOR else UNKNOWN_SELECTOR), Nobody)
  }

  /** The calldata is for a fallback that is not payable, and value is attached. */
  predicate RefusesPayment(entries: seq<Entry>, fallback: Option<FallbackSlot>, receive: Option<Handler>,
      size: nat, calldata: seq<byte>, value: nat)
  {
    && |calldata| <= size && !(|calldata| == 0 && receive.Some?)
    && !(|calldata| >= 4 && FirstMatch(entries, calldata[..4]).Some?)
    && fallback.Some? && !fallback.value.payable && value != 0
  }

  /** No handler that is not payable runs when value is attached. */
  lemma NoUnpaidFor(entries: seq<Entry>, fallback: Option<FallbackSlot>, receive: Option<Handler>,
      size: nat, calldata: seq<byte>, value: nat)
    requires value != 0
    ensures match Dispatch(entries, size, calldata, value).called
            case Method(i) => i < |entries| && entries[i].payable
            case c => c == Nobody
    ensures match DispatchWithHandlers(entries, fallback, receive, size, calldata, value).called
            case Method(i) => i < |entries| && entries[i].payable
            case Fallback => fallback.Some? && fallback.value.payable
            case Receive => receive.Some? && calldata == []
            case Nobody => true
  {
  }

  /** A builder with only a receive handler behaves like the plain one on every non-empty calldata. */
  lemma ReceiveOnlyAgrees(entries: seq<Entry>, receive: Option<Handler>, size: nat, calldata: seq<byte>, value: nat)
    requires calldata != []
    ensures DispatchWithHandlers(entries, None, receive, size, calldata, value)
         == Dispatch(entries, size, calldata, value)
  {
  }

  /** A method registered behind another of the same selector is never reached; any other is reached as before. */
  lemma {:induction false} LaterEntriesDoNotShadow(entries: seq<Entry>, more: seq<Entry>, selector: seq<byte>)
    ensures FirstMatch(entries, selector).Some? ==>
              FirstMatch(entries + more, selector) == FirstMatch(entries, selector)
    ensures FirstMatch(entries, selector).None? && FirstMatch(more, selector).Some? ==>
              FirstMatch(entries + more, selector) == Some(|entries| + FirstMatch(more, selector).value)
    decreases |entries|
  {
    if entries == [] {
      assert entries + more == more;
    } else {
      assert (entries + more)[1..] == entries[1..] + more;
      LaterEntriesDoNotShadow(entries[1..], more, selector);
    }
  }

  // ---------------------------------------------------------------------------
  // Who is called, and what leaves
  // ---------------------------------------------------------------------------

  /** The calldata is for the method at `i`: the first with the selector in its first four bytes. */
  predicate ForMethod(entries: seq<Entry>, calldata: seq<byte>, i: nat) {
    && |calldata| >= 4 && i < |entries| && entries[i].selector == calldata[..4]
    && forall j | 0 <= j < i :: entries[j].selector != calldata[..4]
  }

  predicate ForNoMethod(entries: seq<Entry>, calldata: seq<byte>) {
    |calldata| >= 4 ==> forall j | 0 <= j < |entries| :: entries[j].selector != calldata[..4]
  }

  predicate Accepts(payable: bool, value: nat) {
    payable || value == 0
  }

  lemma MatchIsFirst(entries: seq<Entry>, calldata: seq<byte>, i: nat)
    requires |calldata| >= 4
    ensures FirstMatch(entries, calldata[..4]) == Some(i) <==> ForMethod(entries, calldata, i)
    ensures FirstMatch(entries, calldata[..4]).None? <==> ForNoMethod(entries, calldata)
  {
  }

  /** The plain builder calls the first method of the selector, if the calldata fit and it accepts the value. */
  lemma PlainCalls(entries: seq<Entry>, size: nat, calldata: seq<byte>, value: nat)
    ensures var called := Dispatch(entries, size, calldata, value).called;
            && !called.Fallback? && !called.Receive?
            && forall i: nat :: called == Method(i) <==>
                 |calldata| <= size && ForMethod(entries, calldata, i) && Accepts(entries[i].payable, value)
  {
    if |calldata| >= 4 {
      forall i: nat ensures FirstMatch(entries, calldata[..4]) == Some(i) <==> ForMethod(entries, calldata, i) {
        MatchIsFirst(entries, calldata, i);
      }
    }
  }

  /**
   * With handlers: empty calldata go to `receive`; calldata with the selector of a method to that method;
   * what neither takes, to the fallback. Methods and the fallback must accept the value.
   */
  lemma HandlersCalled(entries: seq<Entry>, fallback: Option<FallbackSlot>, receive: Option<Handler>, size: nat,
      calldata: seq<byte>, value: nat)
    ensures var called := DispatchWithHandlers(entries, fallback, receive, size, calldata, value).called;
            && (called == Receive <==> calldata == [] && receive.Some?)
            && (called == Fallback <==>
                  && |calldata| <= size && !(calldata == [] && receive.Some?) && ForNoMethod(entries, calldata)
                  && fallback.Some? && Accepts(fallback.value.payable, value))
            && forall i: nat :: called == Method(i) <==>
                 |calldata| <= size && ForMethod(entries, calldata, i) && Accepts(entries[i].payable, value)
  {
    if |calldata| >= 4 {
      forall i: nat
        ensures FirstMatch(entries, calldata[..4]) == Some(i) <==> ForMethod(entries, calldata, i)
        ensures FirstMatch(entries, calldata[..4]).None? <==> ForNoMethod(entries, calldata)
      {
        MatchIsFirst(entries, calldata, i);
      }
    }
  }

  /** What a handler's outcome looks like from outside: as many bytes as it reports, at most the buffer. */
  predicate LeavesWith(exit: Exit, ran: Ran) {
    match ran.result
    case Success(n) => exit.Returned? && IsFront(exit.data, ran.output, n)
    case Revert(n) => exit.Reverted? && IsFront(exit.data, ran.output, n)
  }

  predicate IsFront(data: seq<byte>, output: seq<byte>, n: nat) {
    data <= output && |data| == if n <= |output| then n else |output|
  }

  /** The buffer a handler is given. */
  predicate IsZeros(output: seq<byte>, size: nat) {
    |output| == size && forall i | 0 <= i < size :: output[i] == 0
  }

  /**
   * The handler called is run on its own input, on a zeroed buffer, and its outcome leaves: a method's input is
   * what follows the selector, the fallback's all of the calldata, and `receive` has none.
   */
  lemma HandlersOutcome(entries: seq<Entry>, fallback: Option<FallbackSlot>, receive: Option<Handler>, size: nat,
      calldata: seq<byte>, value: nat, zeros: seq<byte>)
    requires IsZeros(zeros, size)
    ensures var o := DispatchWithHandlers(entries, fallback, receive, size, calldata, value);
            match o.called
            case Method(i) =>
              i < |entries| && |calldata| >= 4 && LeavesWith(o.exit, entries[i].handler(calldata[4..], zeros))
            case Fallback => fallback.Some? && LeavesWith(o.exit, fallback.value.handler(calldata, zeros))
            case Receive => receive.Some? && LeavesWith(o.exit, receive.value([], zeros))
            case Nobody => true
  {
    assert zeros == Fill(size, 0);
  }

  lemma PlainOutcome(entries: seq<Entry>, size: nat, calldata: seq<byte>, value: nat, zeros: seq<byte>)
    requires IsZeros(zeros, size)
    ensures var o := Dispatch(entries, size, calldata, value);
            match o.called
            case Method(i) =>
              i < |entries| && |calldata| >= 4 && LeavesWith(o.exit, entries[i].handler(calldata[4..], zeros))
            case _ => true
  {
    assert zeros == Fill(size, 0);
  }

  /** Where nobody is called, the contract reverts with the error of the one reason there is for it. */
  lemma NobodyMeansError(entries: seq<Entry>, fallback: Option<FallbackSlot>, receive: Option<Handler>, size: nat,
      calldata: seq<byte>, value: nat)
    ensures var o := DispatchWithHandlers(entries, fallback, receive, size, calldata, value);
            o.called.Nobody? ==>
              o.exit == Reverted(
                if |calldata| > size then CALLDATA_TOO_LARGE
                else if fallback.Some? || !ForNoMethod(entries, calldata) then NON_PAYABLE_VALUE_RECEIVED
                else if |calldata| < 4 then NO_SELECTOR
                else UNKNOWN_SELECTOR)
    ensures var o := Dispatch(entries, size, calldata, value);
            o.called.Nobody? ==>
              o.exit == Reverted(
                if |calldata| > size then CALLDATA_TOO_LARGE
                else if |calldata| < 4 then NO_SELECTOR
                else if ForNoMethod(entries, calldata) then UNKNOWN_SELECTOR
                else NON_PAYABLE_VALUE_RECEIVED)
  {
    if |calldata| >= 4 {
      MatchIsFirst(entries, calldata, 0);
    }
  }

  /** The errors can be told apart. */
  lemma ErrorsAreDistinct()
    ensures |{CALLDATA_TOO_LARGE, NO_SELECTOR, UNKNOWN_SELECTOR, NON_PAYABLE_VALUE_RECEIVED}| == 4
  {
    assert CALLDATA_TOO_LARGE[0] == 0x9e && NO_SELECTOR[0] == 0x68;
    assert UNKNOWN_SELECTOR[0] == 0xdc && NON_PAYABLE_VALUE_RECEIVED[0] == 0xd4;
  }

  // ---------------------------------------------------------------------------
  // The builder
  // ---------------------------------------------------------------------------

  /** The host of one call: its inputs, and what the contract has done so far. */
  class Host {
    const calldata: seq<byte>
    const value: nat
    var exits: seq<Exit>
    ghost var calls: seq<Called>

    constructor (calldata: seq<byte>, value: nat)
      ensures this.calldata == calldata && this.value == value && exits == [] && calls == []
    {
      this.calldata := calldata;
      this.value := value;
      exits := [];
      calls := [];
    }

    method Leave(exit: Exit)
      modifies this`exits
      ensures exits == old(exits) + [exit]
    {
      exits := exits + [exit];
    }

    ghost method Note(called: Called)
      modifies this`calls
      ensures calls == old(calls) + (if called.Nobody? then [] else [called])
    {
      calls := calls + (if called.Nobody? then [] else [called]);
    }
  }

  /** The host has seen exactly this one outcome since `exits` and `calls`. */
  ghost predicate Saw(host: Host, exits: seq<Exit>, calls: seq<Called>, o: Outcome)
    reads host
  {
    host.exits == exits + [o.exit] && host.calls == calls + (if o.called.Nobody? then [] else [o.called])
  }

  class ContractBuilder {
    const methods: array<(seq<byte>, Handler)>
    var len: nat
    var payableBits: nat

    ghost predicate Valid()
      reads this, methods
    {
      methods.Length == MAX_METHODS && len <= MAX_METHODS && payableBits < Pow2(len)
    }

    /** The list that the array and the bitmask stand for. */
    function Entries(): (entries: seq<Entry>)
      requires Valid()
      reads this, methods
      ensures |entries| == len
    {
      seq(len, i requires 0 <= i < len && Valid() reads this, methods =>
        Entry(methods[i].0, methods[i].1, Bit(payableBits, i)))
    }

    constructor ()
      ensures Valid() && Entries() == [] && fresh(methods)
    {
      methods := new (seq<byte>, Handler)[MAX_METHODS](_ => ([0, 0, 0, 0], NO_OP));
      len := 0;
      payableBits := 0;
    }

    /** `method`; a full builder panics, here `ok == false`. */
    method Register(selector: seq<byte>, handler: Handler) returns (ok: bool)
      requires Valid()
      modifies this, methods
      ensures Valid() && ok == (|old(Entries())| < MAX_METHODS)
      ensures Entries() == if ok then old(Entries()) + [Entry(selector, handler, false)] else old(Entries())
    {
      ok := len < MAX_METHODS;
      if ok {
        SetTopBit(payableBits, len);
        methods[len] := (selector, handler);
        len := len + 1;
      }
    }

    /** `payable_method`. */
    method RegisterPayable(selector: seq<byte>, handler: Handler) returns (ok: bool)
      requires Valid()
      modifies this, methods
      ensures Valid() && ok == (|old(Entries())| < MAX_METHODS)
      ensures Entries() == if ok then old(Entries()) + [Entry(selector, handler, true)] else old(Entries())
    {
      ok := len < MAX_METHODS;
      if ok {
        SetTopBit(payableBits, len);
        methods[len] := (selector, handler);
        payableBits := Or(payableBits, Pow2(len));
        len := len + 1;
      }
    }

    /** `try_route`: scan for the selector; a matched method may still be refused for the value attached. */
    method TryRoute(host: Host, selector: seq<byte>, input: seq<byte>, output: array<byte>)
      returns (r: Option<HandlerResult>, ghost called: Called)
      requires Valid() && output.Length >= 4
      modifies output, host`calls
      ensures r.Some? <==> FirstMatch(Entries(), selector).Some?
      ensures r.None? ==> output[..] == old(output[..]) && called == Nobody
      ensures r.Some? ==>
                var i := FirstMatch(Entries(), selector).value;
                Outcome(Finalize(Ran(r.value, output[..])), called)
                == Guarded(Entries()[i].handler, Entries()[i].payable, Method(i), host.value, input, old(output[..]))
      ensures host.calls == old(host.calls) + (if called.Nobody? then [] else [called])
    {
      called := Nobody;
      ghost var entries := Entries();
      var i := 0;
      while i < len
        invariant 0 <= i <= len && host.calls == old(host.calls) && output[..] == old(output[..])
        invariant forall j | 0 <= j < i :: entries[j].selector != selector
      {
        var (sel, handler) := methods[i];
        if sel == selector {
          assert entries[i].selector == selector;
          assert FirstMatch(entries, selector) == Some(i);
          var isPayable := payableBits / Pow2(i) % 2 == 1;
          if !isPayable && host.value != 0 {
            WriteError(output, NON_PAYABLE_VALUE_RECEIVED);
            return Some(Revert(4)), Nobody;
          }
          called := Method(i);
          var result := RunHandler(host, handler, input, output, Method(i));
          return Some(result), called;
        }
        i := i + 1;
      }
      r := None;
    }

    /** `dispatch_impl`: exactly one exit, at most one handler, both as the list says. */
    method DispatchImpl(host: Host, size: nat)
      requires Valid()
      modifies host
      ensures Saw(host, old(host.exits), old(host.calls), Dispatch(Entries(), size, host.calldata, host.value))
    {
      var calldata := host.calldata;
      if |calldata| > size {
        host.Leave(Reverted(CALLDATA_TOO_LARGE));
      } else if |calldata| < 4 {
        host.Leave(Reverted(NO_SELECTOR));
      } else {
        var output := new byte[size](_ => 0);
        assert output[..] == Fill(size, 0);
        var result, called := TryRoute(host, calldata[..4], calldata[4..], output);
        match result
        case Some(hr) => FinalizeResponse(host, output, hr);
        case None => host.Leave(Reverted(UNKNOWN_SELECTOR));
      }
    }
  }

  method WriteError(output: array<byte>, error: seq<byte>)
    requires |error| == 4 <= output.Length
    modifies output
    ensures output[..4] == error && output[4..] == old(output[4..])
  {
    forall i | 0 <= i < 4 {
      output[i] := error[i];
    }
  }

  method RunHandler(host: Host, handler: Handler, input: seq<byte>, output: array<byte>, ghost who: Called)
    returns (result: HandlerResult)
    requires !who.Nobody?
    modifies output, host`calls
    ensures Ran(result, output[..]) == handler(input, old(output[..]))
    ensures host.calls == old(host.calls) + [who]
  {
    var ran := handler(input, output[..]);
    forall i | 0 <= i < output.Length {
      output[i] := ran.output[i];
    }
    host.Note(who);
    assert output[..] == ran.output;
    result := ran.result;
  }

  method FinalizeResponse(host: Host, output: array<byte>, result: HandlerResult)
    modifies host`exits
    ensures host.exits == old(host.exits) + [Finalize(Ran(result, output[..]))]
  {
    match result
    case Success(n) =>
      var len := if n < output.Length then n else output.Length;
      host.Leave(Returned(output[..len]));
    case Revert(n) =>
      var len := if n < output.Length then n else output.Length;
      host.Leave(Reverted(output[..len]));
  }

  /** The builder with a fallback or receive handler attached. */
  class ContractBuilderWithHandlers {
    const inner: ContractBuilder
    var fallback: Option<FallbackSlot>
    var receive: Option<Handler>

    constructor (inner: ContractBuilder, fallback: Option<FallbackSlot>, receive: Option<Handler>)
      ensures this.inner == inner && this.fallback == fallback && this.receive == receive
    {
      this.inner := inner;
      this.fallback := fallback;
      this.receive := receive;
    }

    /**
     * `dispatch_impl`; like every revert, an early one ends the frame. It panics, here `ok == false`, exactly
     * when the fallback refuses a payment and the buffer has no room for the error's selector.
     */
    method DispatchImpl(host: Host, size: nat) returns (ok: bool)
      requires inner.Valid()
      modifies host
      ensures ok <==>
                size >= 4 || !RefusesPayment(inner.Entries(), fallback, receive, size, host.calldata, host.value)
      ensures !ok ==> host.exits == old(host.exits) && host.calls == old(host.calls)
      ensures ok ==>
                Saw(host, old(host.exits), old(host.calls),
                    DispatchWithHandlers(inner.Entries(), fallback, receive, size, host.calldata, host.value))
    {
      hide FirstMatch;
      var calldata := host.calldata;
      if |calldata| > size {
        host.Leave(Reverted(CALLDATA_TOO_LARGE));
        return true;
      }
      var output := new byte[size](_ => 0);
      assert output[..] == Fill(size, 0);
      if |calldata| == 0 && receive.Some? {
        var result := RunHandler(host, receive.value, [], output, Receive);
        FinalizeResponse(host, output, result);
        return true;
      }
      var defaultErr := NO_SELECTOR;
      if |calldata| >= 4 {
        var result, called := inner.TryRoute(host, calldata[..4], calldata[4..], output);
        if result.Some? {
          FinalizeResponse(host, output, result.value);
          return true;
        }
        defaultErr := UNKNOWN_SELECTOR;
      }
      if fallback.Some? {
        if !fallback.value.payable && host.value != 0 {
          if size < 4 {
            return false;
          }
          WriteError(output, NON_PAYABLE_VALUE_RECEIVED);
          host.Leave(Reverted(output[..4]));
          return true;
        }
        var result := RunHandler(host, fallback.value.handler, calldata, output, Fallback);
        FinalizeResponse(host, output, result);
        return true;
      }
      host.Leave(Reverted(defaultErr));
      return true;
    }
  }
}
