/**
 * The reentrancy guard as a transition system over a whole transaction: a stack of call frames, each
 * with its own memory image, and the transient storage they share.
 *
 * A transient slot that reads non-zero is represented by its storage context being in `locks`. When a
 * frame fails, its transient writes are undone, as the Specification section of EIP-1153 demands; for
 * that each frame remembers the locks as they were when it was called.
 */
module Reentrancy {
  /** A storage context: the contract whose storage the frame runs on (a delegate call keeps it). */
  type Context = nat

  /**
   * `held` is the frame-local flag `REENTRANCY_LOCK_HELD`; `guarded` says that execution is inside the
   * body of a guarded method, so that the generated unlock is still to come.
   */
  datatype Frame = Frame(ctx: Context, held: bool, guarded: bool, snapshot: set<Context>)

  datatype State = State(stack: seq<Frame>, locks: set<Context>) {
    predicate Running() {
      |stack| > 0
    }

    function Top(): Frame
      requires Running()
    {
      stack[|stack| - 1]
    }

    function SetTop(f: Frame): State
      requires Running()
    {
      this.(stack := stack[..|stack| - 1] + [f])
    }

    function Pop(): State
      requires Running()
    {
      this.(stack := stack[..|stack| - 1])
    }
  }

  const INITIAL := State([], {})

  /** What the running frame, or the outside world for `Call` on an empty stack, does next. */
  datatype Action =
    | Call(ctx: Context)
    | GuardedEntry   // dispatch of a `&mut self` guarded method: check, then lock
    | ViewEntry      // dispatch of a `&self` guarded method: check only
    | BodyReturns    // a guarded body returns normally: the generated unlock
    | ReturnValue    // `return_value`, from the dispatcher or raw from a body
    | Terminate      // `terminate`: the frame ends in success without the clearing helper
    | Fail           // `revert`, a trap, or running out of gas

  /** The frame is gone and its transient writes with it. */
  function Rollback(s: State): State
    requires s.Running()
  {
    s.Pop().(locks := s.Top().snapshot)
  }

  predicate Enabled(s: State, a: Action) {
    a.Call? || (s.Running() && (a.BodyReturns? ==> s.Top().guarded))
  }

  function Step(s: State, a: Action): State
    requires Enabled(s, a)
  {
    match a
    case Call(ctx) => s.(stack := s.stack + [Frame(ctx, false, false, s.locks)])
    case GuardedEntry =>
      if s.Top().ctx in s.locks then Rollback(s)
      else s.SetTop(s.Top().(held := true, guarded := true)).(locks := s.locks + {s.Top().ctx})
    case ViewEntry =>
      if s.Top().ctx in s.locks then Rollback(s) else s
    case BodyReturns =>
      s.SetTop(s.Top().(held := false, guarded := false)).(locks := s.locks - {s.Top().ctx})
    case ReturnValue =>
      s.Pop().(locks := if s.Top().held then s.locks - {s.Top().ctx} else s.locks)
    case Terminate => s.Pop()
    case Fail => Rollback(s)
  }

  /** The contexts whose lock some frame of the stack holds. */
  function Holders(stack: seq<Frame>): set<Context> {
    set i | 0 <= i < |stack| && stack[i].held :: stack[i].ctx
  }

  /** The locks that a stack's frames do not account for. */
  function Stray(stack: seq<Frame>, locks: set<Context>): set<Context> {
    locks - Holders(stack)
  }

  /** The stray locks when frame `i` was called. */
  function StrayBelow(stack: seq<Frame>, i: nat): set<Context>
    requires i < |stack|
  {
    Stray(stack[..i], stack[i].snapshot)
  }

  /**
   * Locks are those of the frames that hold them and stray ones; stray locks only accumulate up the stack;
   * a frame holds its lock exactly while in a guarded body, and no two frames hold one context's lock.
   */
  ghost predicate Inv(s: State) {
    && Holders(s.stack) <= s.locks
    && (forall i | 0 <= i < |s.stack| :: Holders(s.stack[..i]) <= s.stack[i].snapshot)
    && (forall i | 0 <= i < |s.stack| :: StrayBelow(s.stack, i) <= Stray(s.stack, s.locks))
    && (forall i, j | 0 <= i < j < |s.stack| :: StrayBelow(s.stack, i) <= StrayBelow(s.stack, j))
    && (forall i | 0 <= i < |s.stack| :: s.stack[i].held == s.stack[i].guarded)
    && (forall i, j | 0 <= i < j < |s.stack| && s.stack[i].held && s.stack[j].held ::
          s.stack[i].ctx != s.stack[j].ctx)
  }

  lemma HoldersPush(stack: seq<Frame>, f: Frame)
    ensures Holders(stack + [f]) == Holders(stack) + (if f.held then {f.ctx} else {})
  {
    var both := stack + [f];
    forall c | c in Holders(stack) ensures c in Holders(both) {
      var i :| 0 <= i < |stack| && stack[i].held && stack[i].ctx == c;
      assert both[i] == stack[i];
    }
    if f.held {
      assert both[|stack|].held;
    }
  }

  /** What the invariant says of the running frame and the frames below it. */
  lemma TopSplit(s: State)
    requires s.Running() && Inv(s)
    ensures var below := s.Pop().stack;
            && s.stack == below + [s.Top()]
            && Holders(s.stack) == Holders(below) + (if s.Top().held then {s.Top().ctx} else {})
            && (s.Top().held ==> s.Top().ctx !in Holders(below))
            && Holders(below) <= s.Top().snapshot
            && Stray(below, s.Top().snapshot) <= Stray(s.stack, s.locks)
            && s.Top().snapshot <= s.locks
            && Inv(State(below, s.Top().snapshot))
  {
    var below := s.Pop().stack;
    assert s.stack[..|below|] == below;
    HoldersPush(below, s.Top());
    assert Stray(below, s.Top().snapshot) == StrayBelow(s.stack, |below|) <= Stray(s.stack, s.locks);
    assert s.Top().held ==> forall i | 0 <= i < |below| && below[i].held :: s.stack[i].ctx != s.Top().ctx;
    forall c | c in s.Top().snapshot ensures c in s.locks {
      assert c in Holders(below) || c in Stray(below, s.Top().snapshot);
    }
    forall i | 0 <= i < |below| ensures below[..i] == s.stack[..i] && below[i] == s.stack[i] {
    }
    forall i | 0 <= i < |below| ensures StrayBelow(below, i) <= Stray(below, s.Top().snapshot) {
      assert StrayBelow(s.stack, i) <= StrayBelow(s.stack, |below|);
    }
    forall i, j | 0 <= i < j < |below| ensures StrayBelow(below, i) <= StrayBelow(below, j) {
      assert StrayBelow(s.stack, i) <= StrayBelow(s.stack, j);
    }
  }

  /** Locks may be added to and removed from a state without frames of theirs, if the stray ones only grow. */
  lemma InvLocks(stack: seq<Frame>, locks: set<Context>, more: set<Context>)
    requires Inv(State(stack, locks)) && Holders(stack) <= more && Stray(stack, locks) <= Stray(stack, more)
    ensures Inv(State(stack, more))
  {
  }

  /** A frame put on top of frames that satisfy the invariant, with the right snapshot and lock. */
  lemma InvPush(below: seq<Frame>, f: Frame, locks: set<Context>)
    requires Inv(State(below, f.snapshot)) && f.held == f.guarded && (f.held ==> f.ctx !in f.snapshot)
    requires Holders(below) <= locks && (f.held ==> f.ctx in locks)
    requires Stray(below, f.snapshot) <= locks - (if f.held then {f.ctx} else {})
    ensures Inv(State(below + [f], locks))
  {
    var stack := below + [f];
    HoldersPush(below, f);
    forall i | 0 <= i < |below| ensures StrayBelow(stack, i) == StrayBelow(below, i) {
      assert stack[..i] == below[..i];
    }
    assert stack[..|below|] == below;
    forall i | 0 <= i < |stack| ensures Holders(stack[..i]) <= stack[i].snapshot {
      assert i < |below| ==> stack[..i] == below[..i];
    }
    forall i, j | 0 <= i < j < |stack| && stack[i].held && stack[j].held ensures stack[i].ctx != stack[j].ctx {
      if j == |below| {
        assert below[i].ctx in Holders(below);
      }
    }
  }

  /** The action undoes the running frame. */
  predicate IsRollback(s: State, a: Action) {
    s.Running() && (a.Fail? || ((a.GuardedEntry? || a.ViewEntry?) && s.Top().ctx in s.locks))
  }

  /** A frame of this context terminates while it holds the context's lock. */
  predicate Escapes(s: State, a: Action, c: Context) {
    s.Running() && a.Terminate? && s.Top().held && s.Top().ctx == c
  }

  /** Every step keeps the invariant, and stray locks come and go only with `Terminate` and rollbacks. */
  lemma StepKeepsInv(s: State, a: Action)
    requires Inv(s) && Enabled(s, a)
    ensures Inv(Step(s, a))
    ensures IsRollback(s, a) ==>
              Stray(Step(s, a).stack, Step(s, a).locks) == StrayBelow(s.stack, |s.stack| - 1)
    ensures !IsRollback(s, a) ==>
              forall c :: c in Stray(Step(s, a).stack, Step(s, a).locks) <==>
                          c in Stray(s.stack, s.locks) || Escapes(s, a, c)
  {
    var next := Step(s, a);
    if a.Call? {
      HoldersPush(s.stack, Frame(a.ctx, false, false, s.locks));
      InvPush(s.stack, Frame(a.ctx, false, false, s.locks), s.locks);
    } else {
      TopSplit(s);
      var below, top := s.Pop().stack, s.Top();
      if IsRollback(s, a) {
        assert s.stack[..|s.stack| - 1] == below;
      } else if a.GuardedEntry? {
        HoldersPush(below, top.(held := true, guarded := true));
        InvPush(below, top.(held := true, guarded := true), next.locks);
      } else if a.BodyReturns? {
        HoldersPush(below, top.(held := false, guarded := false));
        InvPush(below, top.(held := false, guarded := false), next.locks);
      } else if a.ReturnValue? || a.Terminate? {
        InvLocks(below, top.snapshot, next.locks);
      }
    }
  }

  /** The stack without its running frame. */
  function FramesBelow(s: State): seq<Frame>
    requires s.Running()
  {
    s.stack[..|s.stack| - 1]
  }

  /** The action ends the running frame. */
  predicate EndsFrame(s: State, a: Action) {
    a.ReturnValue? || a.Terminate? || IsRollback(s, a)
  }

  /**
   * What each action does to the stack: a call adds a frame with its flag down; exits and rollbacks remove the
   * running frame; a lock is taken by an entry that is not refused and given up when the body returns; nothing
   * else changes a frame.
   */
  lemma StackEffects(s: State, a: Action)
    requires Inv(s) && Enabled(s, a)
    ensures a.Call? ==>
              && |Step(s, a).stack| == |s.stack| + 1 && FramesBelow(Step(s, a)) == s.stack
              && Step(s, a).Top().ctx == a.ctx && Step(s, a).Top().snapshot == s.locks
              && !Step(s, a).Top().held && !Step(s, a).Top().guarded
    ensures EndsFrame(s, a) ==> s.Running() && Step(s, a).stack == FramesBelow(s)
    ensures !a.Call? && !EndsFrame(s, a) ==>
              && |Step(s, a).stack| == |s.stack| && FramesBelow(Step(s, a)) == FramesBelow(s)
              && Step(s, a).Top().ctx == s.Top().ctx && Step(s, a).Top().snapshot == s.Top().snapshot
              && (a.GuardedEntry? ==> Step(s, a).Top().held && Step(s, a).Top().guarded)
              && (a.ViewEntry? ==> Step(s, a).Top() == s.Top())
              && (a.BodyReturns? ==> !Step(s, a).Top().held && !Step(s, a).Top().guarded)
  {
  }

  /**
   * What each action does to the locks. After a return the locks are those of the frames below and the stray
   * ones; after a rollback those at the time of the call.
   */
  lemma LockEffects(s: State, a: Action)
    requires Inv(s) && Enabled(s, a)
    ensures var locks := Step(s, a).locks;
            && (a.Call? || a.Terminate? ==> locks == s.locks)
            && (a.ReturnValue? || a.BodyReturns? ==> locks == Holders(FramesBelow(s)) + Stray(s.stack, s.locks))
            && (IsRollback(s, a) ==> locks == s.Top().snapshot)
            && (a.GuardedEntry? && !IsRollback(s, a) ==>
                  s.Top().ctx !in s.locks && s.Top().ctx in locks && locks - {s.Top().ctx} == s.locks)
            && (a.ViewEntry? && !IsRollback(s, a) ==> s.Top().ctx !in s.locks && locks == s.locks)
  {
    if s.Running() {
      TopSplit(s);
    }
    if a.BodyReturns? || a.ReturnValue? {
      assert forall c :: c in Step(s, a).locks <==> c in Holders(FramesBelow(s)) || c in Stray(s.stack, s.locks);
    }
  }

  /** A guarded call of an unlocked context, ended by the epilogue and a return or by a raw return, undoes itself. */
  lemma GuardedCallUndoesItself(s: State, c: Context)
    requires Inv(s) && c !in s.locks
    ensures var inside := Step(Step(s, Call(c)), GuardedEntry);
            && c in inside.locks && |inside.stack| == |s.stack| + 1
            && Step(inside, ReturnValue) == s
            && Step(Step(inside, BodyReturns), ReturnValue) == s
            && Step(inside, Fail) == s
  {
    var called := Step(s, Call(c));
    assert called.Top() == Frame(c, false, false, s.locks) && called.Pop().stack == s.stack;
    var inside := Step(called, GuardedEntry);
    assert inside.Top() == Frame(c, true, true, s.locks) && inside.Pop().stack == s.stack;
    assert inside.locks - {c} == s.locks;
    var left := Step(inside, BodyReturns);
    assert left.Top() == Frame(c, false, false, s.locks) && left.Pop().stack == s.stack;
  }

  /** A second guarded call of the same context from inside is refused, and leaves the first as it was. */
  lemma NestedCallIsRefused(s: State, c: Context)
    requires Inv(s) && c in s.locks
    ensures Step(Step(s, Call(c)), GuardedEntry) == s && Step(Step(s, Call(c)), ViewEntry) == s
  {
    var called := Step(s, Call(c));
    assert called.Top() == Frame(c, false, false, s.locks) && called.Pop().stack == s.stack;
  }

  // ---------------------------------------------------------------------------
  // Runs
  // ---------------------------------------------------------------------------

  /** The states of a run, one more than its actions, each of which is possible when its turn comes. */
  predicate IsRun(states: seq<State>, actions: seq<Action>) {
    && |states| == |actions| + 1
    && forall m | 0 <= m < |actions| :: Enabled(states[m], actions[m]) && states[m + 1] == Step(states[m], actions[m])
  }

  lemma {:induction false} RunKeepsInv(states: seq<State>, actions: seq<Action>, n: nat)
    requires IsRun(states, actions) && Inv(states[0]) && n <= |actions|
    ensures Inv(states[n])
  {
    if n > 0 {
      RunKeepsInv(states, actions, n - 1);
      StepKeepsInv(states[n - 1], actions[n - 1]);
    }
  }

  /** Frame `i` of state `n` was called at step `p`, and has been on the stack ever since. */
  ghost predicate CalledAt(states: seq<State>, actions: seq<Action>, n: nat, i: nat, p: nat)
    requires IsRun(states, actions) && n <= |actions| && i < |states[n].stack|
  {
    && p < n && actions[p].Call? && |states[p].stack| == i
    && states[p].stack == states[n].stack[..i] && states[p].locks == states[n].stack[i].snapshot
    && forall m | p < m <= n :: |states[m].stack| > i
  }

  lemma {:induction false} CallPoint(states: seq<State>, actions: seq<Action>, n: nat, i: nat) returns (p: nat)
    requires IsRun(states, actions) && n <= |actions| && |states[0].stack| <= i < |states[n].stack|
    ensures CalledAt(states, actions, n, i, p)
  {
    var s, a := states[n - 1], actions[n - 1];
    assert states[n] == Step(s, a);
    if a.Call? && i == |s.stack| {
      p := n - 1;
    } else {
      p := CallPoint(states, actions, n - 1, i);
      assert states[n].stack[..i] == s.stack[..i] && states[n].stack[i].snapshot == s.stack[i].snapshot;
    }
  }

  /** By state `n`, a frame that was on the stack just after step `k` has been rolled back. */
  ghost predicate Undone(states: seq<State>, actions: seq<Action>, n: nat, k: nat)
    requires IsRun(states, actions) && n <= |actions|
  {
    exists j :: k < j < n && RollsBackSince(states, actions, k, j)
  }

  /** Step `j` rolls back a frame that has been on the stack since just after step `k`. */
  ghost predicate RollsBackSince(states: seq<State>, actions: seq<Action>, k: nat, j: nat)
    requires IsRun(states, actions) && j < |actions|
  {
    IsRollback(states[j], actions[j]) && forall m | k < m <= j :: |states[m].stack| >= |states[j].stack|
  }

  /**
   * By state `n`, a frame of context `c` has terminated while it held the lock, and no frame around it has
   * been rolled back since.
   */
  ghost predicate Leaked(states: seq<State>, actions: seq<Action>, n: nat, c: Context)
    requires IsRun(states, actions) && n <= |actions|
  {
    exists k :: 0 <= k < n && Escapes(states[k], actions[k], c) && !Undone(states, actions, n, k)
  }

  lemma LeakedStep(states: seq<State>, actions: seq<Action>, n: nat, c: Context)
    requires IsRun(states, actions) && 0 < n <= |actions| && !IsRollback(states[n - 1], actions[n - 1])
    ensures Leaked(states, actions, n, c) <==>
            Leaked(states, actions, n - 1, c) || Escapes(states[n - 1], actions[n - 1], c)
  {
    assert !Undone(states, actions, n, n - 1);
    forall k: nat | k < n - 1 ensures Undone(states, actions, n, k) <==> Undone(states, actions, n - 1, k) {
    }
    if k :| 0 <= k < n - 1 && Escapes(states[k], actions[k], c) && !Undone(states, actions, n - 1, k) {
      assert !Undone(states, actions, n, k);
    }
  }

  /** A rollback forgets exactly what has leaked since the call of the frame that is undone. */
  lemma LeakedRollback(states: seq<State>, actions: seq<Action>, n: nat, p: nat, c: Context)
    requires IsRun(states, actions) && 0 < n <= |actions| && IsRollback(states[n - 1], actions[n - 1])
    requires CalledAt(states, actions, n - 1, |states[n - 1].stack| - 1, p)
    ensures Leaked(states, actions, n, c) <==> Leaked(states, actions, p, c)
  {
    forall k: nat | k < p ensures Undone(states, actions, n, k) <==> Undone(states, actions, p, k) {
      forall j | p <= j < n ensures !RollsBackSince(states, actions, k, j) {
        assert |states[p].stack| < |states[j].stack| || j == p;
      }
    }
    forall k: nat | p < k < n - 1 ensures Undone(states, actions, n, k) {
      assert RollsBackSince(states, actions, k, n - 1);
    }
    if k :| 0 <= k < p && Escapes(states[k], actions[k], c) && !Undone(states, actions, p, k) {
      assert !Undone(states, actions, n, k);
    }
  }

  /** The stack never falls below its height at the start. */
  predicate StaysAbove(states: seq<State>) {
    forall m | 0 <= m < |states| :: |states[m].stack| >= |states[0].stack|
  }

  /** The stray locks are those that were there at the start and those that have leaked. */
  lemma {:induction false} StrayIsLeaked(states: seq<State>, actions: seq<Action>, n: nat, c: Context)
    requires IsRun(states, actions) && Inv(states[0]) && StaysAbove(states) && n <= |actions|
    ensures c in Stray(states[n].stack, states[n].locks) <==>
            c in Stray(states[0].stack, states[0].locks) || Leaked(states, actions, n, c)
  {
    if n > 0 {
      var s, a := states[n - 1], actions[n - 1];
      RunKeepsInv(states, actions, n - 1);
      StepKeepsInv(s, a);
      if IsRollback(s, a) {
        assert |states[n].stack| == |s.stack| - 1;
        var p := CallPoint(states, actions, n - 1, |s.stack| - 1);
        LeakedRollback(states, actions, n, p, c);
        StrayIsLeaked(states, actions, p, c);
      } else {
        LeakedStep(states, actions, n, c);
        StrayIsLeaked(states, actions, n - 1, c);
      }
    }
  }

  /** Exactly one live frame of context `c` holds its lock. */
  ghost predicate OneHolder(s: State, c: Context) {
    exists i | 0 <= i < |s.stack| :: && s.stack[i].held && s.stack[i].ctx == c
      && forall j | 0 <= j < |s.stack| && s.stack[j].held && s.stack[j].ctx == c :: j == i
  }

  lemma HoldersAreSingle(s: State, c: Context)
    requires Inv(s)
    ensures c in Holders(s.stack) <==> OneHolder(s, c)
  {
    if c in Holders(s.stack) {
      var i :| 0 <= i < |s.stack| && s.stack[i].held && s.stack[i].ctx == c;
      forall j | 0 <= j < |s.stack| && s.stack[j].held && s.stack[j].ctx == c ensures j == i {
        assert !(i < j) && !(j < i);
      }
    }
  }

  /**
   * In every state of every transaction a lock is set iff exactly one live frame of its context holds it,
   * or it has leaked; never both. A leak is the only way for a lock to outlive its holder, and for one to be
   * left when the call stack has emptied.
   */
  lemma LocksMatchHolders(states: seq<State>, actions: seq<Action>, n: nat, c: Context)
    requires IsRun(states, actions) && states[0] == INITIAL && n <= |actions|
    ensures c in states[n].locks <==> OneHolder(states[n], c) || Leaked(states, actions, n, c)
    ensures !(OneHolder(states[n], c) && Leaked(states, actions, n, c))
    ensures !states[n].Running() ==> (c in states[n].locks <==> Leaked(states, actions, n, c))
  {
    RunKeepsInv(states, actions, n);
    StrayIsLeaked(states, actions, n, c);
    HoldersAreSingle(states[n], c);
  }

  /** No frame terminates while it holds its lock. */
  predicate NoEscape(states: seq<State>, actions: seq<Action>)
    requires IsRun(states, actions)
  {
    forall k | 0 <= k < |actions| :: actions[k].Terminate? ==> !states[k].Top().held
  }

  /** Without such a frame the guard is exact, and all locks are clear once the call stack empties. */
  lemma GuardIsExact(states: seq<State>, actions: seq<Action>, n: nat, c: Context)
    requires IsRun(states, actions) && states[0] == INITIAL && n <= |actions| && NoEscape(states, actions)
    ensures c in states[n].locks <==> OneHolder(states[n], c)
    ensures !states[n].Running() ==> states[n].locks == {}
  {
    LocksMatchHolders(states, actions, n, c);
    forall d ensures !Leaked(states, actions, n, d) {
    }
    if !states[n].Running() && states[n].locks != {} {
      var d :| d in states[n].locks;
      LocksMatchHolders(states, actions, n, d);
    }
  }

  /** A guarded method that calls `terminate` leaves its lock behind, for the rest of the transaction. */
  lemma TerminateLeaks(c: Context)
    ensures var called := Step(INITIAL, Call(c));
            var locked := Step(called, GuardedEntry);
            var ended := Step(locked, Terminate);
            && ended == State([], {c})
            && Step(Step(ended, Call(c)), GuardedEntry) == ended
            && Step(Step(ended, Call(c)), ViewEntry) == ended
  {
    var called := Step(INITIAL, Call(c));
    assert called.stack == [Frame(c, false, false, {})] && c !in called.locks;
    var locked := Step(called, GuardedEntry);
    assert locked.stack == [Frame(c, true, true, {})] && locked.locks == {c};
    assert locked.Pop().stack == [];
  }

  /** A guarded entry is refused iff a live frame of its context is in a guarded body or its lock is stray. */
  lemma GuardDecides(s: State, a: Action)
    requires Inv(s) && s.Running() && (a.GuardedEntry? || a.ViewEntry?)
    ensures (exists f | f in s.stack :: f.guarded && f.ctx == s.Top().ctx) || s.Top().ctx in Stray(s.stack, s.locks)
            <==> Step(s, a) == Rollback(s)
    ensures Step(s, a) != Rollback(s) ==> |Step(s, a).stack| == |s.stack|
  {
    if f :| f in s.stack && f.guarded && f.ctx == s.Top().ctx {
      var i :| 0 <= i < |s.stack| && s.stack[i] == f;
      assert s.Top().ctx in Holders(s.stack);
    } else {
      assert s.Top().ctx !in Holders(s.stack);
      assert |Rollback(s).stack| < |s.stack|;
    }
  }

  /** The run is one call, from its start to the end of its frame. */
  predicate IsCall(states: seq<State>, actions: seq<Action>) {
    && IsRun(states, actions) && |actions| > 0 && actions[0].Call?
    && |states[|actions|].stack| == |states[0].stack|
    && forall m | 0 < m < |actions| :: |states[m].stack| > |states[0].stack|
  }

  lemma {:induction false} FramesBelowUntouched(states: seq<State>, actions: seq<Action>, m: nat)
    requires IsCall(states, actions) && m <= |actions|
    ensures |states[m].stack| >= |states[0].stack| && states[m].stack[..|states[0].stack|] == states[0].stack
  {
    if m > 0 {
      FramesBelowUntouched(states, actions, m - 1);
      assert states[m] == Step(states[m - 1], actions[m - 1]);
    }
  }

  /**
   * A call, whatever it does (guarded or not, with any nesting inside) and however it ends (normal return,
   * raw `return_value`, `terminate`, revert or trap), leaves the frames below it as it found them, and every
   * lock but those that leak in it. If no frame terminates while holding its lock, it leaves no trace, so no
   * later guarded call in the transaction is refused because of it.
   */
  lemma CallLeavesNoTrace(states: seq<State>, actions: seq<Action>)
    requires IsCall(states, actions) && Inv(states[0])
    ensures var last := states[|actions|];
            && last.stack == states[0].stack
            && (forall c :: c in last.locks <==> c in states[0].locks || Leaked(states, actions, |actions|, c))
            && (NoEscape(states, actions) ==> last == states[0])
  {
    var last := states[|actions|];
    forall m | 0 <= m <= |actions| ensures |states[m].stack| >= |states[0].stack| {
      FramesBelowUntouched(states, actions, m);
    }
    FramesBelowUntouched(states, actions, |actions|);
    RunKeepsInv(states, actions, |actions|);
    forall c ensures c in last.locks <==> c in states[0].locks || Leaked(states, actions, |actions|, c) {
      StrayIsLeaked(states, actions, |actions|, c);
    }
    if NoEscape(states, actions) {
      assert forall c :: !Leaked(states, actions, |actions|, c);
      assert last.locks == states[0].locks;
    }
  }

  // ---------------------------------------------------------------------------
  // The primitives, on mutable state
  // ---------------------------------------------------------------------------

  /** The running machine: the host's transient storage and the frames' memory images. */
  class Machine {
    var stack: seq<Frame>
    var locks: set<Context>

    function View(): State
      reads this
    {
      State(stack, locks)
    }

    constructor ()
      ensures View() == INITIAL
    {
      stack, locks := [], {};
    }

    /** A new frame starts from a fresh memory image, so its flag is down. */
    method Enter(ctx: Context)
      modifies this
      ensures View() == Step(old(View()), Call(ctx))
    {
      stack := stack + [Frame(ctx, false, false, locks)];
    }

    /** `__reentrancy_is_locked`. */
    method IsLocked() returns (b: bool)
      requires View().Running()
      ensures b == (View().Top().ctx in locks)
    {
      b := stack[|stack| - 1].ctx in locks;
    }

    /** `__reentrancy_lock`. */
    method Lock()
      requires View().Running()
      modifies this
      ensures View() == old(View().SetTop(View().Top().(held := true)).(locks := locks + {View().Top().ctx}))
    {
      var top := stack[|stack| - 1];
      stack := stack[..|stack| - 1] + [top.(held := true)];
      locks := locks + {top.ctx};
    }

    /** `__reentrancy_unlock`. */
    method Unlock()
      requires View().Running()
      modifies this
      ensures View() == old(View().SetTop(View().Top().(held := false)).(locks := locks - {View().Top().ctx}))
    {
      var top := stack[|stack| - 1];
      stack := stack[..|stack| - 1] + [top.(held := false)];
      locks := locks - {top.ctx};
    }

    /** `__reentrancy_clear_if_held`. */
    method ClearIfHeld()
      requires View().Running()
      modifies this
      ensures View() == old(
                if View().Top().held
                then View().SetTop(View().Top().(held := false)).(locks := locks - {View().Top().ctx})
                else View())
    {
      if stack[|stack| - 1].held {
        Unlock();
      }
    }

    method MarkGuarded(inBody: bool)
      requires View().Running()
      modifies this`stack
      ensures View() == old(View().SetTop(View().Top().(guarded := inBody)))
    {
      stack := stack[..|stack| - 1] + [stack[|stack| - 1].(guarded := inBody)];
    }

    /** The generated prologue of a guarded method: revert if locked, else lock unless read-only. */
    method DispatchGuarded(readOnly: bool)
      requires View().Running()
      modifies this
      ensures View() == Step(old(View()), if readOnly then ViewEntry else GuardedEntry)
    {
      var locked := IsLocked();
      if locked {
        Revert();
      } else if !readOnly {
        Lock();
        MarkGuarded(true);
      }
    }

    /** The generated epilogue, reached when the body returns to the dispatcher. */
    method FinishGuarded()
      requires Enabled(View(), BodyReturns)
      modifies this
      ensures View() == Step(old(View()), BodyReturns)
    {
      Unlock();
      MarkGuarded(false);
    }

    /** `return_value`: the one success door, which releases the lock if this frame still holds it. */
    method ReturnFrame()
      requires View().Running()
      modifies this
      ensures View() == Step(old(View()), ReturnValue)
    {
      ClearIfHeld();
      stack := stack[..|stack| - 1];
    }

    /** `terminate`: leaves without the clearing helper. */
    method TerminateFrame()
      requires View().Running()
      modifies this
      ensures View() == Step(old(View()), Terminate)
    {
      stack := stack[..|stack| - 1];
    }

    /** `revert`: never touches the lock itself; the host undoes the frame's transient writes. */
    method Revert()
      requires View().Running()
      modifies this
      ensures View() == Step(old(View()), Fail)
    {
      locks := stack[|stack| - 1].snapshot;
      stack := stack[..|stack| - 1];
    }
  }
}
