# PVM contract SDK: verified model

A Dafny model of the parts of the PVM contract SDK whose correctness other code relies on, with proofs of
what they promise.

* **ABI codec** (`Bytes`, `AbiTypes`, `AbiSpec`, `AbiSizes`, `AbiEncoder`, `AbiDecoder`, `AbiDecodeLoops`,
  `AbiRoundTrip`, `AbiMeaning`, `AbiLengthGuard`, `AbiStability`, `AbiReads`, `Utf8`, `AbiFastPath`,
  `AbiOverflow`). Types and values are recursive datatypes. `AbiSpec.Enc` is the function `enc` of the Solidity
  Contract ABI Specification, section "Formal Specification of the Encoding", extended to `()`, whose slot is a
  hole. The in-place encoder works on a byte array with running head and tail offsets and is proved to write
  exactly `Enc`. The decoders follow offsets through arbitrary bytes; decoding inverts `Enc` at every position,
  is stable under extension of the input, never depends on an addition that wraps, and agrees with the unchecked
  fast path. `AbiMeaning` says cell by cell what an encoding looks like, and `AbiReads`, as a relation, what value
  lies in arbitrary bytes.
* **Reentrancy guard** (`Reentrancy`). Frames, transient locks, frame-local flags, `terminate` and rollback as
  a transition system; the invariant ranges over the whole call stack and its snapshots, and runs are related
  to their history. The primitives are methods on mutable state that refine its steps.
* **Storage layout** (`Layout`). The greedy walker, its optimality among all order-preserving placements, and
  the safety of nested structs.
* **Signed 256-bit integers** (`Bits`, `Int256`).
* **Type names** (`TypeNames`, `NameReading`, `StructExpansion`, `ExpansionNames`, `ExpansionCycles`, `Scaffold`).
  Two printers and a parser that agree, a reader that shows names and signatures to be unambiguous, the
  expansion of structs with its cycle breaker, and the scaffolder's registry.
* **Dispatch and calls** (`Dispatcher`, `Call`). The builder's array and bitmask as an ordered list of
  methods, and a cross-contract call from the caller's arguments to the caller's decoded result.
* **Bump allocator** (`BumpAllocator`).

`Wrappers` holds the result shapes. All modules verify together with `dafny verify dfyconfig.toml`.

Where the code does not do what its documentation says, or has limits of its own, the model follows the code
and the exact condition is proved:

* The documentation of the guard attribute says that the lock is released on every exit path. `terminate`
  leaves without the clearing helper: `TerminateLeaks` shows a lock left set, and `LocksMatchHolders` says
  when one is. That `terminate` ends the frame and keeps its transient writes is an assumption about the
  runtime.
* The safety contract of `decode_unchecked` asks for `ENCODED_SIZE` bytes. `()` takes a head slot but counts
  nothing in `ENCODED_SIZE`, so the contract is too weak for a type with a value behind a `()`;
  `PromiseSufficesWhenUnitsTrail` gives the exact condition.
* The length guard of `Vec` takes every element for at least 32 bytes. `DecodeInvertsEncode` states the round
  trip with the guard as its condition; `GuardRefusesOnlyEmptyElements` says for which types it ever refuses an
  honest encoding.
* The primitive decoders add to their offset without a check, and with `overflow-checks = false`
  (examples/test-contracts/Cargo.toml:121) they wrap. Only a direct call of `decode_at` on a primitive, or on
  a fixed array of them, at an offset near 2^64 can notice (`WrappedRead`); `DecodeNeverWraps` shows that
  `decode` cannot.
* The cycle breaker of the struct expansion looks at structs only; `EndsWithoutAliasCycles` gives the
  registries on which the expansion ends. Whether a definition such as `type A is A;` reaches the code depends
  on the Solidity parser, which is not part of this model.

## Model

| member | source | states |
|---|---|---|
| `AbiSizes.EncLength` | crates/pvm-contract-types/src/lib.rs:505-541 | For every type and value, `()` at any place included: `encode_body_len` is the length of the encoding, and `HEAD_SIZE` is it too for static types other than `()` |
| `AbiSizes.FieldsLength` | crates/pvm-contract-types/src/lib.rs:1660-1667 | The heads of the first k components fill exactly their slot sizes, a `()` its own slot, and the tails exactly the dynamic body lengths: heads and tails tile the body |
| `AbiSizes.ElementsLength` | crates/pvm-contract-types/src/lib.rs:1526-1535 | The product formulas of `[T; N]` and `Vec<T>` equal the head-and-tail sums of the elements seen as tuple fields; the elements of `Vec<()>` take nothing |
| `AbiSpec.Standard` | crates/pvm-contract-types/src/lib.rs:1425-1434 | A type without `()` encodes to bytes only, as the standard has it; the holes are the slots of `()`, which the encoder does not write |
| `AbiMeaning.LeafCells` | crates/pvm-contract-types/src/lib.rs:1076-1295 | Every leaf encodes to 32 bytes: a number, `bool` included, to its big-endian digits modulo 2^256, an address to 12 zeros and its bytes, `bytesN` to its bytes and zeros |
| `AbiMeaning.RawCells` | crates/pvm-contract-types/src/alloc_types.rs:116-131 | `bytes` and `string` encode to the length word, the data and zeros only, in the least multiple of 32 bytes that holds them |
| `AbiMeaning.EncodingIsWords` | crates/pvm-contract-types/src/lib.rs:534-538 | Every encoding is a whole number of 32-byte words |
| `AbiMeaning.HeadPointsToTail` | crates/pvm-contract-types/src/lib.rs:1668-1684 | In an encoded composite the head of a dynamic component reads as the distance from the start of the composite to its encoding; the tails lie in order, back to back, behind all slots |
| `AbiMeaning.UnitSlotIsHole` | crates/pvm-contract-types/src/lib.rs:1425-1434 | The slot of a `()` among other components is not written |
| `AbiMeaning.TopIsTupleOfOne` | crates/pvm-contract-types/src/lib.rs:543-574 | `encode_to` of a value is the encoding of the argument list that consists of it alone |
| `AbiMeaning.DynamicMeansLengthVaries` | crates/pvm-contract-types/src/lib.rs:497-515 | Two values of a type have encodings of different lengths exactly if `bytes`, `string` or a `Vec` with elements that take space occurs outside every array of length 0; only dynamic types do, and all of them where no array has length 0 and no `Vec` has elements without space |
| `AbiRoundTrip.TailRoundTrip` | crates/pvm-contract-types/src/alloc_types.rs:217-252 | For every type, at any position of any input: where the encoding of a value lies at `off`, whatever is in its holes, `decode_tail` gives the value back if every `Vec` in it passes the length guard, and fails otherwise (same for `decode_at` of types without a head pointer) |
| `AbiRoundTrip.ArrayRoundTrip` | crates/pvm-contract-types/src/lib.rs:1572-1607 | The same for `[T; N]` |
| `AbiRoundTrip.TupleRoundTrip` | crates/pvm-contract-types/src/lib.rs:1711-1728 | The same for tuples of any arity |
| `AbiRoundTrip.VecRoundTrip` | crates/pvm-contract-types/src/alloc_types.rs:226-251 | The same for `Vec<T>`, `Vec<()>` included: refused exactly when its length, or that of a `Vec` inside, exceeds the input length divided by 32 |
| `AbiRoundTrip.ComponentRoundTrip` | crates/pvm-contract-types/src/lib.rs:1715-1724 | Component i decodes from its head slot, inline or through its offset, relative to the base of its own composite |
| `AbiRoundTrip.ComponentAt` | crates/pvm-contract-types/src/lib.rs:1668-1684 | In an encoded composite component i has its head in slot i and, if dynamic, its encoding at the offset that the head holds |
| `AbiRoundTrip.WordReads` | crates/pvm-contract-types/src/lib.rs:128-138 | `read_word_offset` reads back any 64-bit number written as an ABI word |
| `AbiRoundTrip.LeafReads` | crates/pvm-contract-types/src/lib.rs:1076-1295 | Every primitive decoder returns the value whose word lies at the offset, signed types and left-aligned bytes included |
| `AbiRoundTrip.SignedWide` | crates/pvm-contract-types/src/lib.rs:1170-1249 | The two's complement word of a number of any narrower width is `0x00` or `0xff` fill followed by its own bytes |
| `AbiRoundTrip.DecodeInvertsEncode` | crates/pvm-contract-types/src/lib.rs:564-613 | For every type and value, any input that starts with `encode_to(v)` decodes to `Ok(v)` if the length guard admits `v`, and to an error otherwise |
| `AbiRoundTrip.DecodeInvertsBytes` | crates/pvm-contract-types/src/lib.rs:564-613 | For a type without `()` the encoding is a byte string, and with any bytes behind it decodes to the value iff the guard admits it |
| `AbiRoundTrip.GuardAdmits` | crates/pvm-contract-types/src/alloc_types.rs:226-230 | If the elements of every `Vec` in the type take up space, a value whose body fits the input is always admitted by the length guard |
| `AbiRoundTrip.RoundTrip` | crates/pvm-contract-types/src/lib.rs:564-613 | Hence for those types the round trip is unconditional |
| `AbiRoundTrip.EmptyElementsAreRefused` | crates/pvm-contract-types/src/alloc_types.rs:227-230 | The guard does refuse honest encodings: a `Vec` of more than two elements that take no space, `()` or `[T; 0]`, does not decode from its 64 bytes |
| `AbiLengthGuard.GuardRefusesOnlyEmptyElements` | crates/pvm-contract-types/src/alloc_types.rs:227-230 | A type always decodes from its own encodings iff the elements of every `Vec` in it, at any depth, take up space |
| `AbiLengthGuard.RefusedEncoding` | crates/pvm-contract-types/src/alloc_types.rs:227-230 | For every other type there is a value whose own encoding is refused |
| `AbiRoundTrip.EncodingIsPrefixFree` | crates/pvm-contract-types/src/lib.rs:564-574 | No bytes start with the encodings of two distinct values of a type (with no `Vec` longer than any input could admit): encodings differ and none is a prefix of another |
| `AbiStability.DecodeIsStable` | crates/pvm-contract-types/src/lib.rs:600-613 | For arbitrary bytes and every type, `()` included: if `decode(input)` is `Ok(v)`, so is `decode(input ++ junk)`, whatever offsets the input holds |
| `AbiReads.DecodeIsReading` | crates/pvm-contract-types/src/lib.rs:600-613 | On every input `decode` is `Ok(v)` iff `v` lies there in the sense of a relation that reads word by word, without decoders or errors: which bytes are read, where each offset counts from, the length guard, and nothing else refused |
| `AbiReads.ReadingIsUnique` | crates/pvm-contract-types/src/lib.rs:600-613 | At most one value lies at a place |
| `AbiReads.LeafIsReading` | crates/pvm-contract-types/src/lib.rs:1076-1295 | With checked additions a primitive decoder yields the number whose digits end the word: modulo its width, in the signed range, any non-zero last byte as true |
| `AbiReads.RawIsReading` | crates/pvm-contract-types/src/alloc_types.rs:46-53 | `bytes` decode to as many bytes as the length word says, whatever follows them; padding is neither required nor looked at |
| `Utf8.ValidMeansScalars` | crates/pvm-contract-types/src/alloc_types.rs:147-153 | What `String` accepts is exactly the encodings of sequences of Unicode scalar values |
| `AbiStability.DecodeExtends` | crates/pvm-contract-types/src/lib.rs:1711-1728 | The same for `decode_at` and `decode_tail` at every offset, backward and overlapping ones included |
| `AbiStability.VecExtends` | crates/pvm-contract-types/src/alloc_types.rs:226-251 | The same for the element loops of `Vec`, for every length word |
| `AbiOverflow.LeafReadsItsWordOrWraps` | crates/pvm-contract-types/src/lib.rs:119-138 | At every offset: `read_word_offset` succeeds exactly on words wholly inside the input; a primitive decoder, `bytesN` included, succeeds exactly on its own bytes, or, if right-aligned, when its unchecked addition wraps past 2^64 into the input |
| `AbiOverflow.WrappedRead` | crates/pvm-contract-types/src/lib.rs:1119-1135 | `u64::decode_at` at offset 2^64 - 24 returns the first 8 bytes of the input, where checked additions would fail |
| `AbiOverflow.DecodeNeverWraps` | crates/pvm-contract-types/src/lib.rs:600-613 | On every input `decode` equals the decoder whose leaves add with a check, for every type whose static size is a `usize`: no decoded value depends on a wrapped read |
| `AbiOverflow.TupleNeverWraps` | crates/pvm-contract-types/src/lib.rs:1711-1728 | A tuple decodes the same with checked leaves at any offset: where a field would wrap, the checked advance behind it fails |
| `AbiOverflow.TailNeverWraps` | crates/pvm-contract-types/src/alloc_types.rs:226-251 | So does a dynamic value at any offset that the input may name |
| `AbiOverflow.CheckedAddsAreExact` | crates/pvm-contract-types/src/lib.rs:1609-1636 | With additions that fail on overflow, at every offset: `decode_at` of a static type that holds a value succeeds iff all reads of `decode_unchecked` lie in the input, and then with its value |
| `AbiOverflow.TupleIsExact` | crates/pvm-contract-types/src/lib.rs:1711-1744 | The code's own tuple decoder does the same at every offset |
| `AbiStability.DecodedIsTyped` | crates/pvm-contract-types/src/lib.rs:616-623 | Whatever the bytes, a decoded value is a value of the Rust type: in range, valid UTF-8, right array length, and admitted by the length guard |
| `AbiStability.ReencodingDecodes` | crates/pvm-contract-types/src/lib.rs:564-613 | Any decoded value, encoded again, decodes to itself in any input as long as the first one, and in any input at all if the elements of every `Vec` take up space |
| `AbiFastPath.SizesCountLeaves` | crates/pvm-contract-types/src/lib.rs:1568-1570 | `HEAD_SIZE` of a static type is a word per leaf, `ENCODED_SIZE` a word per leaf that is not `()` |
| `AbiFastPath.SizesAgree` | crates/pvm-contract-types/src/lib.rs:588-592 | The two constants agree iff no leaf is `()` |
| `AbiFastPath.CheckedIsUnchecked` | crates/pvm-contract-types/src/lib.rs:1609-1636 | On every input and at every offset whose head slot ends below 2^64, `decode_at` of a static type succeeds iff all reads of `decode_unchecked` lie in the input, and then with exactly its value |
| `AbiFastPath.PromiseSufficesWhenUnitsTrail` | crates/pvm-contract-types/src/lib.rs:625-631 | The documented promise `input.len() >= offset + ENCODED_SIZE` keeps all reads in range, for all inputs and offsets, iff no value-holding leaf of the type follows a `()` |
| `AbiFastPath.FastRefinesChecked` | crates/pvm-contract-types/src/lib.rs:1730-1744 | For those types, under the promise, `decode_at` is `Ok(decode_unchecked)` |
| `AbiFastPath.UnitBeforeValueBreaksPromise` | crates/pvm-contract-types/src/lib.rs:1442-1448 | `((), U256)` is a type where the promise does not suffice: 32 bytes meet it, and the checked decoder refuses them |
| `AbiEncoder.WriteOffset` | crates/pvm-contract-types/src/lib.rs:1668-1684 | An offset or length word is written as the 32-byte big-endian number, and nothing else in the buffer changes |
| `AbiEncoder.EncodeLeaf` | crates/pvm-contract-types/src/lib.rs:1076-1295 | The primitive encoders write the standard's word at the position and leave every other byte alone |
| `AbiEncoder.EncodeInt` | crates/pvm-contract-types/src/lib.rs:1170-1249 | Sign extension writes the number modulo 2^256 |
| `AbiEncoder.EncodeRaw` | crates/pvm-contract-types/src/alloc_types.rs:22-31 | `bytes` and `string`: length word, data and zero padding, nothing outside |
| `AbiEncoder.EncodeTuple` | crates/pvm-contract-types/src/lib.rs:1668-1684 | The running head and tail offsets write exactly the encoding at the position: no gap, no overlap, nothing outside, and the slot of a `()` is left as it was |
| `AbiEncoder.WrittenStep` | crates/pvm-contract-types/src/lib.rs:1670-1682 | Writing component i's head and tail into the buffer of the first i components gives the buffer of the first i + 1 |
| `AbiEncoder.FieldFits` | crates/pvm-contract-types/src/lib.rs:1660-1667 | Every component's slot lies below the tails and its tail below the end of the body, back to back with its neighbours |
| `AbiEncoder.EncodeDynamicElements` | crates/pvm-contract-types/src/alloc_types.rs:180-194 | The loop over dynamic elements writes heads and tails as for a tuple, for `[T; N]` and for `Vec<T>` |
| `AbiEncoder.EncodeStaticElements` | crates/pvm-contract-types/src/lib.rs:1548-1553 | The loop of `[T; N]` over static elements writes them a slot apart |
| `AbiEncoder.EncodeVecElements` | crates/pvm-contract-types/src/alloc_types.rs:195-200 | The loop of `Vec<T>` over static elements writes them a body apart, and nothing for `()` |
| `AbiEncoder.EncodeArray` | crates/pvm-contract-types/src/lib.rs:1536-1554 | `[T; N]` at any nesting depth writes its encoding and nothing outside it |
| `AbiEncoder.EncodeVec` | crates/pvm-contract-types/src/alloc_types.rs:175-201 | `Vec<T>`, `Vec<()>` included, writes length and elements and nothing outside |
| `AbiEncoder.EncodeBody` | crates/pvm-contract-types/src/lib.rs:534-538 | For every type and value `encode_body_to` writes the bytes of the encoding, `encode_body_len` long with its holes, and changes no other byte |
| `AbiEncoder.EncodeTo` | crates/pvm-contract-types/src/lib.rs:543-574 | `encode_to` writes `encode_len` bytes: the encoding, after the offset word 32 if the value is dynamic and no tuple |
| `AbiDecodeLoops.DropWritten` | crates/pvm-contract-types/src/lib.rs:1583-1595 | Drops each slot before the failure once and touches no uninitialised slot |
| `AbiDecodeLoops.FillSlots` | crates/pvm-contract-types/src/lib.rs:1579-1600 | The loop ends with all slots initialised with the elements' values, or with a failing element and every earlier slot dropped |
| `AbiDecodeLoops.DecodeArray` | crates/pvm-contract-types/src/lib.rs:1572-1607 | `[T; N]::decode_at` returns the specified result; on success it reads only initialised slots; a failure at element k leaves slots 0..k dropped and the others never written |
| `AbiDecodeLoops.DecodeVec` | crates/pvm-contract-types/src/alloc_types.rs:226-251 | The loops of `Vec::decode_tail`, guard and running offset included, compute the specified result |
| `AbiDecodeLoops.DecodeStaticItems` | crates/pvm-contract-types/src/alloc_types.rs:243-249 | Advancing a checked running offset decodes the same elements as computing each element's position |
| `AbiDecodeLoops.DecodeDynamicItems` | crates/pvm-contract-types/src/alloc_types.rs:233-242 | Each dynamic element is found through its own head word |
| `AbiDecodeLoops.DecodeTuple` | crates/pvm-contract-types/src/lib.rs:1711-1728 | The tuple decoder's running head offset computes the specified result |
| `Reentrancy.StepKeepsInv` | crates/pvm-contract-types/src/reentrancy.rs:96-145 | Every step (call, guarded or view entry, body return, raw `return_value`, `terminate`, revert or trap) keeps: locks are those of the holding frames and stray ones, stray ones only accumulate up the stack, at most one holder per context; and stray locks appear only when a holding frame terminates and go only by rollback |
| `Reentrancy.StackEffects` | crates/pvm-contract-types/src/host.rs:566-587 | A call adds one frame with its flag down and the locks remembered; `return_value`, `terminate` and every rollback leave exactly the frames below; an entry that is not refused raises the flag, a body return lowers it, and no other frame changes |
| `Reentrancy.LockEffects` | crates/pvm-contract-types/src/reentrancy.rs:96-145 | After `return_value` or a body return the locks are those of the frames below and the stray ones; after a rollback those at the time of the call; an entry that is not refused adds its context, which was free; `terminate` and calls change none |
| `Reentrancy.GuardedCallUndoesItself` | crates/pvm-contract-macros/src/codegen/dispatch.rs:284-356 | A guarded call of a free context locks it and adds a frame; a raw return, an epilogue and a return, or a failure each restore the state before the call exactly |
| `Reentrancy.NestedCallIsRefused` | crates/pvm-contract-macros/src/codegen/dispatch.rs:290-300 | A guarded or view call of a locked context is rolled back to exactly the state before it |
| `Reentrancy.RunKeepsInv` | crates/pvm-contract-macros/src/codegen/dispatch.rs:284-356 | So does every run |
| `Reentrancy.LocksMatchHolders` | crates/pvm-contract-types/src/reentrancy.rs:96-145 | In every state of every transaction a lock is set iff exactly one live frame of its context holds it or it has leaked, never both; a lock leaks exactly when a holding frame of its context terminates and no frame around it is rolled back afterwards |
| `Reentrancy.StrayIsLeaked` | crates/pvm-contract-types/src/host.rs:566-587 | The same relative to any starting state, for any run that does not fall below its stack |
| `Reentrancy.GuardIsExact` | crates/pvm-contract-types/src/reentrancy.rs:96-145 | If no holding frame terminates, a lock is set iff exactly one live frame of its context holds it, and all are clear once the call stack empties |
| `Reentrancy.TerminateLeaks` | crates/pvm-contract-types/src/host.rs:581-583 | A guarded method that calls `terminate` leaves its lock set: later guarded and view entries of the context revert |
| `Reentrancy.GuardDecides` | crates/pvm-contract-macros/src/codegen/dispatch.rs:290-300 | A guarded or view entry reverts iff some live frame of its context is inside a guarded body or the lock is stray |
| `Reentrancy.FramesBelowUntouched` | crates/pvm-contract-types/src/host.rs:566-587 | A call, until it completes, changes no frame below it |
| `Reentrancy.CallLeavesNoTrace` | crates/pvm-contract-macros/src/lib.rs:1050-1055 | A completed call, whatever it does and however it ends, leaves the frames below as they were and every lock but those that leak in it; with no holding frame terminating it leaves no trace at all |
| `Reentrancy.Machine.Enter` | crates/pvm-contract-types/src/reentrancy.rs:40-41 | A new frame starts with its flag down and remembers the locks |
| `Reentrancy.Machine.Lock` | crates/pvm-contract-types/src/reentrancy.rs:104-111 | Sets flag and transient slot of the running frame only |
| `Reentrancy.Machine.Unlock` | crates/pvm-contract-types/src/reentrancy.rs:118-125 | Clears flag and transient slot of the running frame only |
| `Reentrancy.Machine.ClearIfHeld` | crates/pvm-contract-types/src/reentrancy.rs:135-145 | Clears them iff this frame holds the lock, and otherwise changes nothing |
| `Reentrancy.Machine.DispatchGuarded` | crates/pvm-contract-macros/src/codegen/dispatch.rs:284-356 | The generated prologue is the transition system's entry step |
| `Reentrancy.Machine.FinishGuarded` | crates/pvm-contract-macros/src/codegen/dispatch.rs:340-352 | The generated epilogue is its body-return step |
| `Reentrancy.Machine.ReturnFrame` | crates/pvm-contract-types/src/host.rs:566-575 | `return_value` is its success exit, releasing the lock only if this frame holds it |
| `Reentrancy.Machine.TerminateFrame` | crates/pvm-contract-types/src/host.rs:581-583 | `terminate` is the exit that leaves the lock alone |
| `Reentrancy.Machine.Revert` | crates/pvm-contract-types/src/host.rs:584-587 | `revert` is its failure exit, rolled back to the locks at the time of the call |
| `Layout.GreedyIsValid` | crates/pvm-contract-types/src/layout.rs:68-91 | For every field list the walk keeps slot order, straddles no slot and gives every field its own bytes, packed from the high end of each slot down |
| `Layout.WalkState` | crates/pvm-contract-types/src/layout.rs:68-91 | The walker's `next_slot` and `next_space` are the last slot and the space left there by the field just placed |
| `Layout.GreedyLeads` | crates/pvm-contract-types/src/layout.rs:68-91 | After every field the walk is in an earlier slot than any valid placement, or in the same one with at least as much space left as that placement leaves bytes unused |
| `Layout.UsedGrows` | crates/pvm-contract-types/src/layout.rs:68-91 | In any valid placement each field adds its own bytes to those used in its last slot, which never exceed 32 |
| `Layout.GreedyIsOptimal` | crates/pvm-contract-types/src/layout.rs:68-91 | No placement that keeps slot order, straddles no slot and overlaps nothing, with any order and gaps within a slot, puts a field in an earlier slot or uses fewer slots |
| `Layout.StepTakesFreeBytes` | crates/pvm-contract-types/src/layout.rs:68-91 | A step claims only bytes the previous state has free, and they stop being free |
| `Layout.LeavesAreSafe` | crates/pvm-contract-macros/src/lib.rs:594-600 | Wherever a node of any depth is placed, its leaves are disjoint, straddle no slot and stay inside the slots the node claims |
| `Layout.ClaimIsTight` | crates/pvm-contract-macros/src/lib.rs:594-600 | A node claims no slot too many: every slot it claims meets one of its leaves, if each struct in it has a field |
| `Layout.LeafClaimsItself` | crates/pvm-contract-types/src/layout.rs:68-91 | A leaf claims exactly its own bytes |
| `Layout.FlatLeavesAreGreedy` | crates/pvm-contract-types/src/layout.rs:68-91 | The leaves of a struct without sub-structs are where the walk puts the fields |
| `Layout.ChildrenAreSafe` | crates/pvm-contract-types/src/layout.rs:45-91 | The same for the children of a struct, walked from `FIRST` at the struct's base slot |
| `Int256.AddIsExact` | crates/pvm-contract-types/src/i256.rs:116-120 | `overflowing_add` is the sum modulo 2^256, with the flag iff the integer sum is out of range, that is, iff the result differs from it |
| `Int256.SubIsExact` | crates/pvm-contract-types/src/i256.rs:134-138 | The same for subtraction |
| `Int256.AbsIsExact` | crates/pvm-contract-types/src/i256.rs:82-88 | `unsigned_abs` is the absolute value, also of the least number |
| `Int256.MulIsExact` | crates/pvm-contract-types/src/i256.rs:155-176 | The same for multiplication, also when the product of absolute values wraps |
| `Int256.OperatorsAreModular` | crates/pvm-contract-types/src/i256.rs:221-255 | The operators, which work on the raw bits, are integer arithmetic modulo 2^256, the raw product included |
| `Int256.DivRemIsExact` | crates/pvm-contract-types/src/i256.rs:318-357 | Apart from `MIN / -1`: a == q * b + r over the integers, the remainder smaller than the divisor in magnitude and of the dividend's sign, so truncation toward zero |
| `Int256.DivOverflowsOnlyOnce` | crates/pvm-contract-types/src/i256.rs:318-357 | In the excluded case the quotient is out of range; the results are `MIN` and 0 |
| `Int256.ShrIsFloor` | crates/pvm-contract-types/src/i256.rs:296-316 | `a >> n` is floor(a / 2^n) for every n, 256 and above included |
| `Int256.CompareIsOrder` | crates/pvm-contract-types/src/i256.rs:359-367 | `cmp` is integer order |
| `Int256.FromIsExact` | crates/pvm-contract-types/src/i256.rs:189-208 | Conversion from a native integer keeps its value, and gives the ABI word of `int256` |
| `TypeNames.SplitTopLevelParams` | crates/pvm-contract-types/src/abi_gen.rs:205-228 | The loop computes the recursive specification of splitting at top-level commas |
| `TypeNames.SplitInvertsJoin` | crates/pvm-contract-types/src/abi_gen.rs:205-228 | Splitting inverts joining with commas for every list of balanced names |
| `TypeNames.NameIsName` | crates/pvm-contract-types/src/lib.rs:1646-1659 | Every printed type name is balanced, without top-level commas or white space |
| `TypeNames.ParseInvertsPrint` | crates/pvm-contract-types/src/abi_gen.rs:160-202 | For every type, parsing its `SOL_NAME` gives the entry that `abi_param` builds directly |
| `TypeNames.CanonicalIsName` | crates/cargo-pvm-contract/src/encode_decode.rs:58-93 | `canonical_type` of a type's own ABI entry is its `SOL_NAME` |
| `TypeNames.NamesRoundTrip` | crates/cargo-pvm-contract/src/encode_decode.rs:58-93 | Printing, parsing and printing again gives the name back |
| `TypeNames.SignatureIsTupleName` | crates/cargo-pvm-contract/src/encode_decode.rs:42-54 | A function's signature is its name followed by the name of the tuple of its argument types |
| `NameReading.NameReads` | crates/pvm-contract-types/src/lib.rs:1646-1659 | A reader from names to types gives every type back from its `SOL_NAME`, leaf names, widths and lengths included |
| `NameReading.NamesAreDistinct` | crates/pvm-contract-types/src/lib.rs:1646-1659 | Hence no two types have one name |
| `NameReading.SignaturesAreDistinct` | crates/cargo-pvm-contract/src/encode_decode.rs:42-54 | No two functions have one signature: it determines the name and all argument types |
| `NameReading.TransferSignature` | crates/cargo-pvm-contract/src/encode_decode.rs:42-54 | The signature of `transfer` with an address and a `uint256` is `transfer(address,uint256)`, letter by letter |
| `NameReading.DecimalReads` | crates/pvm-contract-types/src/lib.rs:196-219 | Decimal notation, folded back digit by digit, gives the number, and has no leading zero |
| `NameReading.TrimStrips` | crates/pvm-contract-types/src/abi_gen.rs:205-228 | Trimming takes away the white space around a text and nothing else |
| `NameReading.SplitFindsNames` | crates/pvm-contract-types/src/abi_gen.rs:205-228 | Splitting finds the names also where there is white space around them |
| `NameReading.PiecesAreBare` | crates/pvm-contract-types/src/abi_gen.rs:205-228 | The pieces of any text, balanced or not, are not empty and have no white space at either end |
| `NameReading.ParseKeepsText` | crates/pvm-contract-types/src/abi_gen.rs:160-202 | Parsing any text whatever loses none of it: the entry has the text as its type, or the text is a list in parentheses with array suffixes, whose pieces are the components and whose suffixes follow `tuple` |
| `NameReading.CanonicalFails` | crates/cargo-pvm-contract/src/encode_decode.rs:58-93 | An entry has no canonical type exactly if it, or a tuple entry inside it at any depth, is a tuple without components |
| `NameReading.EntryKeepsName` | crates/pvm-contract-types/src/lib.rs:520-526 | `abi_param` keeps the name it is given, and components have none |
| `TypeNames.ConstStr.Append` | crates/pvm-contract-types/src/lib.rs:181-194 | Appends exactly the string, or fails iff 256 characters would be exceeded |
| `TypeNames.ConstStr.AppendUsize` | crates/pvm-contract-types/src/lib.rs:196-219 | Appends exactly the decimal notation |
| `TypeNames.ConstStr.Digits` | crates/pvm-contract-types/src/lib.rs:203-211 | The digit loop yields the decimal notation backwards, for every n |
| `TypeNames.WriteTupleName` | crates/pvm-contract-types/src/lib.rs:1646-1655 | The append chain of a tuple writes its name, or fails iff the name exceeds 256 characters |
| `StructExpansion.Expander.TypeToAbiParam` | crates/cargo-pvm-contract-builder/src/abi.rs:570-645 | On every registry without a cycle of value types: terminates, computes the specified entry, leaves `active` as it was, and takes the cycle fallback iff `Fires` says so |
| `StructExpansion.Expander.ExpandStruct` | crates/cargo-pvm-contract-builder/src/abi.rs:626-639 | The same for the fields of a struct, pushed and popped |
| `ExpansionNames.EntriesKeepNames` | crates/cargo-pvm-contract-builder/src/abi.rs:570-645 | Every expanded entry has the name it is declared with, and the components of a struct the names of its fields, in order |
| `ExpansionNames.DeclarationMatchesRust` | crates/cargo-pvm-contract-builder/src/abi.rs:570-645 | For every type that exists on both sides the expansion of its Solidity declaration is the entry that the Rust type builds |
| `ExpansionNames.NamesOnTheirOwn` | crates/cargo-pvm-contract-builder/src/abi.rs:570-645 | An enum expands as the one-byte unsigned integer, a name unknown or being expanded as itself, and what has no ABI type as the empty type |
| `ExpansionCycles.EndsWithoutAliasCycles` | crates/cargo-pvm-contract-builder/src/abi.rs:570-645 | On an arbitrary registry every expansion terminates iff no chain of value types comes back to itself |
| `ExpansionCycles.SelfAliasNeverEnds` | crates/cargo-pvm-contract-builder/src/abi.rs:623-625 | A value type defined as itself expands forever |
| `ExpansionCycles.ExpandIsTheResult` | crates/cargo-pvm-contract-builder/src/abi.rs:570-645 | A terminating expansion ends with the specified entry |
| `ExpansionNames.DeclarationIsCanonical` | crates/cargo-pvm-contract/src/encode_decode.rs:58-93 | On an acyclic registry the canonical type of any expanded declaration is the name of its full substitution, value types over any types included, which mentions no user-defined name |
| `ExpansionNames.ExpansionIsSubstitution` | crates/cargo-pvm-contract-builder/src/abi.rs:570-645 | The same while any structs of higher rank are being expanded |
| `ExpansionCycles.FallbackOnlyOnCycles` | crates/cargo-pvm-contract-builder/src/abi.rs:563-569 | The cycle fallback fires for no name of a registry iff the declarations, structs and value types alike, can be ranked so that each refers only to lower ones |
| `ExpansionCycles.FiresOnlyOnCycles` | crates/cargo-pvm-contract-builder/src/abi.rs:563-569 | It fires in the expansion of a given name iff that name leads, through structs and value types, to a struct that contains itself |
| `ExpansionCycles.DepthRanks` | crates/cargo-pvm-contract-builder/src/abi.rs:563-569 | If it fires for no name, expansion depth ranks the declarations |
| `ExpansionCycles.AcyclicNeverFires` | crates/cargo-pvm-contract-builder/src/abi.rs:563-569 | On a registry so ranked it never fires, whatever is being expanded above |
| `ExpansionCycles.ExpandIsIntrinsic` | crates/cargo-pvm-contract-builder/src/abi.rs:570-645 | Where it does not fire, the entry does not depend on the stack of active names |
| `StructExpansion.ItemList.CollectItems` | crates/cargo-pvm-contract-builder/src/abi.rs:539-546 | Appends all items in pre-order, those inside contracts included |
| `StructExpansion.FlattenKeepsAll` | crates/cargo-pvm-contract-builder/src/abi.rs:539-546 | What is collected is exactly what occurs among the items or inside a contract among them, at any depth |
| `StructExpansion.BuildRegistry` | crates/cargo-pvm-contract-builder/src/abi.rs:469-490 | Fails iff two definitions share a name; otherwise the registry holds each definition and nothing else |
| `Dispatcher.ContractBuilder.Register` | crates/pvm-contract-builder-dsl/src/lib.rs:134-143 | Appends a non-payable entry to the represented list, or fails iff 16 are registered |
| `Dispatcher.ContractBuilder.RegisterPayable` | crates/pvm-contract-builder-dsl/src/lib.rs:154-164 | The same for a payable entry: exactly the new bit is set in the mask |
| `Dispatcher.FirstMatch` | crates/pvm-contract-builder-dsl/src/lib.rs:207-231 | The first entry with the selector: all earlier ones differ, and `None` only if all differ |
| `Dispatcher.ContractBuilder.TryRoute` | crates/pvm-contract-builder-dsl/src/lib.rs:207-231 | Array and bitmask route as the list does: first match, refusal of value when not payable, handler run at most once |
| `Dispatcher.ContractBuilder.DispatchImpl` | crates/pvm-contract-builder-dsl/src/lib.rs:253-276 | Exactly one host exit, at most one handler call, both as specified on the list |
| `Dispatcher.ContractBuilderWithHandlers.DispatchImpl` | crates/pvm-contract-builder-dsl/src/lib.rs:345-400 | The same with fallback and receive; it panics iff a fallback refuses a payment and the buffer cannot hold the error's selector |
| `Dispatcher.FinalizeResponse` | crates/pvm-contract-builder-dsl/src/lib.rs:402-413 | One exit, with the handler's length clamped to the buffer |
| `Dispatcher.NoUnpaidFor` | crates/pvm-contract-builder-dsl/src/lib.rs:207-231 | With value attached only payable methods, a payable fallback, or receive on empty calldata run |
| `Dispatcher.PlainCalls` | crates/pvm-contract-builder-dsl/src/lib.rs:253-276 | A method runs iff the calldata fit, it is the first with the selector, and it accepts the value; otherwise nobody does |
| `Dispatcher.PlainOutcome` | crates/pvm-contract-builder-dsl/src/lib.rs:253-276 | If a method runs, on the calldata behind the selector and a zero buffer, the exit is what it reports: success or revert with the first n bytes of its buffer, n clamped to the size |
| `Dispatcher.HandlersCalled` | crates/pvm-contract-builder-dsl/src/lib.rs:345-400 | Receive runs iff the calldata are empty, fit, and there is one; a method iff it is the first match and accepts the value; the fallback iff the calldata fit, neither takes them, there is one, and it accepts the value |
| `Dispatcher.HandlersOutcome` | crates/pvm-contract-builder-dsl/src/lib.rs:345-413 | Each runs on the input that is its due, and the exit is what it reports |
| `Dispatcher.NobodyMeansError` | crates/pvm-contract-builder-dsl/src/lib.rs:345-400 | If nobody runs the exit is a revert with the one error whose condition holds |
| `Dispatcher.ReceiveOnlyAgrees` | crates/pvm-contract-builder-dsl/src/lib.rs:345-400 | A builder with only a receive handler agrees with the plain builder on all non-empty calldata |
| `Dispatcher.LaterEntriesDoNotShadow` | crates/pvm-contract-builder-dsl/src/lib.rs:134-143 | Registering more methods never changes where a routed selector goes |
| `Call.FrameCall` | crates/pvm-contract-core/src/call.rs:346-364 | Fails iff selector and arguments do not fit; otherwise the callee is given selector, encoded arguments and the rest of the buffer unchanged |
| `Call.ExtractOutput` | crates/pvm-contract-core/src/call.rs:331-337 | Fails with the buffer untouched if the return data do not fit, else copies them and decodes exactly them |
| `Call.DoneMeansReturned` | crates/pvm-contract-core/src/call.rs:331-337 | The caller has a result iff the callee returned data that fit the buffer and decode to it; a callee that reverts never yields one, and each error has its own cause |
| `Call.CallComputes` | crates/pvm-contract-core/src/call.rs:346-388 | Framed bytes reach the first method of the selector with the original arguments, and its return data decode to the original result, if the length guard admits the two values |
| `Call.CallContract` | crates/pvm-contract-core/src/call.rs:584-606 | `call` composes framing, the callee's dispatch and `extract_output`: length checks, the callee's revert and the decoded result |
| `Call.CallReturnsResult` | crates/pvm-contract-core/src/call.rs:331-388 | For a callee that offers f the caller receives f of its arguments, or the output length error exactly when the encoded result does not fit its buffer |
| `Call.FittingIsAdmitted` | crates/pvm-contract-types/src/alloc_types.rs:226-230 | The guard admits every value that fits, where the elements of every `Vec` take up space |
| `Call.SomeHandlerServes` | crates/pvm-contract-builder-dsl/src/lib.rs:207-231 | A handler as assumed there exists for every function on values |
| `BumpAllocator.MaskRoundsUp` | crates/pvm-bump-allocator/src/lib.rs:53-62 | For every legal layout and offset the mask is rounding up, with no wrap in between |
| `BumpAllocator.RoundUpIsLeast` | crates/pvm-bump-allocator/src/lib.rs:53-62 | Rounding up is the least multiple of the alignment that is not below |
| `BumpAllocator.BumpAllocator.Alloc` | crates/pvm-bump-allocator/src/lib.rs:53-70 | Fails iff the aligned block would not fit; otherwise the block is aligned, inside the heap, disjoint from all earlier ones, and zero; the blocks so far are always those of one run over the requests granted |
| `BumpAllocator.BumpAllocator.AllocZeroed` | crates/pvm-bump-allocator/src/lib.rs:74-76 | `alloc_zeroed` may rely on untouched memory being zero |
| `BumpAllocator.BumpAllocator.ClientWrite` | crates/pvm-bump-allocator/src/lib.rs:53-70 | A write inside a client's own block changes no other block and keeps free memory zero |
| `BumpAllocator.RunIsSafe` | crates/pvm-bump-allocator/src/lib.rs:53-70 | Over any sequence of requests the blocks are disjoint, aligned, inside the heap and in address order |
| `BumpAllocator.RunConcat` | crates/pvm-bump-allocator/src/lib.rs:53-70 | Runs compose: the second goes on where the first ends if all of the first was granted, and adds nothing otherwise |
| `Scaffold.StructRegistry.RegisterStruct` | crates/cargo-pvm-contract/src/scaffold.rs:767-812 | Keeps `by_path` and `name_owner` mutual inverses and `order` free of repeats; a new struct is emitted last with exactly its fields' types, everything emitted comes from the parameter's tree, and, unless a path occurs in its own tree, nothing is used before it is defined; it fails only on an unmappable type or a name clash |
| `Scaffold.StructRegistry.ParamRustType` | crates/cargo-pvm-contract/src/scaffold.rs:652-693 | The same for a parameter with array suffixes, with the Rust type it maps to |
| `Scaffold.TypeTellsParam` | crates/cargo-pvm-contract/src/scaffold.rs:652-693 | The Rust type tells the parameter: its array suffixes in order, its sizes, its leaf and the Solidity path of its struct read back |
| `Scaffold.UnmappableMeans` | crates/cargo-pvm-contract/src/scaffold.rs:652-693 | A parameter has no Rust type, apart from name clashes, exactly if something in it is an unsupported leaf or a tuple without a struct name |
| `Scaffold.NotNestedMeans` | crates/cargo-pvm-contract/src/scaffold.rs:767-812 | The condition of definition before use says that no struct occurs among its own components and none of those being registered occurs at all |
| `Scaffold.StructRegistry.FieldTypes` | crates/cargo-pvm-contract/src/scaffold.rs:788-806 | The same for the fields of a struct, in order |
| `Scaffold.StructRegistry.RegisterAll` | crates/cargo-pvm-contract/src/scaffold.rs:551-634 | For a whole interface: each parameter's Rust type, every struct that one mentions emitted, nothing emitted that is in no parameter's tree, and definitions before uses |
| `Scaffold.StructRegistry.Close` | crates/cargo-pvm-contract/src/scaffold.rs:807-811 | Emitting a struct behind all it mentions keeps definition before use |
| `Scaffold.AppendDefined` | crates/cargo-pvm-contract/src/scaffold.rs:807-811 | The same as a fact about the order alone |

## Left out

- AbiEncoder.EncodeTuple: tuples of any arity stand for the twelve arities of the macro and for derived structs that set `IS_TUPLE`; structs that do not set it are not modelled
- AbiRoundTrip.TailRoundTrip: inputs up to `isize::MAX` bytes, the largest a Rust slice can be; `uint8[N]` and `()[N]` are admitted although Rust reads `[u8; N]` as `bytesN` and has no array of `()`
- AbiLengthGuard.GuardRefusesOnlyEmptyElements: nothing is said of a type of which not even a value with at most one element in each `Vec` fits in memory
- AbiFastPath.CheckedIsUnchecked: head slots that end below 2^64; beyond it `TupleIsExact` covers tuples and `LeafReadsItsWordOrWraps` a primitive on its own
- AbiDecodeLoops.DecodeVec: the element decoders called inside the loops are the decoder functions, not nested calls of the loops
- AbiDecodeLoops.DecodeArray: no panics while decoding or dropping an element
- Reentrancy.StepKeepsInv: the runtime's own denial of reentrant calls; that nothing else writes the guard's transient key is assumed
- Layout.GreedyIsOptimal: the casts to `u8` and `u64` are not wrapped, fields being at most 32 bytes and slot numbers naturals; a derived storage struct without fields claims no slot in the code and one in `SlotCount`
- Int256.AddIsExact: the `checked_` forms, which only test the flag
- Int256.ShrIsFloor: `U256` is the integers modulo 2^256 and the internals of its library are not modelled; left shift, bitwise operators, parsing and display are left out
- NameReading.TrimStrips: which characters are white space is a table of code points, taken from the Unicode property
- TypeNames.ParseInvertsPrint: the 256-character limit is in `ConstStr` and `WriteTupleName` only
- TypeNames.CanonicalIsName: the JSON layer, beyond the fact that an empty component list is not written
- StructExpansion.Expander.TypeToAbiParam: registries in which value types form a cycle, on which the code does not end (`EndsWithoutAliasCycles`)
- ExpansionNames.ExpansionIsSubstitution: structs and tuples have fields, as Solidity demands; parsing of Solidity and raw identifiers are left out
- Dispatcher.ContractBuilder.TryRoute: handlers are functions from input and buffer to result and buffer; their effects on the host are left out, as are the setters of fallback and receive
- Call.CallContract: call flags, limits and value transfer, traps and out-of-gas of the callee, delegate calls and instantiation
- BumpAllocator.BumpAllocator.Alloc: offsets are aligned, addresses only as far as the heap's own placement is; a panic is `None`
- BumpAllocator.RunIsSafe: heaps and layouts within `isize::MAX`, which Rust guarantees
- Scaffold.StructRegistry.RegisterStruct: the path and the Rust identifier are given by an arbitrary function of the path; field names are taken as already converted; type strings are trees
- Keccak, selectors and event topics: hashing is not modelled
- Storage codec, `pvm-storage` and macro expansion beyond the guard sequence and the walker
- `Env` accessors, mock host, precompile framing, revert strings and error code tables: easy members
- Command line, prompts, file and process handling, JSON reading, RPC and extrinsics: input and output
