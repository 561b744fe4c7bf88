# yk core, modelled in Dafny

yk is a meta-tracing JIT for interpreters written in Rust. An interpreter marks its
loop headers as *locations*. yk counts how often each location is reached; once a
location is hot, yk records a trace of the interpreter's execution from it, compiles
the trace to machine code, and from then on runs that code. A compiled trace that
leaves its recorded path hits a *guard*; the trace then either deoptimises back into
the interpreter or records a side trace.

This project models the sequential bookkeeping at the heart of that machinery and
proves what each part promises:

- **`MetaTracer`** (`meta_tracer.dfy`, `ykrt/src/mt.rs`): the per-location state
  machine `Counting(n) → Tracing → Compiling → Compiled ⇄ SideTracing`, with the
  `DontTrace` sink; the per-thread stack of `Interpreting` / tracing / `Executing`
  states; promotion of run-time values into the trace; trace ids and thresholds;
  guard failures and deoptimisation.
- **`RegAlloc`** (`reg_alloc.dfy`, `lsregalloc.rs`): the x64 linear-scan register
  allocator's general-purpose bookkeeping. This covers the 16-bit `RegSet`, the
  per-register `RegState`, the per-instruction `SpillState` and the `RegExtension`
  lattice. It also covers expiry, copy/move/swap, spilling and unspilling, and the
  whole of `assign_gp_regs`.
- **`TraceCompiler`** (`trace_compiler.dfy`, `ykcompile/src/lib.rs`): the older trace
  compiler's memoised local → register / stack-slot map, its register pool and its
  type predicates.
- **`VarRenaming`, `TirOps`, `StorageDeads`, `TirTrace`** (`yktrace/src/tir.rs`): TIR
  trace construction. This covers alpha-renaming of inlined locals, guard inference
  from `SwitchInt` / `Assert`, the define-before-use check, skipping of `do_not_trace`
  callees, and `StorageDead` insertion after each local's last use.
- **`FrameMem`, `Stopgap`, `Blackhole`** (`internal_ws/yksg`, `internal_ws/ykbh`): the
  two deoptimisation interpreters. Each runs a stack of frames over the SIR of the
  program; a frame's locals live in a byte map indexed by offset rather than behind
  raw pointers. What the two crates share (local memory, stores, argument copying,
  returns) is `FrameMem`. The two crates also carry the same statement loop and the
  same frame helpers (`StatementsStep`, `Current`, `MoveTo`), each over its own frame
  type and statement step, so `Stopgap` and `Blackhole` each define them.
- **`PackTypes`** (`ykpack/src/types.rs`): the locals each IR statement, operand and
  terminator uses or defines.
- **`PtDecoder`, `Blocks`** (`hwtracer/src/pt/ykpt/mod.rs`, `hwtracer/src/block.rs`):
  the Intel PT decoder's state. This covers the bounded compressed-return stack, the
  TNT decision FIFO, conditional-successor selection and the packet-driven state
  updates.
- `Bytes` and `Wrappers` are shared helpers: little-endian byte encoding, and `Option`.

Code that updates objects in place is modelled as classes whose methods carry
`modifies` clauses. This covers `MT`, `HotLocation`, `MTThread`, `LSRegAlloc`,
`TraceCompilerState`, `VarRenamer`, `DefUse`, `TraceBuilder`, `StopgapInterpreter`,
`SIRInterpreter`, `CompressedReturns` and `YkPTBlockIterator`. Each such method is
specified by a function of the old state, and the properties are proved about that
function. Pure traversals are functions and lemmas. A panic, `todo!` or `unreachable!` that an operation's inputs can reach is an explicit
error value (`None`, `Panicked`, `Failed(...)`, `Err(...)`, `ok == false`). Preconditions
remain for three things only: a `debug_assert!` that constrains the caller (`pop_tstate`,
the compile outcome of a location that is `Compiling`); an index the caller takes from the
same module or function and the source uses without a check (an instruction or constant
index of the IR module, an operand of the instruction being allocated); and the object
invariants the source's own types keep (`Valid()`, the renamer's accumulator once the first
body has been seen).

## Model

| member | source | states |
|---|---|---|
| Blocks.FromVAddrRange | hwtracer/src/block.rs:46-51 | a block built from an address range is never the unknown block, and keeps both addresses |
| Blocks.VAddrRangeOf | hwtracer/src/block.rs:59-69 | the range is `None` exactly for the unknown block (`is_unknown`, block.rs:54-56); otherwise the block is the range it reports |
| Blocks.RangeRoundTrip | hwtracer/src/block.rs:46-69 | `vaddr_range(from_vaddr_range(a, b)) == Some((a, b))` |
| Blocks.BlockFromItsRange | hwtracer/src/block.rs:46-69 | every known block is rebuilt exactly from its own range |
| Bytes.LeBytesRoundTrip | ykrt/src/mt.rs:1262-1270 | `n` little-endian bytes of a value below 256^n decode back to that value |
| PackTypes.PlaceVars | ykpack/src/types.rs:147-160 | a `Local` place uses exactly its local, and a place uses no local iff it is unimplemented |
| PackTypes.PhiUses | ykpack/src/types.rs:169-184 | a phi uses one local per `Local` argument, and a local is used iff some argument mentions it |
| PackTypes.RvalueUses | ykpack/src/types.rs:169-184 | a place rvalue uses its place's vars, a phi its arguments' locals, an unimplemented rvalue none |
| PackTypes.StatementUses | ykpack/src/types.rs:108-113 | only an assignment uses locals, namely those of its rvalue; `Nop`, `SsaEntryDefs` and `Unimplemented` use none |
| PackTypes.StatementDefs | ykpack/src/types.rs:115-121 | `SsaEntryDefs(vs)` defines exactly `vs`, an assignment its destination's local, `Nop`/`Unimplemented` nothing |
| PackTypes.IsPhi | ykpack/src/types.rs:123-128 | holds iff the statement is `Assign(_, Phi(_))`; a phi then defines its destination's locals and uses exactly the locals its arguments name |
| PackTypes.PhiArg | ykpack/src/types.rs:130-137 | `Some` iff the statement is a phi and its j-th argument is a `Local`; the result is that local, which the phi uses |
| PackTypes.OperandUses | ykpack/src/types.rs:208-213 | `Copy`/`Move` use their place's local; a constant uses none |
| PackTypes.CallOperandDefId | ykpack/src/types.rs:196-206 | `Some` exactly for a constant of `FnDef` type, carrying its `DefId` |
| PackTypes.TerminatorUses | ykpack/src/types.rs:306-321 | `Return{local}` uses `[local]`; `SwitchInt`, `Call`, `Assert`, `Yield` use their operand's vars; every other terminator uses none |
| PackTypes.PhiUsesInOrder | ykpack/src/types.rs:169-184 | a phi's uses list its `Local` arguments in argument order |
| PackTypes.AssignExample | ykpack/src/types.rs:341-351 | `Assign(Local(42), Place(Local(43)))` uses `[43]` and defines `[42]` |
| PackTypes.PhiExample | ykpack/src/types.rs:353-369 | `Assign(Local(44), Phi([100, 200]))` uses `[100, 200]` and defines `[44]` |
| PtDecoder.ObjLocVAddr | hwtracer/src/pt/ykpt/mod.rs:141-146 | a location's address is unknown exactly for `OtherObjOrUnknown(None)`; otherwise it is the carried address |
| PtDecoder.Pushed | hwtracer/src/pt/ykpt/mod.rs:201-211 | a push keeps at most 64 entries, appends the new return on top, and evicts only the oldest entry when full |
| PtDecoder.PushedAll | hwtracer/src/pt/ykpt/mod.rs:201-211 | any sequence of pushes keeps the stack within 64 entries |
| PtDecoder.PushedAllKeepsNewest | hwtracer/src/pt/ykpt/mod.rs:85 | after any sequence of pushes the stack holds exactly the newest 64 returns, in order |
| PtDecoder.CompressedReturns.constructor | hwtracer/src/pt/ykpt/mod.rs:195-199 | a new compressed-return stack is empty |
| PtDecoder.CompressedReturns.Push | hwtracer/src/pt/ykpt/mod.rs:201-211 | the new stack is `Pushed(old, ret)`; the 64-entry bound is kept |
| PtDecoder.CompressedReturns.Pop | hwtracer/src/pt/ykpt/mod.rs:213-215 | pop returns the most recently pushed entry and removes it; popping an empty stack yields `None` |
| PtDecoder.CompressedReturns.Clear | hwtracer/src/pt/ykpt/mod.rs:814-828 | clearing leaves an empty stack |
| PtDecoder.PushThenPop | hwtracer/src/pt/ykpt/mod.rs:194-216 | pop after push returns the pushed return, and leaves the old stack, minus its oldest entry if the push evicted it |
| PtDecoder.ZeroLengthCallNotPushed | hwtracer/src/pt/ykpt/mod.rs:302-305 | a direct call whose target is its own return address (a zero-length call) pushes no return, whether found in the block map or by disassembly; an indirect call, or a direct one of unknown target, pushes |
| PtDecoder.UnboundAfter | hwtracer/src/pt/ykpt/mod.rs:831-844 | a MODE packet sets `unbound_modes`; a packet encoding a target IP clears it; other packets leave it alone |
| PtDecoder.ToIteratorItem | hwtracer/src/pt/ykpt/mod.rs:870-881 | the iterator ends (`None`) exactly when there are no more packets; blocks and other errors are passed through |
| PtDecoder.YkPTBlockIterator.constructor | hwtracer/src/pt/ykpt/mod.rs:235-246 | a new iterator has an unknown location, an empty TNT FIFO, an empty return stack and no unbound modes |
| PtDecoder.YkPTBlockIterator.NextRaw | hwtracer/src/pt/ykpt/mod.rs:762-864 | the next raw packet is the head of the packet stream, which is then consumed |
| PtDecoder.YkPTBlockIterator.ApplyPacket | hwtracer/src/pt/ykpt/mod.rs:831-857 | TNT bits are appended to the back of the FIFO in order; a target IP moves the current location into the main object or elsewhere; an IP outside every object is an error; `unbound_modes` follows `UnboundAfter` |
| PtDecoder.YkPTBlockIterator.SkipPsbPlus | hwtracer/src/pt/ykpt/mod.rs:741-759 | packets are skipped up to and including the first `PSBEND` of the stream, and the packet right after it is returned (`PsbEndAt` places that `PSBEND` second to last among the packets consumed, with no earlier one); a stream with no `PSBEND` panics, and one that ends at its `PSBEND` is `NoMorePackets` with every packet consumed |
| PtDecoder.YkPTBlockIterator.SkipToPsbEnd | hwtracer/src/pt/ykpt/mod.rs:744-752 | the loop consumes packets up to and including the first `PSBEND` of the stream (`PsbEndAt`), or, when there is none, consumes the whole stream and reports it |
| PtDecoder.YkPTBlockIterator.NextPacket | hwtracer/src/pt/ykpt/mod.rs:762-864 | OVF is a trace-buffer-overflow error; PSB clears the return stack, panics if TNT decisions are pending, and resets the location to unknown; an empty stream is `NoMorePackets`; an ordinary packet is consumed and returned, its TNT bits appended to the FIFO (`tnts == old(tnts) + TntsOf(pkt)`), the modes updated, and the current location moved to its target IP's object or kept when it has none; a target IP outside every object is `NoSuchVAddr`; packets are consumed only from the front, and a packet returned is the last one consumed |
| PtDecoder.YkPTBlockIterator.SeekTntOrTip | hwtracer/src/pt/ykpt/mod.rs:728-739 | the packet returned carries TNT bits or a target IP allowed by the skip-out-of-context and skip-PGD flags, and every packet read and passed over before it fails that test; `SeekLog`: the packets passed over lie, in the order read, at rising positions of the consumed prefix of the stream, and the packet returned is the last one consumed; `PlainLog`: when every packet consumed is plain (no OVF, PSB or FUP, and every target IP lies in an object) the stream was the skipped packets, the one returned, then the rest, so the packet returned is the first qualifying packet of the stream (`PlainSeekFindsFirst`); its TNT decisions end the buffer |
| PtDecoder.YkPTBlockIterator.SeekTntOrTipRound | hwtracer/src/pt/ykpt/mod.rs:730-737 | one round of the seek loop: it ends the seek exactly when the read fails or returns a qualifying packet, and then leaves `SeekLog`, `PlainLog` and `PlainEnd` in their final form; otherwise the packet read joins the skipped ones, which all still fail the test |
| PtDecoder.YkPTBlockIterator.SeekTnt | hwtracer/src/pt/ykpt/mod.rs:686-693 | succeeds exactly when it stops at a packet with TNT bits; every packet read and passed over before it has none; `SeekLog` places the skipped packets and the stopping one in the consumed prefix, in order, and `PlainLog` makes the stopping packet the first with TNT bits in the stream when every packet consumed is plain, as for `SeekTntOrTip`; the buffer then ends with that packet's decisions, so at least one is pending |
| PtDecoder.YkPTBlockIterator.SeekTip | hwtracer/src/pt/ykpt/mod.rs:702-713 | succeeds exactly when it stops at a target-IP packet other than TIP.PGD; every packet read and passed over before it is not one; `SeekLog` places the skipped packets and the stopping one in the consumed prefix, in order, and `PlainLog` makes the stopping packet the first such update in the stream when every packet consumed is plain, as for `SeekTntOrTip`; the current location is then that packet's target |
| PtDecoder.YkPTBlockIterator.SeekRead | hwtracer/src/pt/ykpt/mod.rs:688 | one `self.packet()?` of a seek loop: a non-empty stream shrinks; when its first packet is ordinary, exactly that packet is consumed, and it is returned when its target IP lies in an object; the packet returned is the last one consumed, its TNT decisions end the buffer and its target IP sets the location |
| PtDecoder.YkPTBlockIterator.SeekReadLogged | hwtracer/src/pt/ykpt/mod.rs:688 | one read of a seek loop that keeps both logs: the packet returned joins the skipped packets at the position it was read (`ReadLog`), and the stream stays the packets read followed by the rest whenever every packet consumed is plain (`PlainLog`) |
| PtDecoder.YkPTBlockIterator.SkipInterruption | hwtracer/src/pt/ykpt/mod.rs:774-802 | `InterruptionSkipped`, by position in the stream: the first seek stops at a TNT/TIP packet and the second, after a TIP.PGD, at one that is not an out-of-context TIP; success means those stops were a TIP.PGD then a TIP.PGE and the packet returned is the one right after the TIP.PGE; a first stop other than TIP.PGD, or a second other than TIP.PGE, is `TraceInterrupted` right there; when every packet consumed is plain, each stop is the first qualifying packet after the previous one, and a failure is one of those two or the stream running out (`NoMorePackets`) |
| PtDecoder.YkPTBlockIterator.SeekInterruptionStop | hwtracer/src/pt/ykpt/mod.rs:786-792 | one seek of an interruption, stated by position in the stream: the packet returned passes the TNT/TIP test and is the last one consumed; when every packet consumed so far is plain, no packet this seek consumed before it passes, and a seek that stops at nothing ran out of packets |
| PtDecoder.YkPTBlockIterator.AfterFirstStop | hwtracer/src/pt/ykpt/mod.rs:786-802 | given the first seek's outcome, the interruption ends as `InterruptionSkipped` says: a failed first seek is passed on, a first stop other than TIP.PGD is `TraceInterrupted`, and a TIP.PGD goes on to the second seek |
| PtDecoder.YkPTBlockIterator.FinishInterruption | hwtracer/src/pt/ykpt/mod.rs:792-802 | after a TIP.PGD, the second seek must stop at a TIP.PGE (else `TraceInterrupted`), and the packet after it is returned, or `NoMorePackets` when there is none; the whole satisfies `InterruptionSkipped` |
| PtDecoder.YkPTBlockIterator.ResetAtPsb | hwtracer/src/pt/ykpt/mod.rs:814-829 | a PSB resets the location to unknown and clears the return stack; pending TNT decisions panic; otherwise the PSB+ is skipped as by `SkipPsbPlus` (the packet returned follows the first `PSBEND`, and a stream ending there is `NoMorePackets`), and a PSB after it panics as unsupported |
| PtDecoder.YkPTBlockIterator.ResyncInterruption | hwtracer/src/pt/ykpt/mod.rs:774-829 | the interruption is skipped as `InterruptionSkipped` states; unless it resumed at a PSB, its outcome is the result; a PSB there clears the return stack and, on success, leaves the location unknown and the TNT buffer empty, with the packet returned right after the first `PSBEND` that follows the PSB, or is `NoMorePackets` when the stream ends at that `PSBEND` |
| PtDecoder.YkPTBlockIterator.Resync | hwtracer/src/pt/ykpt/mod.rs:774-829 | the non-ordinary part of `packet`: after a FUP or a PSB, the packet returned is never a PSB and is the last one consumed; after a PSB the return stack is empty, pending TNT decisions panic and a packet returned leaves the location unknown |
| PtDecoder.PlainLogRead | hwtracer/src/pt/ykpt/mod.rs:688 | a read that takes a plain first packet and returns it extends `PlainLog` by that packet; any other read keeps it; over plain packets a read fails only at the end of the stream (`PlainEnd`) |
| PtDecoder.PlainSeekFindsFirst | hwtracer/src/pt/ykpt/mod.rs:728-739 | when every packet consumed is plain, a seek that stops at a qualifying packet after skipping non-qualifying ones stopped at the first qualifying packet of the stream: the packets before it are exactly the skipped ones, none qualifies, and the stream is those, the stop, then the rest |
| PtDecoder.PlainSeekFrom | hwtracer/src/pt/ykpt/mod.rs:728-739 | a seek begun part way into the stream, over plain packets, stopped at the first qualifying packet from where it began: its position is the start plus the packets skipped, and none before it from the start qualifies |
| PtDecoder.PlainSplit | hwtracer/src/pt/ykpt/mod.rs:728-739 | a plain consumed prefix stays plain when cut into the part before an intermediate point and the part after it |
| PtDecoder.PlainPrefix | hwtracer/src/pt/ykpt/mod.rs:728-739 | a plain prefix of the stream is plain up to any point within it |
| PtDecoder.InterruptionUnstarted | hwtracer/src/pt/ykpt/mod.rs:786 | a first seek that stopped at nothing ends the interruption with its own error and no stops |
| PtDecoder.InterruptedAtFirst | hwtracer/src/pt/ykpt/mod.rs:786-791 | a first stop other than TIP.PGD ends the interruption with `TraceInterrupted` there |
| PtDecoder.InterruptionUnfinished | hwtracer/src/pt/ykpt/mod.rs:792 | a second seek that stopped at nothing ends the interruption with its error after the TIP.PGD stop |
| PtDecoder.InterruptedAtSecond | hwtracer/src/pt/ykpt/mod.rs:792-797 | a second stop other than TIP.PGE ends the interruption with `TraceInterrupted` there |
| PtDecoder.InterruptionPassed | hwtracer/src/pt/ykpt/mod.rs:792-802 | a TIP.PGD then a TIP.PGE end the interruption with the packet right after the TIP.PGE, or `NoMorePackets` when the stream ends there |
| PtDecoder.SeekStops | hwtracer/src/pt/ykpt/mod.rs:728-739 | a seek that stops at the packet its last read returned satisfies `SeekLog` |
| PtDecoder.ReadAtCount | hwtracer/src/pt/ykpt/mod.rs:728-739 | the packets read at rising positions below `n` number at most `n` |
| PtDecoder.YkPTBlockIterator.FollowConditionalSuccessor | hwtracer/src/pt/ykpt/mod.rs:341-371 | zero or more than two conditional branches panic and consume nothing; otherwise TNT decisions are consumed up to the first taken one; the result is the taken target iff a taken decision was consumed, else the not-taken target; in every case the decisions consumed followed by the buffer left are the old buffer followed by the decisions refills read (`read`), and with enough decisions buffered nothing is read and the call cannot fail |
| PtDecoder.YkPTBlockIterator.IsReturnCompressed | hwtracer/src/pt/ykpt/mod.rs:493-514 | the model never reports a compressed return, and pending TNT decisions panic (the disassembly that finds returns is not part of this model) |
| PtDecoder.YkPTBlockIterator.NoteBlockMapCall | hwtracer/src/pt/ykpt/mod.rs:283-338 | a call found in the block map pushes its call site exactly when the push rule holds; otherwise the stack is unchanged |
| PtDecoder.YkPTBlockIterator.NoteDisassembledCall | hwtracer/src/pt/ykpt/mod.rs:615-625 | a disassembled direct call pushes the next IP unless it is a zero-length call |
| MetaTracer.Abandoned | ykrt/src/mt.rs:655-677 | abandoning a traced location counts a failure and returns it to `Counting(0)`, or to `DontTrace` once the failures exceed the threshold; a side-traced one returns to `Compiled(root)`; any other kind panics |
| MetaTracer.HotStep | ykrt/src/mt.rs:728-828 | only a side-traced location reached in a nested state panics; `Execute` only when the thread is not tracing; `StopTracing` / `StopSideTracing` only from the thread that traces the location; `StartTracing` leaves it `Tracing`; `Compiling` and `DontTrace` never change and return `NoAction` |
| MetaTracer.CompiledExecutesIffIdle | ykrt/src/mt.rs:729-738 | a `Compiled(ctr)` location returns `Execute(ctr)` iff the thread is not tracing, otherwise `AbortTracing(EncounteredCompiledTrace)` |
| MetaTracer.TracingLocationStops | ykrt/src/mt.rs:753-766 | reached by its own tracing thread, a `Tracing` location becomes `Compiling` with `StopTracing{start_cp_idx: 0}`; reached while another location is traced it returns `NoAction` |
| MetaTracer.CountingLocationHeatsUp | ykrt/src/mt.rs:740-752 | n idle visits to `Counting(c)` with `c + n <= threshold` return n `NoAction`s and leave `Counting(c + n)`; the next visit counts on, or starts tracing once the count reaches the threshold |
| MetaTracer.OrphanedTracingGivesUp | ykrt/src/mt.rs:767-796 | while the tracing thread keeps dying, a `Tracing` location restarts tracing once per failure up to the threshold, and the next failure makes it `DontTrace` |
| MetaTracer.ColdLocationHeatsUp | ykrt/src/mt.rs:830-874 | a location without a hot location counts n visits without becoming hot, and becomes hot on the visit after the count reaches the threshold |
| MetaTracer.GuardFailureStep | ykrt/src/mt.rs:906-919 | a guard failure starts a side trace exactly when the parent location is `Compiled`, and otherwise leaves it unchanged |
| MetaTracer.SideTraceRoundTrip | ykrt/src/mt.rs:797-819 | a guard failure moves `Compiled(root)` to `SideTracing`, and reaching the location again while side-tracing restores `Compiled(root)` with `StopSideTracing` |
| MetaTracer.RootCompileStep | ykrt/src/mt.rs:296-313 | a successful compile makes the location `Compiled(ctr)`; a failed one counts a failure and makes it `Counting(0)`, or `DontTrace` past the threshold |
| MetaTracer.FailuresUpToThreshold | ykrt/src/mt.rs:1749-1782 | a location may fail `threshold` times and still be retried, and the next failure gives up |
| MetaTracer.Failures | ykrt/src/mt.rs:1749-1782 | n failures give n answers, one per failure |
| MetaTracer.InnerLoopVerdictChecked | ykrt/src/mt.rs:607-681 | tracing switches to an inner loop only in the frame where tracing started, when the loop was seen and its location is counting; leaving the frame aborts with `OutOfFrame`; tracing continues iff in frame and the loop was not seen |
| MetaTracer.InnerLoopVerdictAsWritten | ykrt/src/mt.rs:617-641 | as written, tracing continues iff the loop was not seen in the tracing frame; otherwise the verdict ignores whether the frame changed |
| MetaTracer.InnerLoopAsWrittenIgnoresFrame | ykrt/src/mt.rs:626-641 | as written, an inner loop reached from another frame still yields `StopTracing` (see Findings) |
| MetaTracer.I32BytesRoundTrip | ykrt/src/mt.rs:1241-1249 | the 4 bytes promoted for an `i32` decode, as two's complement, back to the value |
| MetaTracer.I64BytesRoundTrip | ykrt/src/mt.rs:1283-1291 | the 8 bytes promoted for an `i64` decode, as two's complement, back to the value |
| MetaTracer.UnsignedBytesRoundTrip | ykrt/src/mt.rs:1262-1270 | the bytes promoted for a `u32` or `usize` decode back to the value |
| MetaTracer.I32Bytes | ykrt/src/mt.rs:1241-1249 | an `i32` is promoted as 4 bytes |
| MetaTracer.I64Bytes | ykrt/src/mt.rs:1283-1291 | an `i64` is promoted as 8 bytes |
| MetaTracer.AnyTracing | ykrt/src/mt.rs:1173-1177 | `is_tracing` holds iff some element of the thread-state stack is recording a trace |
| MetaTracer.WithTop | ykrt/src/mt.rs:1159-1165 | replacing the top thread state keeps the length and every state below it |
| MetaTracer.WithPromotion | ykrt/src/mt.rs:1241-1312 | promoted bytes are appended to the top state's promotions only when it is recording; nothing else changes |
| MetaTracer.DeoptTarget | ykrt/src/mt.rs:939-975 | deoptimisation unwinds to the topmost `Executing` state, above which every state is recording |
| MetaTracer.RecordedAbove | ykrt/src/mt.rs:939-964 | the hot locations popped before the `Executing` state, topmost first, each recorded on the stack |
| MetaTracer.AbandonAll | ykrt/src/mt.rs:946-964 | abandoning in turn keeps the set of locations and leaves the locations not abandoned unchanged; `None` as soon as one cannot be abandoned |
| MetaTracer.AbandonAllPop | ykrt/src/mt.rs:939-964 | popping one recording above the target abandons its location first, then the rest |
| MetaTracer.AbandonAllDistinct | ykrt/src/mt.rs:946-964 | for distinct locations, abandoning all succeeds iff each can be abandoned, and each ends in the state abandoning it alone gives |
| MetaTracer.AbandonAllStuck | ykrt/src/mt.rs:946-964 | abandoning fails if any location in the list cannot be abandoned |
| MetaTracer.AbandonTwiceFails | ykrt/src/mt.rs:946-964 | a location listed twice makes abandoning fail, since an abandoned location is no longer traced |
| MetaTracer.TracedPop | ykrt/src/mt.rs:1220-1223 | popping an entry keeps only locations already traced, and the popped recording's location was traced |
| MetaTracer.DeoptSpec | ykrt/src/mt.rs:939-975 | the loop of `deopt`, one popped entry at a time: it stops after `Executing`, abandons a recording and goes on, and panics at `Interpreting`, the bottom entry or a trace that cannot be abandoned; it keeps the set of locations and shortens the stack |
| MetaTracer.DeoptSpecAbandons | ykrt/src/mt.rs:939-975 | on a stack whose bottom is `Interpreting`, the loop succeeds iff an `Executing` state has only recordings above it and all of them can be abandoned, and it then leaves the stack below that state and the states `AbandonAll` gives |
| MetaTracer.HotLocation.constructor | ykrt/src/mt.rs:834-837 | a new hot location has the given kind and no failures |
| MetaTracer.Location.constructor | ykrt/src/mt.rs:831-843 | a new location is cold: no hot location and a zero count |
| MetaTracer.HotLocation.TracecompilationError | ykrt/src/mt.rs:655-677 | one more failure is counted, and the answer is `KeepTrying` iff the count does not exceed the threshold |
| MetaTracer.HotLocation.Abandon | ykrt/src/mt.rs:946-964 | the location's new state is `Abandoned(old state)`; a location that is neither traced nor side-traced is left unchanged and reported as a panic |
| MetaTracer.MTThread.constructor | ykrt/src/mt.rs:1126-1131 | a new thread's stack is `[Interpreting]` |
| MetaTracer.MTThread.IncCpIdx | ykrt/src/mt.rs:1159-1165 | the top state's control-point index goes up by one when it is recording; otherwise nothing changes |
| MetaTracer.MTThread.PopTstate | ykrt/src/mt.rs:1220-1223 | with more than one state, pop returns the top and removes it, so the stack is never empty |
| MetaTracer.MTThread.PushTstate | ykrt/src/mt.rs:1226-1228 | push appends the state |
| MetaTracer.MTThread.Promote | ykrt/src/mt.rs:1241-1312 | promotion always succeeds and the stack becomes `WithPromotion(old, bytes)` |
| MetaTracer.MTThread.PromoteI32 | ykrt/src/mt.rs:1241-1249 | appends the 4 two's-complement bytes of the value when recording; always returns true |
| MetaTracer.MTThread.PromoteU32 | ykrt/src/mt.rs:1262-1270 | appends the 4 little-endian bytes of the value when recording; always returns true |
| MetaTracer.MTThread.PromoteI64 | ykrt/src/mt.rs:1283-1291 | appends the 8 two's-complement bytes of the value when recording; always returns true |
| MetaTracer.MTThread.PromoteUsize | ykrt/src/mt.rs:1304-1312 | appends the 8 little-endian bytes of the value when recording; always returns true |
| MetaTracer.MTThread.InsertDebugStr | ykrt/src/mt.rs:1320-1328 | appends the string to the top state's debug strings when recording; always returns true |
| MetaTracer.MT.constructor | ykrt/src/mt.rs:115-140 | thresholds start at their defaults, the hot threshold overridable by the environment, and trace ids start at 0 |
| MetaTracer.MT.SetHotThreshold | ykrt/src/mt.rs:176-178 | sets the hot threshold and nothing else |
| MetaTracer.MT.SetSidetraceThreshold | ykrt/src/mt.rs:187-190 | sets the side-trace threshold and nothing else |
| MetaTracer.MT.SetTraceFailureThreshold | ykrt/src/mt.rs:200-209 | a threshold of 0 panics and changes nothing; any other value is stored |
| MetaTracer.MT.NextCompiledTraceId | ykrt/src/mt.rs:218-227 | returns the current id and advances the counter modulo 2^64; the id that would wrap panics |
| MetaTracer.MT.RootCompileOutcome | ykrt/src/mt.rs:296-313 | a `Compiling` location takes the state `RootCompileStep` gives it |
| MetaTracer.MT.HotTransition | ykrt/src/mt.rs:728-828 | the hot location's new state and the action returned are exactly `HotStep` of the old state |
| MetaTracer.MT.ColdTransition | ykrt/src/mt.rs:830-874 | the visit count goes up by one; an idle thread starts tracing exactly when the count reaches the threshold; while tracing, the location gets a `Counting` hot location and is recorded as seen at the current control-point index, or tracing aborts out of frame |
| MetaTracer.MT.TransitionControlPoint | ykrt/src/mt.rs:598-898 | only the top thread state may change and it stays recording iff it was; an existing hot location and its count are kept; a location without one counts the visit |
| MetaTracer.MT.ControlPoint | ykrt/src/mt.rs:424-594 | abort, stop and stop-side-tracing pop the tracing state, whose frame address is the current one (so the source's `assert_eq!` on it holds); `Execute(ctr)` pushes `Executing(ctr)`; a started recorder pushes a fresh recording state; a recorder that fails temporarily marks the location `DontTrace`; a cold location counts the visit; a hot location that passes the inner-loop check takes exactly the new state and action `HotStep` gives; an inner loop stops or abandons the trace |
| MetaTracer.MT.TransitionGuardFailure | ykrt/src/mt.rs:901-935 | without a parent location, or when the guard is not yet hot, the result is `NoSideTrace`; while tracing it panics; otherwise the parent's kind follows `GuardFailureStep` |
| MetaTracer.MT.GuardFailure | ykrt/src/mt.rs:982-1012 | starting a side trace moves a `Compiled(root)` parent to `SideTracing(root, gidx, parent)` and pushes a recording state; `NoSideTrace` leaves the thread unchanged |
| MetaTracer.MT.Deopt | ykrt/src/mt.rs:939-975 | deoptimisation succeeds iff there is an `Executing` state with only recordings above it and each of their traces can be abandoned in turn; it then cuts the stack back to below that state and leaves every recorded location in the state `AbandonAll` gives (abandoned ones `Counting(0)`, `DontTrace` or `Compiled(root)`, the others unchanged) |
| MetaTracer.MT.DeoptPop | ykrt/src/mt.rs:939-975 | one pop of `deopt`: `Executing` ends it successfully, `Interpreting` or a trace that cannot be abandoned panics, and a recording's location takes the state `Abandoned` gives; each case is one step of `DeoptSpec` |
| RegAlloc.Blank | ykrt/src/compile/jitc_yk/codegen/x64/lsregalloc.rs:1771-1773 | the blank set has no register set |
| RegAlloc.Set | ykrt/src/compile/jitc_yk/codegen/x64/lsregalloc.rs:1783-1785 | `set(r)` makes `r` set and changes no other bit |
| RegAlloc.Unset | ykrt/src/compile/jitc_yk/codegen/x64/lsregalloc.rs:1787-1789 | `unset(r)` makes `r` clear and changes no other bit |
| RegAlloc.Union | ykrt/src/compile/jitc_yk/codegen/x64/lsregalloc.rs:1775-1777 | union is bitwise or |
| RegAlloc.Singleton | ykrt/src/compile/jitc_yk/codegen/x64/lsregalloc.rs:1838-1842 | the set built from one register holds exactly that register |
| RegAlloc.HighestClearBelow | ykrt/src/compile/jitc_yk/codegen/x64/lsregalloc.rs:1802-1810 | returns the highest clear register below `k`, and `None` iff every register below `k` is set |
| RegAlloc.FindEmpty | ykrt/src/compile/jitc_yk/codegen/x64/lsregalloc.rs:1802-1810 | returns the highest-numbered clear register, and `None` iff all 16 bits are set |
| RegAlloc.FindEmptyAvoiding | ykrt/src/compile/jitc_yk/codegen/x64/lsregalloc.rs:1812-1821 | the same over the union of the set and the registers to avoid |
| RegAlloc.SetBitsFrom | ykrt/src/compile/jitc_yk/codegen/x64/lsregalloc.rs:1831-1835 | lists exactly the set registers, in increasing order |
| RegAlloc.FromVec | ykrt/src/compile/jitc_yk/codegen/x64/lsregalloc.rs:1823-1829 | the set holds exactly the listed registers |
| RegAlloc.WithGpReserved | ykrt/src/compile/jitc_yk/codegen/x64/lsregalloc.rs:1794-1800 | the set holds exactly the reserved registers RSP and RBP |
| RegAlloc.RegSetExample | ykrt/src/compile/jitc_yk/codegen/x64/lsregalloc.rs:1902-1934 | the source's `regset` unit test: empty registers are found from r15 downwards, none when all are set, and RAX when it is the only clear one |
| RegAlloc.AlignedMeets | ykrt/src/compile/jitc_yk/codegen/x64/lsregalloc.rs:804-840 | aligning to `Undefined` keeps the current extension; aligning to `ZeroExtended`/`SignExtended` sets it; the result always meets the target |
| RegAlloc.SwapIsPermutation | ykrt/src/compile/jitc_yk/codegen/x64/lsregalloc.rs:978-983 | swapping two registers' states permutes the states, and swapping twice restores them |
| RegAlloc.MoveIsPermutation | ykrt/src/compile/jitc_yk/codegen/x64/lsregalloc.rs:966-975 | moving into an empty register permutes the states, and moving back restores them |
| RegAlloc.RegisterOpsAgree | ykrt/src/compile/jitc_yk/codegen/x64/lsregalloc.rs:956-983 | copy, move and swap keep "regset bit set iff state is not `Empty`" |
| RegAlloc.ExpiredStates | ykrt/src/compile/jitc_yk/codegen/x64/lsregalloc.rs:191-241 | expiry maps the 16 register states to 16 states; `ExpiredSpec` states what they hold |
| RegAlloc.ExpiredSpec | ykrt/src/compile/jitc_yk/codegen/x64/lsregalloc.rs:191-241 | after expiry no register holds a constant; a register keeps an instruction's value iff that value is still used; reserved registers stay reserved; expiry is idempotent |
| RegAlloc.FurthestAsWritten | ykrt/src/compile/jitc_yk/codegen/x64/lsregalloc.rs:540-563 | as written, the heuristic picks some candidate, and none only when there are none (see Findings) |
| RegAlloc.FurthestIsFurthest | ykrt/src/compile/jitc_yk/codegen/x64/lsregalloc.rs:540-563 | the spill candidate chosen is one whose value is next used furthest away (see Findings) |
| RegAlloc.FurthestAsWrittenSpillsNearer | ykrt/src/compile/jitc_yk/codegen/x64/lsregalloc.rs:540-563 | as written, the heuristic can pick the candidate whose value is needed sooner (see Findings) |
| RegAlloc.FirstHolding | ykrt/src/compile/jitc_yk/codegen/x64/lsregalloc.rs:880-892 | returns the lowest register holding the operand, and `None` iff none holds it |
| RegAlloc.FirstHoldingAvoiding | ykrt/src/compile/jitc_yk/codegen/x64/lsregalloc.rs:896-909 | the same over registers not in the avoid set |
| RegAlloc.AlignUp | ykrt/src/compile/jitc_yk/codegen/x64/lsregalloc.rs:1000-1010 | a spill slot offset is rounded up by less than the alignment |
| RegAlloc.CandidatesOf | ykrt/src/compile/jitc_yk/codegen/x64/lsregalloc.rs:528-586 | the candidates of a rank are exactly the unassigned registers below `k` holding an instruction whose spill state has that rank |
| RegAlloc.ConsiderForSpill | ykrt/src/compile/jitc_yk/codegen/x64/lsregalloc.rs:528-586 | one step of the candidate scan: an unassigned register holding a constant panics; otherwise the three running choices are kept equal to the choices over the registers scanned so far |
| RegAlloc.SpillChoiceSpec | ykrt/src/compile/jitc_yk/codegen/x64/lsregalloc.rs:511-592 | the register spilled is unassigned and holds an instruction whose value is the cheapest to spill; among already-spilled ones it is the furthest next use; no register left panics only when no unassigned register holds an instruction |
| RegAlloc.OneOutput | ykrt/src/compile/jitc_yk/codegen/x64/lsregalloc.rs:393-422 | a constraint that is an output counts towards the outputs |
| RegAlloc.TwoOutputs | ykrt/src/compile/jitc_yk/codegen/x64/lsregalloc.rs:393-422 | two output constraints exceed the single output allowed |
| RegAlloc.Unwrapped | ykrt/src/compile/jitc_yk/codegen/x64/lsregalloc.rs:588-597 | once every constraint has a register, the registers are unwrapped in constraint order |
| RegAlloc.FirstUsing | ykrt/src/compile/jitc_yk/codegen/x64/lsregalloc.rs:644-714 | returns the first constraint assigned a given register, and `None` iff no constraint is assigned it |
| RegAlloc.AssignForcedRegs | ykrt/src/compile/jitc_yk/codegen/x64/lsregalloc.rs:436-457 | succeeds iff no register is forced twice; each constraint gets its forced register, and the claimed set is the reserved registers plus the forced ones |
| RegAlloc.FindOpInConstraints | ykrt/src/compile/jitc_yk/codegen/x64/lsregalloc.rs:785-800 | true iff some constraint carries the operand |
| RegAlloc.LSRegAlloc.constructor | ykrt/src/compile/jitc_yk/codegen/x64/lsregalloc.rs:125-164 | RSP and RBP start `Reserved` and every other register `Empty`; the regset marks exactly the reserved ones; no instruction is spilled |
| RegAlloc.LSRegAlloc.Reset | ykrt/src/compile/jitc_yk/codegen/x64/lsregalloc.rs:168-186 | the same register state as after `new`; spills and stack size are kept |
| RegAlloc.LSRegAlloc.ExpireRegs | ykrt/src/compile/jitc_yk/codegen/x64/lsregalloc.rs:191-241 | both register files become `ExpiredStates` of their old states; nothing else changes |
| RegAlloc.LSRegAlloc.FindOpInGpReg | ykrt/src/compile/jitc_yk/codegen/x64/lsregalloc.rs:880-892 | the lowest general-purpose register holding the operand, never a reserved one, and `None` iff none holds it |
| RegAlloc.LSRegAlloc.FindOpInGpRegAvoiding | ykrt/src/compile/jitc_yk/codegen/x64/lsregalloc.rs:896-909 | a register outside the avoid set holding the operand, and `None` iff there is none |
| RegAlloc.LSRegAlloc.IsInputInGpReg | ykrt/src/compile/jitc_yk/codegen/x64/lsregalloc.rs:912-925 | true iff the register holds the operand |
| RegAlloc.LSRegAlloc.AlignExtensions | ykrt/src/compile/jitc_yk/codegen/x64/lsregalloc.rs:804-875 | returns the previous extension; fails, changing nothing, exactly when a zero extension of a width other than 1 to 32 or 64 bits, or a sign extension of a width other than 1, 8, 16, 32 or 64 bits, is needed (the `todo!`s of the two extension helpers); otherwise updates only that register's extension, which then meets the target |
| RegAlloc.LSRegAlloc.CopyGpReg | ykrt/src/compile/jitc_yk/codegen/x64/lsregalloc.rs:957-963 | the new register gets the old one's state, the old one is unchanged, and the new register's bit is set |
| RegAlloc.LSRegAlloc.MoveGpReg | ykrt/src/compile/jitc_yk/codegen/x64/lsregalloc.rs:966-975 | the new register gets the old state, the old register becomes `Empty`, and the bits follow |
| RegAlloc.LSRegAlloc.SwapGpReg | ykrt/src/compile/jitc_yk/codegen/x64/lsregalloc.rs:978-983 | the two registers' states are exchanged |
| RegAlloc.LSRegAlloc.SpillGpIfNotAlready | ykrt/src/compile/jitc_yk/codegen/x64/lsregalloc.rs:988-1023 | a stack slot is allocated only for an instruction that is not spilled yet and is used later; a definition width other than 1, 8, 16, 32 or 64 bits then panics (`unreachable!`) and changes nothing; an existing spill is never changed, so each instruction is spilled to at most one place |
| RegAlloc.LSRegAlloc.LoadConstIntoGpReg | ykrt/src/compile/jitc_yk/codegen/x64/lsregalloc.rs:1091-1108 | a pointer or an integer of at most 32 or exactly 64 bits is loaded, zero-extended, and the register's bit set; a float or an integer of 33 to 63 or more than 64 bits is the source's `todo!` and changes nothing |
| RegAlloc.LSRegAlloc.ForceGpUnspill | ykrt/src/compile/jitc_yk/codegen/x64/lsregalloc.rs:1033-1086 | a value that is not a constant, not spilled and in no register panics (`ValueNowhere`); a stack slot of other than 1, 2, 4 or 8 bytes, a direct slot of other than 8, or a constant of other than 8 or 32 bits panics (`UnhandledSize`); otherwise the register holds the value, zero-extended; a failure changes nothing |
| RegAlloc.LSRegAlloc.PutInputInGpReg | ykrt/src/compile/jitc_yk/codegen/x64/lsregalloc.rs:929-954 | afterwards the register holds the operand with a matching extension, and no other register changes; it fails, changing nothing, exactly for a value that is nowhere (`ValueNowhere`), or (`UnhandledSize`) for a load the source does not handle or an extension of the held or loaded value's width that `align_extensions` leaves `todo!` |
| RegAlloc.LSRegAlloc.Occupy | ykrt/src/compile/jitc_yk/codegen/x64/lsregalloc.rs:627-643 | the register takes the given state and its bit is set; nothing else changes |
| RegAlloc.LSRegAlloc.VarLocationOf | ykrt/src/compile/jitc_yk/codegen/x64/lsregalloc.rs:1115-1162 | a value in a general-purpose register is reported there, otherwise in a floating-point register, otherwise at its stack or direct slot with its size; `None` (a panic) iff it is nowhere |
| RegAlloc.LSRegAlloc.ChooseSpillReg | ykrt/src/compile/jitc_yk/codegen/x64/lsregalloc.rs:511-592 | the register chosen to spill is `SpillChoice` of the current state, never assigned and never reserved |
| RegAlloc.LSRegAlloc.AssignHintedReg | ykrt/src/compile/jitc_yk/codegen/x64/lsregalloc.rs:459-475 | an unforced output takes the hinted register when free; all chosen registers are claimed, distinct and not reserved |
| RegAlloc.LSRegAlloc.ReuseInputRegs | ykrt/src/compile/jitc_yk/codegen/x64/lsregalloc.rs:477-507 | an input already in an unclaimed register reuses it; registers are shared only between constraints with the same input |
| RegAlloc.LSRegAlloc.AssignRemainingRegs | ykrt/src/compile/jitc_yk/codegen/x64/lsregalloc.rs:511-592 | every constraint still without a register gets one, earlier choices are kept, and the result is a well-formed choice; the only panics are a constant in an unassigned register and no register left |
| RegAlloc.LSRegAlloc.ChooseRegs | ykrt/src/compile/jitc_yk/codegen/x64/lsregalloc.rs:382-592 | float operands, more than one output, or a register forced twice panic; otherwise forced registers, hints and reused input registers are honoured |
| RegAlloc.LSRegAlloc.SpillUnwanted | ykrt/src/compile/jitc_yk/codegen/x64/lsregalloc.rs:599-621 | each chosen register ends up empty or holding a value the constraints want; spills only grow; the only failure is an unhandled spill width |
| RegAlloc.LSRegAlloc.CopyInputsIntoPlace | ykrt/src/compile/jitc_yk/codegen/x64/lsregalloc.rs:627-643 | copying inputs into their chosen registers keeps the allocator well formed and touches no spill |
| RegAlloc.LSRegAlloc.ShuffleConstraintRegs | ykrt/src/compile/jitc_yk/codegen/x64/lsregalloc.rs:644-714 | one round of swaps and moves keeps the allocator well formed and touches no spill |
| RegAlloc.LSRegAlloc.PutInputs | ykrt/src/compile/jitc_yk/codegen/x64/lsregalloc.rs:717-751 | every register used by a single input constraint holds that input afterwards; the only failures are a value that is nowhere and an unhandled size, which covers a load, an extension or a spill width the source leaves `todo!` or `unreachable!` |
| RegAlloc.LSRegAlloc.SetOutputState | ykrt/src/compile/jitc_yk/codegen/x64/lsregalloc.rs:753-781 | an output's register holds the instruction's value; a clobbered input's register is emptied; only that register changes |
| RegAlloc.LSRegAlloc.SetOutputStates | ykrt/src/compile/jitc_yk/codegen/x64/lsregalloc.rs:753-781 | every register used by a single constraint is settled as that constraint asks |
| RegAlloc.LSRegAlloc.ApplyChoice | ykrt/src/compile/jitc_yk/codegen/x64/lsregalloc.rs:599-781 | applying a well-formed choice settles every register used by a single constraint; a failure is running out of fuel, a value that is nowhere, an unhandled size (of a load, an extension or a spill), or an output left outside a register |
| RegAlloc.LSRegAlloc.AssignGpRegs | ykrt/src/compile/jitc_yk/codegen/x64/lsregalloc.rs:382-783 | the source's panics on float operands, several outputs and doubly forced registers; on success one non-reserved register per constraint, forced registers honoured, and every register used by a single constraint settled |
| RegAlloc.LSRegAlloc.ForceAssignAndSpillInstGpReg | ykrt/src/compile/jitc_yk/codegen/x64/lsregalloc.rs:325-350 | the instruction is given a fresh stack slot; a 1-bit value needs the register to be empty, and other widths must be 8, 16, 32 or 64 bits |
| RegAlloc.LSRegAlloc.ForceAssignInstGpReg | ykrt/src/compile/jitc_yk/codegen/x64/lsregalloc.rs:311-321 | a free register is given the instruction's value; an occupied one spills the value instead |
| RegAlloc.LSRegAlloc.ForceAssignInstDirect | ykrt/src/compile/jitc_yk/codegen/x64/lsregalloc.rs:362-365 | the instruction's spill state becomes `Direct(frame_off)` |
| RegAlloc.LSRegAlloc.ForceAssignInstIndirect | ykrt/src/compile/jitc_yk/codegen/x64/lsregalloc.rs:368-371 | the instruction's spill state becomes `Stack(frame_off)` |
| RegAlloc.LSRegAlloc.AssignConst | ykrt/src/compile/jitc_yk/codegen/x64/lsregalloc.rs:375-377 | the instruction's spill state becomes the constant |
| TraceCompiler.CanLiveInRegister | ykcompile/src/lib.rs:193-216 | true exactly for unreferenced ints narrower than 128 bits, refs and bools; an unimplemented type panics |
| TraceCompiler.NestedCopyable | ykcompile/src/lib.rs:219-240 | an array or slice is copyable iff its element type is |
| TraceCompiler.RegisterLocalsAreCopyable | ykcompile/src/lib.rs:193-240 | every type that can live in a register is copyable |
| TraceCompiler.IsCopyable | ykcompile/src/lib.rs:219-240 | a type is copyable exactly when its innermost element under arrays and slices is an integer narrower than 128 bits, a reference or a bool (so structs and tuples are not); it is unimplemented (the source's `todo!`) exactly when that element is |
| TraceCompiler.LocalToRegName | ykcompile/src/lib.rs:64-87 | a register code below 16 gets its x86-64 name from the table rax … r15, a higher code has none (the source's `unimplemented!`), and any location that is not a register is named "" |
| TraceCompiler.RegNames | ykcompile/src/lib.rs:64-87 | registers 0 to 15 map to distinct non-empty x86-64 names (rax … r15), higher codes have none, and non-registers map to "" |
| TraceCompiler.StackAfterAlloc | ykcompile/src/lib.rs:529-535 | a stack allocation grows the frame by at least the size |
| TraceCompiler.TraceCompilerState.constructor | ykcompile/src/lib.rs:489-535 | for any locals with an alignment, zero-sized ones included: no local has a location yet, the stack is empty, and every local register is free |
| TraceCompiler.TraceCompilerState.LiveLocationsDistinct | ykcompile/src/lib.rs:1572-1597 | distinct live locals never share a register, their stack slots share no byte, and the slots of two locals that are not zero-sized are distinct |
| TraceCompiler.TraceCompilerState.GetFreeRegister | ykcompile/src/lib.rs:520-525 | returns a free register, and `None` iff no register is free |
| TraceCompiler.TraceCompilerState.StackAlloc | ykcompile/src/lib.rs:529-535 | for any size, zero included, and any alignment: the stack grows to `StackAfterAlloc`, the slot is at `[rbp - new stack size]` and the register maps are unchanged |
| TraceCompiler.TraceCompilerState.LocalToLocation | ykcompile/src/lib.rs:489-518 | `INTERP_STEP_ARG` is always `[rdi + 0]`; a known local keeps its location and nothing changes; an undeclared local or an unimplemented type gives `None`; a new local, zero-sized ones included, takes a free register when it can live in one, else a new stack slot, and the register is recorded as holding it |
| TraceCompiler.TraceCompilerState.Place | ykcompile/src/lib.rs:497-515 | a new local goes in a free register when it may and one is free, and the register records it; otherwise it gets a new stack slot of its own size and alignment; the placement invariant is kept |
| TraceCompiler.TraceCompilerState.PlaceInStackSlot | ykcompile/src/lib.rs:510-515 | the new slot is the one the stack builder hands out, and it shares no byte with any earlier slot |
| TraceCompiler.PlaceOnStack | ykcompile/src/lib.rs:529-535 | a slot below every slot handed out before overlaps none of them, zero-sized locals included |
| TraceCompiler.PlaceInRegister | ykcompile/src/lib.rs:500-509 | putting a local in a free register keeps the register map and the location map in agreement |
| TraceCompiler.TraceCompilerState.FreeRegister | ykcompile/src/lib.rs:558-572 | a register-held local's register becomes free and the local `NotLive`; freeing a local without a location panics |
| TraceCompiler.LocalToLocationMemoised | ykcompile/src/lib.rs:1544-1570 | asking twice for the same local yields the same location |
| VarRenaming.ShiftPlaceKeeps | yktrace/src/tir.rs:476-485 | renaming a place changes only its local, by the offset, keeping offsets and type; constant and unimplemented places are unchanged; shifting back restores it |
| VarRenaming.ShiftPlaceInjective | yktrace/src/tir.rs:476-485 | distinct places stay distinct after renaming |
| VarRenaming.VarRenamer.constructor | yktrace/src/tir.rs:426-434 | the offset stack starts as `[0]`, with offset 0 and no accumulator |
| VarRenaming.VarRenamer.InitAcc | yktrace/src/tir.rs:445-449 | sets the accumulator only on its first call |
| VarRenaming.VarRenamer.Enter | yktrace/src/tir.rs:451-462 | sets `offset := acc`, pushes it on the offset and return-local stacks, then `acc += n`; entering before the accumulator is set fails and changes nothing |
| VarRenaming.VarRenamer.Leave | yktrace/src/tir.rs:464-474 | pops the stack and restores the offset to the new top; an unbalanced leave panics |
| VarRenaming.VarRenamer.RenameLocal | yktrace/src/tir.rs:572-588 | returns `Local(l + offset)` and records its declaration |
| VarRenaming.VarRenamer.RenameIPlace | yktrace/src/tir.rs:476-485 | returns the place shifted by the offset, recording the declaration of its local |
| VarRenaming.VarRenamer.RenameArgs | yktrace/src/tir.rs:487-491 | succeeds iff every argument names a local of the callee; each argument is renamed by the current offset, and the declaration of each renamed local is recorded in order, up to the first argument that fails |
| VarRenaming.EnterThenLeave | yktrace/src/tir.rs:451-474 | enter followed by leave restores the stack and offset and keeps the grown accumulator |
| TirOps.Position | yktrace/src/tir.rs:321-335 | the index of the first occurrence of a block, and `None` iff it does not occur |
| TirOps.SwitchGuard | yktrace/src/tir.rs:307-350 | the guard is `Integer(values[idx])` for the first target equal to the next traced block, otherwise `OtherInteger(all values)`; no next block, or a target without a value, is an error |
| TirOps.SwitchGuardSound | yktrace/src/tir.rs:307-350 | a value that passes the guard takes the switch to the traced block |
| TirOps.SwitchGuardComplete | yktrace/src/tir.rs:307-350 | with distinct targets, the value that took the traced edge passes its guard |
| TirOps.SharedTargetGuardRejects | yktrace/src/tir.rs:321-335 | when two values share a target, the guard admits only the first value, so the second deoptimises although it follows the traced edge |
| TirOps.OtherGuards | yktrace/src/tir.rs:307-350 | `Assert` yields `Boolean(expected)`, `Unreachable` is an error, other terminators yield no guard |
| StorageDeads.LatestLocal | yktrace/src/tir.rs:366-368 | picks a local whose last use is latest |
| StorageDeads.ListLatest | yktrace/src/tir.rs:366-368 | appending the latest remaining local keeps the listing sorted by descending last use |
| StorageDeads.SortDeaths | yktrace/src/tir.rs:366-368 | lists every local with its last use once, in descending order of last use |
| StorageDeads.DeadsAtSpec | yktrace/src/tir.rs:366-386 | the statements inserted after op `i` are exactly the `StorageDead`s of locals last used at `i` |
| StorageDeads.DeadsAtNone | yktrace/src/tir.rs:366-386 | no `StorageDead` follows an op that is no local's last use |
| StorageDeads.WithDeadsBelow | yktrace/src/tir.rs:368-386 | deaths at or after index n do not affect the trace before n |
| StorageDeads.InsertAtEnd | yktrace/src/tir.rs:368-386 | a death no later than all earlier ones is inserted right after its op |
| StorageDeads.WithDeadsInsert | yktrace/src/tir.rs:368-386 | inserting at `idx + 1`, in descending index order, puts `StorageDead(l)` right after op `idx` of the final trace, so earlier indices stay valid |
| StorageDeads.Erase | yktrace/src/tir.rs:366-386 | erasing `StorageDead`s never lengthens a trace |
| StorageDeads.EraseAppend | yktrace/src/tir.rs:366-386 | erasing distributes over concatenation |
| StorageDeads.EraseDeads | yktrace/src/tir.rs:366-386 | erasing the deaths inserted after an op leaves nothing |
| StorageDeads.EraseKeeps | yktrace/src/tir.rs:366-386 | erasing keeps every op that is not a `StorageDead` |
| StorageDeads.WithDeadsErase | yktrace/src/tir.rs:366-386 | removing the inserted `StorageDead`s gives back the trace as built |
| StorageDeads.InsertStorageDeads | yktrace/src/tir.rs:366-386 | inserting in descending order yields `WithDeads`: each local's `StorageDead` immediately after its last use |
| TirTrace.DefinedInSpec | yktrace/src/tir.rs:61-90 | a local is defined by a trace iff some op in it defines it |
| TirTrace.DefinedInAppend | yktrace/src/tir.rs:61-75 | appending an op adds exactly its definitions to the defined set |
| TirTrace.DefsBeforeUsesAppend | yktrace/src/tir.rs:80-89 | appending an op whose used locals, other than `INTERP_STEP_ARG`, are all defined keeps define-before-use |
| TirTrace.DefSitesAppend | yktrace/src/tir.rs:61-78 | the def-site table records the index of each local's first definition |
| TirTrace.LastUseAppend | yktrace/src/tir.rs:80-89 | the last-use table records the index of each local's latest use |
| TirTrace.AppendStatement | yktrace/src/tir.rs:61-90 | appending a statement keeps the defined set, def sites and last uses exact |
| TirTrace.AppendGuard | yktrace/src/tir.rs:353-358 | a guard op defines and uses nothing |
| TirTrace.NewlyDefined | yktrace/src/tir.rs:64-74 | the newly defined locals are those defined by the op and not defined before |
| TirTrace.DefUse.constructor | yktrace/src/tir.rs:52-59 | `INTERP_STEP_ARG` is defined at index 0, and nothing has been used |
| TirTrace.DefUse.Update | yktrace/src/tir.rs:61-90 | new definitions are stamped with the op index; the first used local other than `INTERP_STEP_ARG` that is undefined is reported (the source panics on it); otherwise uses are stamped |
| TirTrace.RenameCall | yktrace/src/tir.rs:215-224 | the call's destination, callee and arguments are handled in the source's order: a missing destination, a destination local the function lacks, a callee without a symbol, or an argument local the function lacks fails with that error; on success the destination and every argument are shifted by the current offset, and the renamer's offset stack, offset, accumulator and return locals are unchanged |
| TirTrace.StampAll | yktrace/src/tir.rs:64-75 | the loop stamps every listed local with the index |
| TirTrace.RecordUses | yktrace/src/tir.rs:80-89 | the loop reports the first use other than `INTERP_STEP_ARG` that is undefined, and otherwise stamps every use with the index |
| TirTrace.FirstUndefined | yktrace/src/tir.rs:80-89 | `None` iff every use other than `INTERP_STEP_ARG` is defined; otherwise an undefined use, the first in order |
| TirTrace.StampSpec | yktrace/src/tir.rs:76-88 | stamping a list of locals maps each of them to the index |
| TirTrace.StampNewly | yktrace/src/tir.rs:64-75 | stamping the newly defined locals stamps exactly the defs not defined before |
| TirTrace.StampUses | yktrace/src/tir.rs:80-89 | stamping the uses stamps every used local except `INTERP_STEP_ARG` |
| TirTrace.ShiftStatementInjective | yktrace/src/tir.rs:138-161 | renaming keeps distinct statements distinct and keeps their kind |
| TirTrace.RenameStatement | yktrace/src/tir.rs:138-161 | a SIR statement is renamed by the current offset; TIR-only statements and locals outside the function are rejected; the result is `RenameSpec` |
| TirTrace.ShiftStatements | yktrace/src/tir.rs:138-160 | renaming a block renames each statement in place |
| TirTrace.ShiftPlaces | yktrace/src/tir.rs:487-491 | renaming a list of places renames each one and keeps its type |
| TirTrace.OpaqueCallMisdirectsReturn | yktrace/src/tir.rs:216-219 | as written, a return after a `do_not_trace` call stores into the opaque call's destination (see Findings) |
| TirTrace.WithoutOpaque | yktrace/src/tir.rs:216-219 | removing the opaque calls leaves no opaque call |
| TirTrace.ReturnPlacesIgnoreOpaque | yktrace/src/tir.rs:283 | the corrected return places ignore opaque calls, and agree with the source when there are none |
| TirTrace.StoresOf | yktrace/src/tir.rs:255-259 | argument i is stored into callee local `i + 1` at the new offset, keeping its type |
| TirTrace.ArgStores | yktrace/src/tir.rs:255-259 | the argument stores are `StoresOf`; it fails iff `ArgsError` finds an untyped argument, or one whose index `i + 1` lies outside the caller's locals (tir.rs:256 passes the caller's body to `rename_local`, which indexes its `local_decls`), and reports that one |
| TirTrace.EnterCall | yktrace/src/tir.rs:234-260 | inlining a call enters the renamer and emits `Enter` followed by the argument stores; it fails exactly as `ArgsError` says |
| TirTrace.LowerCall | yktrace/src/tir.rs:203-269 | the result is `LowerSpec`, whose cases `LowerSpecCases` states; the renamer enters the callee, at the accumulator, exactly when the call is inlined, and is otherwise unchanged |
| TirTrace.CallOrInline | yktrace/src/tir.rs:221-266 | a callee with SIR that may be traced is inlined, failing exactly as `ArgsError` says; otherwise a native `Call` is emitted, skipping the callee's blocks when it has SIR, and the renamer is unchanged |
| TirTrace.PushStatement | yktrace/src/tir.rs:296-304 | appending a statement fails, naming the first undefined local it uses, exactly when `PushSpec` does; otherwise the def/use state stays exact |
| TirTrace.PushStatements | yktrace/src/tir.rs:169-174 | appending a block's statements gives exactly `PushAllSpec`, and keeps the def/use state exact |
| TirTrace.PushAllSpec | yktrace/src/tir.rs:169-174 | pushing statements in turn can fail only on an undefined local |
| TirTrace.PushAllSpecAppends | yktrace/src/tir.rs:169-174 | statements pushed without error are appended to the operations, in order |
| TirTrace.BlockStmtsSpec | yktrace/src/tir.rs:138-174 | renaming then pushing each statement can fail only on a TIR-only statement, a local outside the function, or an undefined local |
| TirTrace.BlockStmtsSpecAppends | yktrace/src/tir.rs:138-174 | a block's statements are traced only if each can be renamed; then tracing them is pushing their renamings, and what is appended is the renamed block |
| TirTrace.BlockStmtsSpecRenamable | yktrace/src/tir.rs:138-161 | a block's statements are traced only if each is a SIR statement whose places name locals of its function |
| TirTrace.BlockStmtsSpecPushes | yktrace/src/tir.rs:138-174 | when every statement can be renamed, tracing the block is pushing the renamed statements in turn |
| TirTrace.RenameStatements | yktrace/src/tir.rs:138-174 | renaming and pushing each statement in turn gives exactly `BlockStmtsSpec`, keeps the def/use state exact and leaves the renamer's offsets as they were |
| TirTrace.ArgsError | yktrace/src/tir.rs:255-259 | no error means every argument from `i` on is typed and its index plus one is below `n`, the number of the caller's locals (tir.rs:256 looks the callee local up in the caller's body); an error is `NoSuchLocal` or `UntypedPlace` |
| TirTrace.ArgsErrorFree | yktrace/src/tir.rs:255-259 | conversely, when every argument from `i` on is typed and its index plus one is below `n`, there is no error |
| TirTrace.LowerSpec | yktrace/src/tir.rs:203-269 | a call never fails for lack of SIR; on success the callee has a symbol, and a return place is pending exactly when the callee has SIR and may be traced |
| TirTrace.LowerSpecCases | yktrace/src/tir.rs:203-269 | a call without a destination panics; an unknown callee is a `todo!`; a `do_not_trace` or SIR-less callee becomes one `Call` of the renamed places, and the former's blocks are skipped; a traced callee has only typed arguments and becomes `Enter` plus the argument stores, its renamed destination pending; no lowered call holds a `StorageDead` |
| TirTrace.CallSpec | yktrace/src/tir.rs:203-269 | a traced call leaves the operations, the addresses and `interp_step` alone and keeps one pending return place per active call |
| TirTrace.ReturnSpec | yktrace/src/tir.rs:271-291 | a return leaves the operations and the addresses alone and keeps one pending return place per active call |
| TirTrace.Lowered | yktrace/src/tir.rs:201-291 | lowering a terminator leaves the operations and the addresses alone and never fails for lack of SIR |
| TirTrace.TermSpec | yktrace/src/tir.rs:201-358 | tracing a terminator keeps the addresses and one pending return place per active call, and never fails for lack of SIR |
| TirTrace.PushTermSpecGrows | yktrace/src/tir.rs:293-358 | pushing a terminator appends its statements, in order, then its guard, if any |
| TirTrace.TermSpecGrows | yktrace/src/tir.rs:201-358 | a traced terminator only appends operations |
| TirTrace.TermSpecAppends | yktrace/src/tir.rs:201-358 | apart from `interp_step`'s own return, a traced terminator appends the statements it becomes, then its guard, if any |
| TirTrace.BlockSpec | yktrace/src/tir.rs:130-358 | tracing a block keeps the addresses and one pending return place per active call, and never fails for lack of SIR |
| TirTrace.BlockSpecAppends | yktrace/src/tir.rs:130-358 | inside `interp_step`, a block that neither calls `interp_step` nor is its return appends its renamed statements, then its terminator's statements, then its guard, if any |
| TirTrace.BlockSpecGrows | yktrace/src/tir.rs:130-358 | a block only appends operations |
| TirTrace.StepSpec | yktrace/src/tir.rs:93-358 | a step keeps one pending return place per active call |
| TirTrace.EnterLoc | yktrace/src/tir.rs:101-114 | entering a location sets the accumulator and keeps one pending return place per active call |
| TirTrace.LocSpec | yktrace/src/tir.rs:116-358 | a location once entered keeps one pending return place per active call |
| TirTrace.StepSpecRecords | yktrace/src/tir.rs:93-114 | a function without SIR is an error naming it; block 0 without an address is an error; block 0 records the function's address, and other blocks leave the addresses alone |
| TirTrace.StepSpecGrows | yktrace/src/tir.rs:93-358 | a step only appends operations |
| TirTrace.StepSpecSkips | yktrace/src/tir.rs:116-127 | while a `do_not_trace` function is skipped nothing is traced, and only a `Return` block of that function ends the skipping |
| TirTrace.StepSpecEntersInterpStep | yktrace/src/tir.rs:129-200 | outside `interp_step` nothing is traced and only a call to `interp_step` starts tracing; inside, such a call is an error |
| TirTrace.RunSpec | yktrace/src/tir.rs:93-359 | running the recorded locations keeps one pending return place per active call |
| TirTrace.TraceBuilder.constructor | yktrace/src/tir.rs:37-59 | a new builder has no ops, no ignored callee, no pending return and is outside `interp_step` |
| TirTrace.TraceBuilder.PushAll | yktrace/src/tir.rs:296-304 | the result is `PushAllSpec`: the ops become the old ops plus the statements, in order, or the first undefined local is reported |
| TirTrace.TraceBuilder.TraceStatements | yktrace/src/tir.rs:138-174 | renaming and pushing a block's statements gives exactly `BlockStmtsSpec` (through `RenameStatements`), and leaves the renamer and the rest of the state unchanged |
| TirTrace.TraceBuilder.ReturnStatements | yktrace/src/tir.rs:271-291 | returning from `interp_step` leaves it; any other return pops the pending return place, stores local 0 into it and emits `Leave`; no pending return panics; the result and new state are `ReturnSpec` |
| TirTrace.TraceBuilder.TraceTerminator | yktrace/src/tir.rs:201-304 | the new state is `TermSpec`: the terminator's statements pushed, then its guard; a `Call` terminator sets the ignored callee as the call asks; `interp_step`'s own return leaves it and emits nothing |
| TirTrace.TraceBuilder.LowerTerm | yktrace/src/tir.rs:201-291 | the statements and the new state are `Lowered`: a call's as `CallStatements`, a return's as `ReturnStatements`, none otherwise; the ops are untouched, only a call sets a callee to skip, and only `interp_step`'s return leaves it |
| TirTrace.TraceBuilder.PushTerm | yktrace/src/tir.rs:293-358 | the result is `PushTermSpec`: the terminator's statements pushed, then its guard; the ops only grow |
| TirTrace.TraceBuilder.CallStatements | yktrace/src/tir.rs:203-269 | the statements and the new state are `CallSpec`: an inlined callee enters the renamer and pushes its return place, an opaque one sets the callee to skip; the ops are untouched |
| TirTrace.TraceBuilder.RecordCall | yktrace/src/tir.rs:216-231 | a lowered call sets the callee to skip, if any, and pushes its pending return place, if inlined; nothing else changes |
| TirTrace.TraceBuilder.PushGuard | yktrace/src/tir.rs:306-358 | a guard is appended exactly when guard inference yields one, and inference errors are reported |
| TirTrace.TraceBuilder.TraceBlock | yktrace/src/tir.rs:130-358 | the new state is `BlockSpec`; outside `interp_step` nothing is emitted and only entering `interp_step` is noted; calling `interp_step` recursively panics |
| TirTrace.TraceBuilder.Step | yktrace/src/tir.rs:93-358 | the new state is `StepSpec` of the old one; a block without SIR is an error naming its function |
| TirTrace.TraceBuilder.TraceLoc | yktrace/src/tir.rs:116-358 | the new state is `LocSpec` of the old one; it never fails for lack of SIR |
| TirTrace.TraceBuilder.Run | yktrace/src/tir.rs:93-359 | the new state is `RunSpec` of the old one over the recorded locations; an error names the first block without SIR |
| TirTrace.PlaceStorageDeads | yktrace/src/tir.rs:363-386 | the result is the built trace with each local's `StorageDead` after its last use, and erasing them gives back the built trace |
| TirTrace.NewTrace | yktrace/src/tir.rs:37-394 | fails exactly when `RunSpec` from the initial state does, with its error; on success the trace without its `StorageDead`s is `RunSpec`'s operations and its addresses are `RunSpec`'s; it defines every local before use, and its `StorageDead`s sit after the last uses |
| FrameMem.RunMoreFuel | internal_ws/yksg/src/lib.rs:285-310 | a run that ended before its fuel ran out ends the same with more fuel |
| FrameMem.RunSplit | internal_ws/yksg/src/lib.rs:285-310 | running `a + b` steps is running `a` steps, then `b` more from where it stopped |
| FrameMem.ReadBackWritten | internal_ws/yksg/src/lib.rs:48-53 | bytes written at an address read back unchanged |
| FrameMem.WriteLeavesRest | internal_ws/yksg/src/lib.rs:48-53 | a write leaves every byte outside its range unchanged |
| FrameMem.WriteBytesAt | internal_ws/yksg/src/lib.rs:48-53 | a written byte lands at its address, an unknown byte leaves the address undefined, and every other address keeps its old byte |
| FrameMem.WriteLeavesOthers | internal_ws/yksg/src/lib.rs:48-53 | reading a range disjoint from the write sees the old bytes |
| FrameMem.ConstBytesDecode | internal_ws/yksg/src/lib.rs:55-78 | a constant is written as its little-endian bytes (`u8`, `bool`, `usize`) or as nothing (unit) |
| FrameMem.PlacePtr | internal_ws/yksg/src/lib.rs:122-146 | only a `Val` place has an address here |
| FrameMem.Store | internal_ws/yksg/src/lib.rs:81-95 | storing succeeds iff the source has bytes and the destination an address; afterwards the destination reads back as the source bytes |
| FrameMem.MakeRef | internal_ws/yksg/src/lib.rs:426-440 | a reference is 8 bytes written into the destination; their value (the address of the source) is not modelled, so the model makes them unknown bytes, and every other byte is unchanged; it succeeds iff the destination is a memory place (`Val` or `Deref`) and both places resolve, and is a panic otherwise |
| FrameMem.ReturnInto | internal_ws/yksg/src/lib.rs:330-355 | the callee's return local is copied into the caller's destination, and every other caller byte is unchanged |
| FrameMem.WritePointer | internal_ws/ykbh/src/lib.rs:235-242 | the pointer is written as 8 little-endian bytes into the local, which then reads back as the pointer |
| FrameMem.ArgsWritten | internal_ws/yksg/src/lib.rs:98-113 | writing the arguments keeps the callee's layout |
| FrameMem.ArgsFailurePersists | internal_ws/yksg/src/lib.rs:98-113 | once copying an argument fails, the whole copy fails the same way |
| FrameMem.CopyArgs | internal_ws/yksg/src/lib.rs:98-113 | the loop writes argument i into local i + 1, as `ArgsWritten` says |
| FrameMem.ArgsWrittenDefined | internal_ws/yksg/src/lib.rs:98-113 | copying succeeds iff the callee has a local for every argument and every argument has bytes |
| FrameMem.ArgsLand | internal_ws/ykbh/src/lib.rs:88-103 | after copying, callee local i + 1 holds argument i, when the argument slots do not overlap |
| FrameMem.ReadStoredInt | internal_ws/ykbh/src/lib.rs:334-349 | reading a `u8` or `bool` place yields its single stored byte, zero-extended |
| FrameMem.ReadStoredByte | internal_ws/ykbh/src/lib.rs:334-349 | whenever that byte is stored, the read yields it |
| FrameMem.StoreThenReadInt | internal_ws/yksg/src/lib.rs:390-419 | storing a `u8`/`bool` constant and reading it back yields the constant |
| Stopgap.ReadInt | internal_ws/yksg/src/lib.rs:390-419 | an integer read, from a constant or from memory, is a `u8`/`bool` value below 256 |
| Stopgap.U8Op | internal_ws/yksg/src/lib.rs:150-183 | `Add` is the wrapping sum with an overflow flag (sum = result + 256·flag); `Lt` is 1 iff `a < b`, and never overflows |
| Stopgap.BinopU8 | internal_ws/yksg/src/lib.rs:150-183 | the result byte is stored at the destination; an unchecked add that overflows fails; when checked, the overflow flag is written at tuple field 1's offset |
| Stopgap.Binop | internal_ws/yksg/src/lib.rs:443-470 | only `u8` operands are supported, and they go to `binop_u8` |
| Stopgap.StatementStep | internal_ws/yksg/src/lib.rs:285-310 | a statement keeps the frame's layout |
| Stopgap.StatementsStep | internal_ws/yksg/src/lib.rs:285-310 | a block's statements keep the frame's layout |
| Stopgap.MoveTo | internal_ws/yksg/src/lib.rs:356-385 | moving to a block changes only the current frame's block index |
| Stopgap.BuildFrames | internal_ws/yksg/src/lib.rs:219-244 | one frame per `FrameInfo`, in order; a block index that does not fit in 32 bits panics |
| Stopgap.StopgapInterpreter.constructor | internal_ws/yksg/src/lib.rs:210-217 | the interpreter holds the given SIR and frames |
| Stopgap.StopgapInterpreter.SetInterpCtx | internal_ws/yksg/src/lib.rs:277-283 | the context pointer is written into local 1 of the first frame |
| Stopgap.StopgapInterpreter.EnterCallee | internal_ws/yksg/src/lib.rs:314-329 | a call's new frames are `TerminatorStep` of the old ones |
| Stopgap.StopgapInterpreter.ReturnToCaller | internal_ws/yksg/src/lib.rs:330-355 | a return's new frames are `TerminatorStep` of the old ones |
| Stopgap.StopgapInterpreter.Switch | internal_ws/yksg/src/lib.rs:356-371 | a switch's new frames are `TerminatorStep` of the old ones |
| Stopgap.StopgapInterpreter.Terminator | internal_ws/yksg/src/lib.rs:312-388 | any terminator's new frames are `TerminatorStep` of the old ones |
| Stopgap.StopgapInterpreter.Block | internal_ws/yksg/src/lib.rs:285-310 | a block's statements then its terminator, as `BlockStep` says |
| Stopgap.StopgapInterpreter.Interpret | internal_ws/yksg/src/lib.rs:285-310 | the loop's outcome is `Run` of the old frames, and a finished run leaves no frames |
| Stopgap.FromFrames | internal_ws/yksg/src/lib.rs:219-244 | the frames are built in `FrameInfo` order and the terminator of the block where the guard failed runs at once, as `Resume` says |
| Stopgap.SwitchPicksFirstMatch | internal_ws/yksg/src/lib.rs:356-371 | `SwitchInt` moves to `target_bbs[i]` for the first `i` with `values[i] == discr`, else to `otherwise_bb` |
| Stopgap.GotoAndAssert | internal_ws/yksg/src/lib.rs:372-385 | `Goto(bb)` sets the block; `Assert` moves to its target when the condition equals `expected`, and otherwise stops as unsupported |
| Stopgap.CallPushesCallee | internal_ws/yksg/src/lib.rs:248-264 | a call pushes a frame at block 0 with the callee's layout, leaving the caller frames unchanged; an unknown callee is unsupported |
| Stopgap.CalleeHoldsArguments | internal_ws/yksg/src/lib.rs:314-329 | the callee's locals 1..n hold the arguments |
| Stopgap.ReturnHandsBack | internal_ws/yksg/src/lib.rs:330-355 | popping the last frame ends the run; otherwise the return local is copied into the call's destination and the caller resumes at the return block |
| Stopgap.GuardFailureResumesRun | tests/src/stopgap/guard_fail.rs:5-127 | resuming after a guard failure gives exactly the run the untraced program would have had from that block on |
| Stopgap.SwitchFollowsGuard | internal_ws/yksg/src/lib.rs:356-371 | the interpreter takes the traced edge of a switch iff the value passes the guard the trace put there |
| Stopgap.AssertFollowsGuard | internal_ws/yksg/src/lib.rs:372-385 | the interpreter passes an `Assert` iff the value passes the trace's boolean guard |
| Blackhole.MoveTo | internal_ws/ykbh/src/lib.rs:311-329 | moving to a block changes only the current frame's block index |
| Blackhole.StatementStep | internal_ws/ykbh/src/lib.rs:244-264 | a statement keeps the frame's layout |
| Blackhole.StatementsStep | internal_ws/ykbh/src/lib.rs:244-264 | a block's statements keep the frame's layout |
| Blackhole.TraceInputsSet | internal_ws/ykbh/src/lib.rs:235-242 | the trace-inputs pointer goes into local 1 of the first frame, and nothing else changes |
| Blackhole.InitFrames | internal_ws/ykbh/src/lib.rs:175-192 | one frame per `FrameInfo`, in order, with its block index and memory; a function without SIR, or a block index that does not fit in 32 bits, fails |
| Blackhole.SIRInterpreter.constructor | internal_ws/ykbh/src/lib.rs:166-173 | the interpreter holds the given SIR and frames |
| Blackhole.SIRInterpreter.SetTraceInputs | internal_ws/ykbh/src/lib.rs:235-242 | the frames become `TraceInputsSet` of the old ones |
| Blackhole.SIRInterpreter.EnterCallee | internal_ws/ykbh/src/lib.rs:268-283 | a call's new frames are `TerminatorStep` of the old ones |
| Blackhole.SIRInterpreter.ReturnToCaller | internal_ws/ykbh/src/lib.rs:284-310 | a return's new frames are `TerminatorStep` of the old ones |
| Blackhole.SIRInterpreter.Switch | internal_ws/ykbh/src/lib.rs:311-326 | a switch's new frames are `TerminatorStep` of the old ones |
| Blackhole.SIRInterpreter.Terminator | internal_ws/ykbh/src/lib.rs:266-332 | any terminator's new frames are `TerminatorStep` of the old ones |
| Blackhole.SIRInterpreter.Block | internal_ws/ykbh/src/lib.rs:244-264 | a block's statements then its terminator, as `BlockStep` says |
| Blackhole.SIRInterpreter.InterpretLoop | internal_ws/ykbh/src/lib.rs:244-264 | the loop's outcome is `Run` of the old frames, and an empty stack ends it |
| Blackhole.SIRInterpreter.Interpret | internal_ws/ykbh/src/lib.rs:197-207 | set the trace inputs, run the current block's terminator, then loop, as `Interpretation` says |
| Blackhole.SwitchPicksFirstMatch | internal_ws/ykbh/src/lib.rs:311-326 | `SwitchInt` moves to the first matching value's target, else to `otherwise_bb` |
| Blackhole.CallPushesCallee | internal_ws/ykbh/src/lib.rs:268-283 | a call pushes a frame at block 0 of the callee with argument i copied to local i + 1 |
| Blackhole.ReturnHandsBack | internal_ws/ykbh/src/lib.rs:284-310 | a return pops the frame, copies local 0 into the caller's destination and resumes at the return block; the last frame ends the loop |
| Blackhole.UnsupportedOperations | internal_ws/ykbh/src/lib.rs:253 | `BinaryOp` statements, and terminators other than `Call`, `Return`, `SwitchInt` and `Goto`, are unsupported |
| Blackhole.TraceInputsInFirstFrame | internal_ws/ykbh/src/lib.rs:197-207 | after setup, local 1 of the first frame decodes to the trace-inputs pointer, and its block index and function are unchanged |

## Left out

- TirOps.PlaceTy: `IPlace::ty` is defined in a file that is not part of this model, so what it does for an unimplemented place is not modelled. Here such a place has no type (`None`): an argument store from it fails with `UntypedPlace` in `TirTrace.ArgStores`, and the stopgap interpreter's `Binop` on it panics.
- Threads and locking: `Mutex`, `Arc`, atomics, spin-waiting and the per-thread `thread_local!` storage are absent; each operation runs alone on the objects it is given. A tracing thread that has died is the input `orphaned` of `HotStep` and `MT.TransitionControlPoint`.
- Compile workers: the queue of compile jobs and the worker threads are absent; `MT.RootCompileOutcome` takes the outcome of a root compile as its input.
- Logging, statistics, `println!` and environment variables: only the `YK_HOT_THRESHOLD` override is kept, as the constructor's input.
- `ykrt/src/location.rs` is not part of this model. `Location` keeps a count and an optional hot location, and `inc_count` is modelled as a counter bounded by `u32::MAX`.
- Machine-code emission (`dynasmrt`), guard snapshots and trace execution are absent; deoptimisation only unwinds the thread-state stack.
- Floating-point registers: `assign_fp_regs` and its helpers are absent. The floating-point register file of `LSRegAlloc` exists only so that expiry and `VarLocationOf` can see it, and a float operand in `assign_gp_regs` is reported as the source's panic.
- Liveness analysis: `RevAnalyse` (next uses, last uses, register hints) is a parameter of `LSRegAlloc`, not computed.
- Integer widths in `lsregalloc.rs`: frame offsets are unbounded integers, so the `i32` conversions and their panics are not modelled.
- HashMap iteration order and sort ties: where the source iterates a hash map or sorts with ties (the last-use table in `tir.rs`), the model proves the property for every order it may pick.
- RegAlloc.LSRegAlloc.ApplyChoice: the swap/move loop of `assign_gp_regs` runs until nothing changes; the model bounds it by a `fuel` parameter and reports `OutOfFuel` when it runs out.
- RegAlloc.LSRegAlloc.AssignGpRegs: inherits `ApplyChoice`'s fuel bound; with too little fuel it can fail where the source would loop on.
- RegAlloc.LSRegAlloc.AlignExtensions: requires a constant held in the register to be an integer or a pointer. `load_const_into_gp_reg` never puts a float constant in a general purpose register, and the model keeps no bit width for float constants.
- RegAlloc.LSRegAlloc.PutInputInGpReg: when the extension of a freshly loaded value is a `todo!`, the source panics with the load already done; the model reports `UnhandledSize` and leaves the register as it was before the load.
- PtDecoder.YkPTBlockIterator.FollowConditionalSuccessor: `read` is the decisions the buffer holds after each `SeekTnt` refill; `SeekTnt` promises only that the buffer ends with the stopping packet's decisions, not that it holds exactly those.
- Stopgap.StopgapInterpreter.Interpret: the interpreter loop runs for at most `fuel` blocks and then returns `OutOfFuel` with the frames reached; the unbounded loop of the source is not modelled.
- Blackhole.SIRInterpreter.InterpretLoop: runs for at most `fuel` blocks and then returns `OutOfFuel` with the frames reached; the unbounded loop of the source is not modelled.
- Blackhole.SIRInterpreter.Interpret: passes its `fuel` to `InterpretLoop`, so it too stops with `OutOfFuel` after that many blocks instead of running without bound.
- Raw memory: a frame's locals are a map from byte offsets to bytes instead of an `alloc`ed block with a `Layout`; pointers to them are not modelled. Following a `Deref` place or reading an uninitialised byte is the error `NotModelled`, and the eight bytes of a reference made by `MkRef` become unknown bytes (the address itself is not modelled).
- FrameMem.MakeRef: the eight bytes it stores for a reference are unknown bytes, not the address of the referenced local, because addresses are not modelled; a later read of them is the error `NotModelled`.
- Interpreter statements: `DynOffs`, `Cast` and `StorageLive` are not in the statement type; `Enter` and `Leave` stop the interpreters with a panic, as neither interpreter expects them in SIR.
- Interpreter constants: a constant's width is taken from its type; integers are written in little-endian byte order (`to_ne_bytes` on x86-64); `copy_args`' `u32::try_from` is covered by the bound on local offsets.
- `LocalMem` is a value carried in each frame rather than an object shared through pointers.
- Intel PT: instruction disassembly (`iced_x86`), the code-segment cache, the block map and the packet parser are absent. Packets arrive already decoded, and whether an address is in the main object is a parameter.
- PtDecoder.YkPTBlockIterator.IsReturnCompressed: the disassembly that recognises a return is absent, so the model never reports a compressed return; only the panic on pending TNT decisions is kept.
- PtDecoder.YkPTBlockIterator.SkipInterruption: that each stop is the first qualifying packet after the previous one, and that a failure other than `TraceInterrupted` means the stream ran out, are promised only when every packet consumed is plain; an OVF, PSB or FUP met inside a seek is handled by a nested `packet` call whose consumption is placed but not described packet by packet.
- PtDecoder.YkPTBlockIterator.ResyncInterruption: inherits the plain-packets condition of `SkipInterruption` for the interruption it skips.
- PtDecoder.ZeroLengthCallNotPushed: the rules for 32-bit mode and other internal errors around calls are not modelled.
- TraceCompiler.TraceCompilerState.LiveLocationsDistinct: promises distinct addresses only for two stack slots whose locals are not zero-sized. A zero-sized local's slot may sit at the same address as the slot handed out before it, as the stack builder places it, so for such a slot only the absence of shared bytes is promised.
- `ykcompile`'s `iplace_to_location` and code generation are absent; only the local-to-location map, the register pool and the stack allocator's assumed effect are modelled (the stack builder itself is not part of this model, so `StackAfterAlloc` states what an allocation is taken to do).
- TIR statements of `ykpack`: the defs and uses of the TIR statement kinds that `tir.rs` relies on are a parameter `LocalsOf` of `TirTrace`, as their definitions are not part of this model.
- MetaTracer.HotLocation.Abandon: the `todo!()` paths for a location in no traced kind are reported as `ok == false` and leave the location unchanged.
- RegAlloc.LSRegAlloc.CopyInputsIntoPlace: states only that the allocator stays well formed and that no spill changes; what each round achieves is stated by `PutInputs`.
- RegAlloc.LSRegAlloc.ShuffleConstraintRegs: states only that the allocator stays well formed and that no spill changes; what each round achieves is stated by `ApplyChoice`.
- MetaTracer.MT.TransitionControlPoint: implements the corrected inner-loop rule of the second Findings row (`InnerLoopVerdictChecked`), so an inner loop reached from another frame aborts with `OutOfFrame` where the source returns `StopTracing`; `InnerLoopVerdictAsWritten` models the source as written.
- MetaTracer.MT.ControlPoint: inherits the corrected inner-loop rule of the second Findings row through `TransitionControlPoint`.
- RegAlloc.ConsiderForSpill: implements the corrected spill rule of the first Findings row (`Furthest`, comparing next uses), not the comparison with the incumbent's defining index that `FurthestAsWritten` models.
- RegAlloc.SpillChoiceSpec: specifies the corrected spill rule of the first Findings row.
- RegAlloc.LSRegAlloc.ChooseSpillReg: implements the corrected spill rule of the first Findings row.
- RegAlloc.LSRegAlloc.AssignRemainingRegs: inherits the corrected spill rule of the first Findings row through `ChooseSpillReg`.
- RegAlloc.LSRegAlloc.ChooseRegs: inherits the corrected spill rule of the first Findings row through `AssignRemainingRegs`.
- RegAlloc.LSRegAlloc.AssignGpRegs: inherits the corrected spill rule of the first Findings row through `ChooseRegs`.
- TirTrace.TraceBuilder.CallStatements: implements the corrected rule of the third Findings row: a return place is pushed only for an inlined callee, where the source pushes one for every call. `TirTrace.CallSpec`, `TirTrace.StepSpec`, `TirTrace.RunSpec` and `TirTrace.NewTrace` describe this corrected pairing; `TirTrace.OpaqueCallMisdirectsReturn` models the source as written.
- TirTrace.LowerSpec: specifies the corrected return-place rule of the third Findings row: a return place is pending only for an inlined callee, where tir.rs:218 pushes one for every call.
- TirTrace.LowerSpecCases: states the cases of `LowerSpec`, so a `do_not_trace` or SIR-less call has no pending return place, under the corrected rule of the third Findings row.
- TirTrace.LowerCall: inherits the corrected return-place rule of the third Findings row through `LowerSpec`.
- TirTrace.CallSpec: specifies the corrected return-place rule of the third Findings row for the renamer's return places.
- TirTrace.ReturnSpec: pops the return places kept under the corrected rule of the third Findings row, so a return stores into the destination of the innermost inlined call, also after an opaque call.
- TirTrace.Lowered: inherits the corrected return-place rule of the third Findings row through `CallSpec`.
- TirTrace.TermSpec: inherits the corrected return-place rule of the third Findings row through `Lowered`.
- TirTrace.BlockSpec: inherits the corrected return-place rule of the third Findings row through `TermSpec`.
- TirTrace.LocSpec: inherits the corrected return-place rule of the third Findings row through `BlockSpec`.
- TirTrace.EnterLoc: inherits the corrected return-place rule of the third Findings row through `LocSpec`.
- TirTrace.StepSpec: inherits the corrected return-place rule of the third Findings row through `LocSpec`.
- TirTrace.RunSpec: inherits the corrected return-place rule of the third Findings row through `StepSpec`.
- TirTrace.TraceBuilder.RecordCall: implements the corrected return-place rule of the third Findings row: it pushes a return place only when the lowered call has one pending.
- TirTrace.TraceBuilder.ReturnStatements: inherits the corrected return-place rule of the third Findings row through the return places `RecordCall` keeps.
- TirTrace.TraceBuilder.LowerTerm: inherits the corrected return-place rule of the third Findings row through `CallStatements`.
- TirTrace.TraceBuilder.TraceTerminator: inherits the corrected return-place rule of the third Findings row through `LowerTerm`.
- TirTrace.TraceBuilder.TraceBlock: inherits the corrected return-place rule of the third Findings row through `TraceTerminator`.
- TirTrace.TraceBuilder.TraceLoc: inherits the corrected return-place rule of the third Findings row through `TraceBlock`.
- TirTrace.TraceBuilder.Step: inherits the corrected return-place rule of the third Findings row through `TraceLoc`.
- TirTrace.TraceBuilder.Run: inherits the corrected return-place rule of the third Findings row through `Step`.
- TirTrace.NewTrace: the trace's table of local declarations is built by the renamer but is not related to `RunSpec`; only the operations and the function addresses are.
- VarRenaming.VarRenamer.Enter: the accumulator and the offsets are unbounded naturals; the source's `u32` arithmetic, its conversions from `usize` and their overflow panics are not modelled.
- VarRenaming.VarRenamer.RenameLocal: the renamed local `l + offset` is an unbounded natural; the source's `u32` addition, which can overflow, is not modelled.

## Findings

| source | as written | input that shows it | evidently intended | confidence | as-written member | corrected member |
|---|---|---|---|---|---|---|
| ykrt/src/compile/jitc_yk/codegen/x64/lsregalloc.rs:540-563 | when choosing which already-spilled register to reuse, a candidate's next use is compared with the incumbent's defining instruction index, not with the incumbent's next use | candidates `Candidate(0, 1)` and `Candidate(1, 2)`, where instruction 1 is next used at 100 and instruction 2 at 10: as written, `Candidate(1, 2)` is picked, whose value is needed sooner | spill the candidate whose value is next used furthest away | not executed; medium | RegAlloc.FurthestAsWrittenSpillsNearer | RegAlloc.FurthestIsFurthest |
| ykrt/src/mt.rs:617-641 | reaching an inner loop while tracing sets `akind = OutOfFrame` when the frame differs, but if the inner loop's location is `Counting` the code still returns `StopTracing`; `control_point` then fails `assert_eq!(frameaddr, tracing_frameaddr)` at mt.rs:517 | an inner-loop location seen at control-point index 0, in `Counting`, reached from another frame | abort tracing with `OutOfFrame` whenever the frame differs | not executed; high | MetaTracer.InnerLoopAsWrittenIgnoresFrame | MetaTracer.InnerLoopVerdictChecked |
| yktrace/src/tir.rs:216-219 | `return_iplaces.push` runs for every call, including `do_not_trace` and native calls, which never reach a matching `Return` in the trace; a later `Return` at tir.rs:283 then pops the opaque call's destination | an inlined call into `a`, then an opaque call into `b`, then the inlined callee's `Return`: the value is stored into `b`, not `a` | push a return place only for callees that are inlined | not executed; medium | TirTrace.OpaqueCallMisdirectsReturn | TirTrace.ReturnPlacesIgnoreOpaque |
