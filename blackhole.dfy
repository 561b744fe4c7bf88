/**
 * The blackholing interpreter (`SIRInterpreter`, internal_ws/ykbh/src/lib.rs).
 *
 * The earlier of the two deoptimisation interpreters: it rebuilds the
 * frames a failing guard hands over, writes the trace-inputs pointer into
 * the outermost frame, finishes the block the guard failed in by running
 * its terminator and then interprets SIR until the outermost frame
 * returns. Unlike the stopgap interpreter, a frame names its function by
 * symbol and looks its body up in SIR at every block, `read_int` reads
 * only places in memory, and binary operations and `Assert` terminators
 * are `todo!`.
 */
module Blackhole {
  import opened Wrappers
  import opened Bytes
  import opened TirOps
  import opened FrameMem

  /** What a failing guard hands over for one frame: its function's symbol, its block, its memory. */
  datatype FrameInfo = FrameInfo(sym: string, bbidx: nat, mem: Memory)

  /** An interpreter frame: its memory, the block it is in and its function's symbol. */
  datatype StackFrame = StackFrame(mem: LocalMem, bbidx: nat, func: string)

  /** The current frame: the most recent one. */
  function Current(frames: seq<StackFrame>): StackFrame
    requires |frames| > 0
  {
    frames[|frames| - 1]
  }

  /** The current frame with its block index replaced. */
  function MoveTo(frames: seq<StackFrame>, bb: nat): (r: seq<StackFrame>)
    requires |frames| > 0
    ensures |r| == |frames| && r[..|r| - 1] == frames[..|frames| - 1]
    ensures r[|r| - 1] == frames[|frames| - 1].(bbidx := bb)
  {
    frames[|frames| - 1 := frames[|frames| - 1].(bbidx := bb)]
  }

  /** The body of a frame's function; a symbol without SIR panics (`unwrap`). */
  function BodyOf(sir: Sir, sym: string): Outcome<SirBody> {
    if sym in sir.bodies then Done(sir.bodies[sym]) else Failed(Panic)
  }

  /**
   * One statement of the current frame. Binary operations, `Debug` and
   * unimplemented statements are `todo!`; `Nop` and `StorageDead` do
   * nothing; a `Call` statement is `unreachable!`, and the TIR-only
   * `Enter` and `Leave` do not occur in SIR.
   */
  function StatementStep(types: map<TypeId, Ty>, mem: LocalMem, st: Statement): (r: Outcome<LocalMem>)
    ensures r.Done? ==> r.value.offsets == mem.offsets
  {
    match st
    case MkRef(dest, src) => MakeRef(mem, dest, src)
    case IStore(dest, src) => Store(mem, dest, src, types)
    case BinaryOp(_, _, _, _, _) => Failed(Unsupported)
    case Nop => Done(mem)
    case StorageDead(_) => Done(mem)
    case Debug(_) => Failed(Unsupported)
    case UnimplementedStmt(_) => Failed(Unsupported)
    case _ => Failed(Panic)
  }

  /** The statements run in order, stopping at the first that fails. */
  function StatementsStep(types: map<TypeId, Ty>, mem: LocalMem, stmts: seq<Statement>): (r: Outcome<LocalMem>)
    ensures r.Done? ==> r.value.offsets == mem.offsets
    decreases |stmts|
  {
    if |stmts| == 0 then Done(mem)
    else
      match StatementStep(types, mem, stmts[0])
      case Failed(f) => Failed(f)
      case Done(m) => StatementsStep(types, m, stmts[1..])
  }

  /**
   * `Return`: the current frame is popped; if a caller remains, its block
   * must end in a call with a destination, which receives the callee's
   * return value, and the caller continues at the call's return block.
   */
  function ReturnStep(sir: Sir, frames: seq<StackFrame>): Outcome<seq<StackFrame>>
    requires |frames| > 0
  {
    var n := |frames|;
    var callee := frames[n - 1];
    if n == 1 then Done([])
    else
      var caller := frames[n - 2];
      match BodyOf(sir, caller.func)
      case Failed(f) => Failed(f)
      case Done(body) =>
        if caller.bbidx >= |body.blocks| then Failed(Panic)
        else
          match body.blocks[caller.bbidx].term
          case CallTerm(_, _, Some((dest, ret))) =>
            (match ReturnInto(caller.mem, callee.mem, dest, sir.types)
             case Failed(f) => Failed(f)
             case Done(m) => Done(frames[..n - 2] + [caller.(mem := m, bbidx := ret)]))
          case _ => Failed(Panic)
  }

  /**
   * `terminator`: `Call` pushes a frame for the callee at block 0 holding
   * the arguments; `Return` is `ReturnStep`; `SwitchInt` goes to the
   * target of the first value equal to the discriminant, else to
   * `otherwise`; `Goto` jumps; every other terminator is `todo!`.
   */
  function TerminatorStep(sir: Sir, frames: seq<StackFrame>, term: Terminator): Outcome<seq<StackFrame>>
    requires |frames| > 0
  {
    var top := frames[|frames| - 1];
    match term
    case CallTerm(op, args, _) =>
      if !op.Fn? then Failed(Unsupported)
      else
        (match BodyOf(sir, op.symbol)
         case Failed(f) => Failed(f)
         case Done(body) =>
           (match ArgsWritten(LocalMem(body.offsets, map[]), args, top.mem, sir.types)
            case Failed(f) => Failed(f)
            case Done(m) => Done(frames + [StackFrame(m, 0, op.symbol)])))
    case Return => ReturnStep(sir, frames)
    case SwitchInt(discr, values, targetBbs, otherwiseBb) =>
      (match ReadStoredInt(top.mem, discr, sir.types)
       case Failed(f) => Failed(f)
       case Done(v) =>
         (match Position(values, v)
          case None => Done(MoveTo(frames, otherwiseBb))
          case Some(i) => if i < |targetBbs| then Done(MoveTo(frames, targetBbs[i])) else Failed(Panic)))
    case Goto(bb) => Done(MoveTo(frames, bb))
    case _ => Failed(Unsupported)
  }

  /** One iteration of `_interpret`'s loop: the current block's statements, then its terminator. */
  function BlockStep(sir: Sir, frames: seq<StackFrame>): Outcome<seq<StackFrame>>
    requires |frames| > 0
  {
    var n := |frames|;
    var top := frames[n - 1];
    match BodyOf(sir, top.func)
    case Failed(f) => Failed(f)
    case Done(body) =>
      if top.bbidx >= |body.blocks| then Failed(Panic)
      else
        var block := body.blocks[top.bbidx];
        match StatementsStep(sir.types, top.mem, block.stmts)
        case Failed(f) => Failed(f)
        case Done(m) => TerminatorStep(sir, frames[n - 1 := top.(mem := m)], block.term)
  }

  /** One step of `_interpret`'s loop; there is none without a frame. */
  function Step(sir: Sir): seq<StackFrame> -> Outcome<seq<StackFrame>> {
    (frames: seq<StackFrame>) => if |frames| == 0 then Failed(Panic) else BlockStep(sir, frames)
  }

  /** `_interpret`: blocks run until no frame is left, a fault, or `fuel` blocks have run. */
  function Run(sir: Sir, frames: seq<StackFrame>, fuel: nat): RunOutcome<StackFrame> {
    RunSteps(Step(sir), frames, fuel)
  }

  /**
   * `set_trace_inputs`: the trace-inputs pointer written into local 1 of
   * the first frame; no frame, or no local 1, panics.
   */
  function TraceInputsSet(frames: seq<StackFrame>, tio: nat): (r: Outcome<seq<StackFrame>>)
    requires tio < USIZE_LIMIT
    ensures r.Done? <==> |frames| > 0 && 1 < |frames[0].mem.offsets|
    ensures r.Done? ==> |r.value| == |frames| && r.value[1..] == frames[1..]
                        && r.value[0] == frames[0].(mem := WritePointer(frames[0].mem, 1, tio).value)
  {
    if |frames| == 0 then Failed(Panic)
    else
      match WritePointer(frames[0].mem, 1, tio)
      case Failed(f) => Failed(f)
      case Done(m) => Done(frames[0 := frames[0].(mem := m)])
  }

  /**
   * What `interpret` does before its main loop: the trace inputs set, then
   * the terminator of the block the guard failed in run (its statements
   * ran in the trace).
   */
  function Start(sir: Sir, frames: seq<StackFrame>, tio: nat): Outcome<seq<StackFrame>>
    requires tio < USIZE_LIMIT
  {
    match TraceInputsSet(frames, tio)
    case Failed(f) => Failed(f)
    case Done(fs) =>
      var top := fs[|fs| - 1];
      match BodyOf(sir, top.func)
      case Failed(f) => Failed(f)
      case Done(body) =>
        if top.bbidx >= |body.blocks| then Failed(Panic)
        else TerminatorStep(sir, fs, body.blocks[top.bbidx].term)
  }

  /** `interpret`: `Start`, then the main loop for at most `fuel` blocks. */
  function Interpretation(sir: Sir, frames: seq<StackFrame>, tio: nat, fuel: nat): RunOutcome<StackFrame>
    requires tio < USIZE_LIMIT
  {
    match Start(sir, frames, tio)
    case Failed(f) => Faulted(f)
    case Done(fs) => Run(sir, fs, fuel)
  }

  /** The frame `init_frames` builds from one `FrameInfo` whose function has a body. */
  function FrameOf(sir: Sir, fi: FrameInfo): StackFrame
    requires fi.sym in sir.bodies
  {
    StackFrame(LocalMem(sir.bodies[fi.sym].offsets, fi.mem), fi.bbidx, fi.sym)
  }

  class SIRInterpreter {
    /** The program's SIR (the global `SIR`). */
    const sir: Sir
    /** The active frames, most recent last. */
    var frames: seq<StackFrame>

    constructor(sir: Sir, frames: seq<StackFrame>)
      ensures this.sir == sir && this.frames == frames
    {
      this.sir := sir;
      this.frames := frames;
    }

    /** `set_trace_inputs`. */
    method SetTraceInputs(tio: nat) returns (f: Option<Fault>)
      requires tio < USIZE_LIMIT
      modifies this
      ensures Settled(f, frames) == TraceInputsSet(old(frames), tio)
    {
      if |frames| == 0 {
        return Some(Panic);
      }
      var m := WritePointer(frames[0].mem, 1, tio);
      if m.Failed? {
        return Some(m.fault);
      }
      frames := frames[0 := frames[0].(mem := m.value)];
      f := None;
    }

    /** `Call`: a frame for the callee pushed, holding the arguments. */
    method EnterCallee(op: CallOperand, args: seq<IPlace>, dest: Option<(IPlace, nat)>) returns (f: Option<Fault>)
      requires |frames| > 0
      modifies this
      ensures Settled(f, frames) == TerminatorStep(sir, old(frames), CallTerm(op, args, dest))
    {
      if !op.Fn? {
        return Some(Unsupported);
      }
      var body := BodyOf(sir, op.symbol);
      if body.Failed? {
        return Some(body.fault);
      }
      var mem := CopyArgs(LocalMem(body.value.offsets, map[]), args, frames[|frames| - 1].mem, sir.types);
      if mem.Failed? {
        return Some(mem.fault);
      }
      frames := frames + [StackFrame(mem.value, 0, op.symbol)];
      f := None;
    }

    /** `Return`: the frame popped and its return value handed to the caller. */
    method ReturnToCaller() returns (f: Option<Fault>)
      requires |frames| > 0
      modifies this
      ensures Settled(f, frames) == TerminatorStep(sir, old(frames), Return)
    {
      var n := |frames|;
      var callee := frames[n - 1];
      frames := frames[..n - 1];
      if n == 1 {
        return None;
      }
      var caller := frames[n - 2];
      var body := BodyOf(sir, caller.func);
      if body.Failed? {
        return Some(body.fault);
      }
      if caller.bbidx >= |body.value.blocks| {
        return Some(Panic);
      }
      match body.value.blocks[caller.bbidx].term {
        case CallTerm(_, _, d) =>
          if d.None? {
            return Some(Panic);
          }
          var (dest, ret) := d.value;
          var m := ReturnInto(caller.mem, callee.mem, dest, sir.types);
          if m.Failed? {
            return Some(m.fault);
          }
          frames := frames[n - 2 := caller.(mem := m.value, bbidx := ret)];
          assert frames == old(frames)[..n - 2] + [caller.(mem := m.value, bbidx := ret)];
          f := None;
        case _ =>
          f := Some(Panic);
      }
    }

    /** `SwitchInt`: the values scanned for the discriminant, in order. */
    method Switch(discr: IPlace, values: seq<nat>, targetBbs: seq<nat>, otherwiseBb: nat) returns (f: Option<Fault>)
      requires |frames| > 0
      modifies this
      ensures Settled(f, frames) == TerminatorStep(sir, old(frames), SwitchInt(discr, values, targetBbs, otherwiseBb))
    {
      var v := ReadStoredInt(frames[|frames| - 1].mem, discr, sir.types);
      if v.Failed? {
        return Some(v.fault);
      }
      var bb := otherwiseBb;
      var i := 0;
      while i < |values| && values[i] != v.value
        invariant i <= |values| && v.value !in values[..i]
      {
        i := i + 1;
      }
      if i < |values| {
        var p := Position(values, v.value);
        assert values[..p.value + 1][p.value] == v.value;
        assert values[..i + 1][i] == v.value;
        assert p == Some(i);
        if i >= |targetBbs| {
          return Some(Panic);
        }
        bb := targetBbs[i];
      } else {
        assert values[..i] == values;
      }
      frames := MoveTo(frames, bb);
      f := None;
    }

    /** `terminator`: dispatch on the kind of terminator. */
    method Terminator(term: Terminator) returns (f: Option<Fault>)
      requires |frames| > 0
      modifies this
      ensures Settled(f, frames) == TerminatorStep(sir, old(frames), term)
    {
      match term {
        case CallTerm(op, args, dest) =>
          f := EnterCallee(op, args, dest);
        case Return =>
          f := ReturnToCaller();
        case SwitchInt(discr, values, targetBbs, otherwiseBb) =>
          f := Switch(discr, values, targetBbs, otherwiseBb);
        case Goto(bb) =>
          frames := MoveTo(frames, bb);
          f := None;
        case _ =>
          f := Some(Unsupported);
      }
    }

    /** One iteration of `_interpret`'s loop: the statements of the current block, then its terminator. */
    method Block() returns (f: Option<Fault>)
      requires |frames| > 0
      modifies this
      ensures Settled(f, frames) == BlockStep(sir, old(frames))
    {
      var n := |frames|;
      var top := frames[n - 1];
      var body := BodyOf(sir, top.func);
      if body.Failed? {
        return Some(body.fault);
      }
      if top.bbidx >= |body.value.blocks| {
        return Some(Panic);
      }
      var block := body.value.blocks[top.bbidx];
      var mem := top.mem;
      for k := 0 to |block.stmts|
        invariant StatementsStep(sir.types, top.mem, block.stmts) == StatementsStep(sir.types, mem, block.stmts[k..])
      {
        var r := StatementStep(sir.types, mem, block.stmts[k]);
        assert block.stmts[k..][1..] == block.stmts[k + 1..];
        if r.Failed? {
          return Some(r.fault);
        }
        mem := r.value;
      }
      frames := frames[n - 1 := top.(mem := mem)];
      f := Terminator(block.term);
    }

    /** `_interpret`: blocks run until the last frame has returned, for at most `fuel` blocks. */
    method InterpretLoop(fuel: nat) returns (res: RunOutcome<StackFrame>)
      modifies this
      ensures res == Run(sir, old(frames), fuel)
      ensures res.Returned? ==> frames == []
      ensures res.OutOfFuel? ==> frames == res.frames
    {
      var left := fuel;
      while frames != []
        invariant Run(sir, old(frames), fuel) == Run(sir, frames, left)
        decreases left
      {
        if left == 0 {
          return OutOfFuel(frames);
        }
        var f := Block();
        if f.Some? {
          return Faulted(f.value);
        }
        left := left - 1;
      }
      res := Returned;
    }

    /** `interpret`: the trace inputs set, the failing block's terminator run, then the main loop. */
    method Interpret(tio: nat, fuel: nat) returns (res: RunOutcome<StackFrame>)
      requires tio < USIZE_LIMIT
      modifies this
      ensures res == Interpretation(sir, old(frames), tio, fuel)
    {
      var f := SetTraceInputs(tio);
      if f.Some? {
        return Faulted(f.value);
      }
      var top := frames[|frames| - 1];
      var body := BodyOf(sir, top.func);
      if body.Failed? {
        return Faulted(body.fault);
      }
      if top.bbidx >= |body.value.blocks| {
        return Faulted(Panic);
      }
      f := Terminator(body.value.blocks[top.bbidx].term);
      if f.Some? {
        return Faulted(f.value);
      }
      res := InterpretLoop(fuel);
    }
  }

  /**
   * `init_frames`: one frame per `FrameInfo`, in order, with its block
   * index and memory and its function's layout. A symbol without SIR, or a
   * block index that is no `u32`, panics.
   */
  method InitFrames(sir: Sir, v: seq<FrameInfo>) returns (bh: SIRInterpreter, f: Option<Fault>)
    ensures bh.sir == sir
    ensures f.None? <==> forall i :: 0 <= i < |v| ==> v[i].sym in sir.bodies && v[i].bbidx < U32_LIMIT
    ensures f.None? ==> |bh.frames| == |v| && forall i :: 0 <= i < |v| ==> v[i].sym in sir.bodies && bh.frames[i] == FrameOf(sir, v[i])
  {
    var frames: seq<StackFrame> := [];
    for k := 0 to |v|
      invariant |frames| == k
      invariant forall i :: 0 <= i < k ==> v[i].sym in sir.bodies && v[i].bbidx < U32_LIMIT && frames[i] == FrameOf(sir, v[i])
    {
      if v[k].sym !in sir.bodies || v[k].bbidx >= U32_LIMIT {
        bh := new SIRInterpreter(sir, []);
        return bh, Some(Panic);
      }
      frames := frames + [FrameOf(sir, v[k])];
    }
    bh := new SIRInterpreter(sir, frames);
    f := None;
  }

  /**
   * `SwitchInt` moves the current frame to the target of the first value
   * equal to the discriminant read from memory, or to `otherwise` when
   * none is; with one target per value that is `SwitchTarget`.
   */
  lemma SwitchPicksFirstMatch(sir: Sir, frames: seq<StackFrame>, discr: IPlace, values: seq<nat>,
                              targetBbs: seq<nat>, otherwiseBb: nat)
    requires |frames| > 0
    ensures var v := ReadStoredInt(frames[|frames| - 1].mem, discr, sir.types);
      var r := TerminatorStep(sir, frames, SwitchInt(discr, values, targetBbs, otherwiseBb));
      && (v.Failed? ==> r == Failed(v.fault))
      && (v.Done? && v.value !in values ==> r == Done(MoveTo(frames, otherwiseBb)))
      && (forall i :: 0 <= i < |values| && v.Done? && values[i] == v.value && v.value !in values[..i] ==>
            r == (if i < |targetBbs| then Done(MoveTo(frames, targetBbs[i])) else Failed(Panic)))
      && (v.Done? && |values| == |targetBbs| ==>
            r == Done(MoveTo(frames, SwitchTarget(values, targetBbs, otherwiseBb, v.value))))
  {
    var v := ReadStoredInt(frames[|frames| - 1].mem, discr, sir.types);
    forall i | 0 <= i < |values| && v.Done? && values[i] == v.value && v.value !in values[..i]
      ensures Position(values, v.value) == Some(i)
    {
      var j := Position(values, v.value).value;
    }
  }

  /**
   * `Call` pushes one frame for the callee, at block 0, named by the
   * callee's symbol and laid out as its body says, leaving the caller's
   * frames as they were; the callee's local `k + 1` holds argument `k`
   * when the receiving locals do not overlap.
   */
  lemma CallPushesCallee(sir: Sir, frames: seq<StackFrame>, sym: string, args: seq<IPlace>,
                         dest: Option<(IPlace, nat)>, k: nat)
    requires |frames| > 0
    requires TerminatorStep(sir, frames, CallTerm(Fn(sym), args, dest)).Done?
    requires k < |args|
    requires sym in sir.bodies && |args| < |sir.bodies[sym].offsets|
    requires forall i, j :: 0 <= i < j < |args| ==>
               ArgsApart(sir.bodies[sym].offsets, args, Current(frames).mem, sir.types, i, j)
    ensures var r := TerminatorStep(sir, frames, CallTerm(Fn(sym), args, dest)).value;
      && |r| == |frames| + 1 && r[..|frames|] == frames
      && r[|frames|].bbidx == 0 && r[|frames|].func == sym && r[|frames|].mem.offsets == sir.bodies[sym].offsets
      && PlaceBytes(Current(frames).mem, args[k], sir.types).Done?
      && var v := PlaceBytes(Current(frames).mem, args[k], sir.types).value;
         ReadBytes(r[|frames|].mem.bytes, sir.bodies[sym].offsets[k + 1], |v|) == v
  {
    ArgsLand(LocalMem(sir.bodies[sym].offsets, map[]), args, Current(frames).mem, sir.types, k);
  }

  /**
   * `Return` from the last frame leaves none. From a nested call it pops
   * the callee; the caller's block ends in a call with a destination, the
   * callee's local 0 is copied there, the caller continues at the call's
   * return block, and the frames below are untouched.
   */
  lemma ReturnHandsBack(sir: Sir, frames: seq<StackFrame>)
    requires |frames| > 0
    ensures |frames| == 1 ==> TerminatorStep(sir, frames, Return) == Done([])
    ensures var n := |frames|;
      var r := TerminatorStep(sir, frames, Return);
      n >= 2 && r.Done? ==>
        var caller, callee := frames[n - 2], frames[n - 1];
        && caller.func in sir.bodies
        && var body := sir.bodies[caller.func];
           && caller.bbidx < |body.blocks|
           && var term := body.blocks[caller.bbidx].term;
              && term.CallTerm? && term.destination.Some?
              && var dest, ret := term.destination.value.0, term.destination.value.1;
                 && |r.value| == n - 1 && r.value[..n - 2] == frames[..n - 2]
                 && r.value[n - 2].bbidx == ret && r.value[n - 2].func == caller.func
                 && PlacePtr(caller.mem, dest).Done? && dest.ty in sir.types
                 && var size := sir.types[dest.ty].size;
                    ReadBytes(r.value[n - 2].mem.bytes, PlacePtr(caller.mem, dest).value, size)
                      == ReadBytes(callee.mem.bytes, callee.mem.offsets[0], size)
  {
  }

  /**
   * What this interpreter does not support: every binary operation and
   * every terminator other than `Call`, `Return`, `SwitchInt` and `Goto`
   * (`Assert` among them) stops it at a `todo!`.
   */
  lemma UnsupportedOperations(sir: Sir, frames: seq<StackFrame>, mem: LocalMem, st: Statement, term: Terminator)
    requires |frames| > 0
    ensures st.BinaryOp? ==> StatementStep(sir.types, mem, st) == Failed(Unsupported)
    ensures !(term.CallTerm? || term.Return? || term.SwitchInt? || term.Goto?) ==>
              TerminatorStep(sir, frames, term) == Failed(Unsupported)
  {
  }

  /**
   * `interpret` first hands the trace inputs to the outermost frame: after
   * `set_trace_inputs`, local 1 of the first frame holds the pointer and
   * nothing else changed.
   */
  lemma TraceInputsInFirstFrame(frames: seq<StackFrame>, tio: nat)
    requires tio < USIZE_LIMIT
    requires TraceInputsSet(frames, tio).Done?
    ensures var r := TraceInputsSet(frames, tio).value;
      var bs := ReadBytes(r[0].mem.bytes, frames[0].mem.offsets[1], 8);
      && (forall i :: 0 <= i < 8 ==> bs[i].Some?)
      && FromLe(seq(8, i requires 0 <= i < 8 => bs[i].value)) == tio
      && r[0].bbidx == frames[0].bbidx && r[0].func == frames[0].func && r[1..] == frames[1..]
  {
  }
}
