/**
 * The stopgap interpreter (`StopgapInterpreter`, internal_ws/yksg/src/lib.rs).
 *
 * When a guard of a compiled trace fails, the stopgap interpreter takes
 * over: it rebuilds the interpreter's stack frames from what the trace
 * hands over, finishes the block the guard failed in by running its
 * terminator, and then interprets SIR block by block until the outermost
 * frame returns, which is where the normal interpreter continues.
 *
 * The interpreter is a class whose frame stack its methods update; each
 * method is proved against a step function (`TerminatorStep`, `BlockStep`,
 * `Run`, `Resume`) about which the lemmas below state what the source
 * promises. A run is given fuel: a number of blocks after which it stops.
 */
module Stopgap {
  import opened Wrappers
  import opened Bytes
  import opened TirOps
  import opened FrameMem

  /** What a failing guard hands over for one frame: its body, the block it was in, its memory. */
  datatype FrameInfo = FrameInfo(body: SirBody, bbidx: nat, mem: Memory)

  /** An interpreter frame: its memory, the block it is in and its function's body. */
  datatype StackFrame = StackFrame(mem: LocalMem, bbidx: nat, body: SirBody)

  /** The frame `from_frames` builds from one `FrameInfo`: locals laid out as its body says. */
  function FrameOf(fi: FrameInfo): StackFrame {
    StackFrame(LocalMem(fi.body.offsets, fi.mem), fi.bbidx, fi.body)
  }

  /**
   * `read_int`: a `u8` constant is its own value (any other constant is
   * `todo!`); a place in memory is read as `FrameMem.ReadStoredInt` says.
   * The result is always a byte.
   */
  function ReadInt(mem: LocalMem, src: IPlace, types: map<TypeId, Ty>): (r: Outcome<nat>)
    ensures r.Done? ==> r.value < 256
  {
    match src
    case ConstPlace(c, ty) =>
      if ty !in types then Failed(Panic)
      else if !types[ty].kind.U8Ty? then Failed(Unsupported)
      else if 0 <= c < 256 then Done(c)
      else Failed(Panic)
    case _ => ReadStoredInt(mem, src, types)
  }

  /**
   * `u8::overflowing_add` and `<` on bytes: the wrapping sum and whether it
   * wrapped, or 1 or 0 and no overflow.
   */
  function U8Op(op: BinOp, a: nat, b: nat): (r: (nat, bool))
    requires op.Add? || op.Lt?
    requires a < 256 && b < 256
    ensures r.0 < 256
    ensures op.Add? ==> r.0 + (if r.1 then 256 else 0) == a + b
    ensures op.Lt? ==> !r.1 && (r.0 == 1 <==> a < b) && (r.0 == 0 <==> b <= a)
  {
    if op.Add? then ((a + b) % 256, a + b >= 256)
    else (if a < b then 1 else 0, false)
  }

  /**
   * `binop_u8`: both operands read as bytes (`u8::try_from` cannot fail on
   * them), the result written as one byte where `dest` starts. A checked
   * operation also writes its overflow flag at the offset of field 1 of
   * the destination tuple, before the result; an unchecked one that
   * overflows is `todo!`, as is any operation other than `Add` and `Lt`.
   */
  function BinopU8(mem: LocalMem, dest: IPlace, op: BinOp, opnd1: IPlace, opnd2: IPlace, checked: bool,
                   types: map<TypeId, Ty>): (r: Outcome<LocalMem>)
    ensures r.Done? ==> (op.Add? || op.Lt?) && r.value.offsets == mem.offsets
    ensures r.Done? ==>
      && ReadInt(mem, opnd1, types).Done? && ReadInt(mem, opnd2, types).Done? && PlacePtr(mem, dest).Done?
      && var a, b, ptr := ReadInt(mem, opnd1, types).value, ReadInt(mem, opnd2, types).value, PlacePtr(mem, dest).value;
         var (v, of) := U8Op(op, a, b);
         && ReadBytes(r.value.bytes, ptr, 1) == [Some(v as byte)]
         && (!checked ==> !of)
         && (checked ==>
               && dest.ty in types && types[dest.ty].kind.TupleTy? && |types[dest.ty].kind.fieldOffsets| >= 2
               && var flagAt := ptr + types[dest.ty].kind.fieldOffsets[1];
                  (flagAt != ptr ==> ReadBytes(r.value.bytes, flagAt, 1) == [Some(if of then 1 else 0)]))
  {
    match ReadInt(mem, opnd1, types)
    case Failed(f) => Failed(f)
    case Done(a) =>
      match ReadInt(mem, opnd2, types)
      case Failed(f) => Failed(f)
      case Done(b) =>
        match PlacePtr(mem, dest)
        case Failed(f) => Failed(f)
        case Done(ptr) =>
          if !(op.Add? || op.Lt?) then Failed(Unsupported)
          else
            var (v, of) := U8Op(op, a, b);
            var result := [Some(v as byte)];
            if checked then
              if dest.ty !in types then Failed(Panic)
              else
                match types[dest.ty].kind
                case TupleTy(offs) =>
                  if |offs| < 2 then Failed(Panic)
                  else
                    var flagAt := ptr + offs[1];
                    var flag := [Some(if of then 1 as byte else 0 as byte)];
                    var withFlag := WriteVal(mem, flagAt, flag);
                    ReadBackWritten(mem.bytes, flagAt, flag);
                    ReadBackWritten(withFlag.bytes, ptr, result);
                    assert flagAt != ptr ==>
                        ReadBytes(WriteVal(withFlag, ptr, result).bytes, flagAt, 1) == flag by {
                      if flagAt != ptr {
                        WriteLeavesOthers(withFlag.bytes, ptr, result, flagAt, 1);
                      }
                    }
                    Done(WriteVal(withFlag, ptr, result))
                case _ => Failed(Panic)
            else if of then Failed(Unsupported)
            else
              ReadBackWritten(mem.bytes, ptr, result);
              Done(WriteVal(mem, ptr, result))
  }

  /**
   * `binop`: only operations on `u8` are implemented; any other integer
   * type, and any non-integer type, is `todo!`.
   */
  function Binop(mem: LocalMem, dest: IPlace, op: BinOp, opnd1: IPlace, opnd2: IPlace, checked: bool,
                 types: map<TypeId, Ty>): (r: Outcome<LocalMem>)
    ensures r.Done? ==> PlaceTy(opnd1).Some? && PlaceTy(opnd1).value in types
                        && types[PlaceTy(opnd1).value].kind.U8Ty?
                        && r == BinopU8(mem, dest, op, opnd1, opnd2, checked, types)
  {
    match PlaceTy(opnd1)
    case None => Failed(Panic)
    case Some(t) =>
      if t !in types then Failed(Panic)
      else if types[t].kind.U8Ty? then BinopU8(mem, dest, op, opnd1, opnd2, checked, types)
      else Failed(Unsupported)
  }

  /**
   * One statement of the current frame. `Nop` and `StorageDead` do
   * nothing; `Debug` and unimplemented statements are `todo!`; `Call`
   * statements do not occur in SIR blocks (`unreachable!`), nor do the
   * TIR-only `Enter` and `Leave`.
   */
  function StatementStep(types: map<TypeId, Ty>, mem: LocalMem, st: Statement): (r: Outcome<LocalMem>)
    ensures r.Done? ==> r.value.offsets == mem.offsets
  {
    match st
    case MkRef(dest, src) => MakeRef(mem, dest, src)
    case IStore(dest, src) => Store(mem, dest, src, types)
    case BinaryOp(dest, op, opnd1, opnd2, checked) => Binop(mem, dest, op, opnd1, opnd2, checked, types)
    case Nop => Done(mem)
    case StorageDead(_) => Done(mem)
    case Debug(_) => Failed(Unsupported)
    case UnimplementedStmt(_) => Failed(Unsupported)
    case _ => Failed(Panic)
  }

  /** The statements run in order, stopping at the first that fails. */
  function StatementsStep(types: map<TypeId, Ty>, mem: LocalMem, stmts: seq<Statement>): (r: Outcome<LocalMem>)
    ensures r.Done? ==> r.value.offsets == mem.offsets
    decreases |stmts|
  {
    if |stmts| == 0 then Done(mem)
    else
      match StatementStep(types, mem, stmts[0])
      case Failed(f) => Failed(f)
      case Done(m) => StatementsStep(types, m, stmts[1..])
  }

  /** The current frame: the most recent one. */
  function Current(frames: seq<StackFrame>): StackFrame
    requires |frames| > 0
  {
    frames[|frames| - 1]
  }

  /** The current frame with its block index replaced. */
  function MoveTo(frames: seq<StackFrame>, bb: nat): (r: seq<StackFrame>)
    requires |frames| > 0
    ensures |r| == |frames| && r[..|r| - 1] == frames[..|frames| - 1]
    ensures r[|r| - 1] == frames[|frames| - 1].(bbidx := bb)
  {
    frames[|frames| - 1 := frames[|frames| - 1].(bbidx := bb)]
  }

  /**
   * `Return`: the current frame is popped. If a caller remains, its block
   * must end in a call with a destination (otherwise the source panics);
   * the callee's return value is copied there and the caller continues at
   * the call's return block.
   */
  function ReturnStep(sir: Sir, frames: seq<StackFrame>): Outcome<seq<StackFrame>>
    requires |frames| > 0
  {
    var n := |frames|;
    var callee := frames[n - 1];
    if n == 1 then Done([])
    else
      var caller := frames[n - 2];
      if caller.bbidx >= |caller.body.blocks| then Failed(Panic)
      else
        match caller.body.blocks[caller.bbidx].term
        case CallTerm(_, _, Some((dest, ret))) =>
          (match ReturnInto(caller.mem, callee.mem, dest, sir.types)
           case Failed(f) => Failed(f)
           case Done(m) => Done(frames[..n - 2] + [caller.(mem := m, bbidx := ret)]))
        case _ => Failed(Panic)
  }

  /**
   * `terminator`: what ends the current frame's block. `Call` pushes a
   * frame for the callee at block 0 holding the arguments; `Return` is
   * `ReturnStep`; `SwitchInt` goes to the target of the first value equal
   * to the discriminant, else to `otherwise`; `Goto` jumps; `Assert`
   * continues at its target when the condition is as expected and is
   * `todo!` otherwise; every other terminator is `todo!`.
   */
  function TerminatorStep(sir: Sir, frames: seq<StackFrame>, term: Terminator): Outcome<seq<StackFrame>>
    requires |frames| > 0
  {
    var top := frames[|frames| - 1];
    match term
    case CallTerm(op, args, _) =>
      if !op.Fn? then Failed(Unsupported)
      else if op.symbol !in sir.bodies then Failed(Panic)
      else
        var body := sir.bodies[op.symbol];
        (match ArgsWritten(LocalMem(body.offsets, map[]), args, top.mem, sir.types)
         case Failed(f) => Failed(f)
         case Done(m) => Done(frames + [StackFrame(m, 0, body)]))
    case Return => ReturnStep(sir, frames)
    case SwitchInt(discr, values, targetBbs, otherwiseBb) =>
      (match ReadInt(top.mem, discr, sir.types)
       case Failed(f) => Failed(f)
       case Done(v) =>
         (match Position(values, v)
          case None => Done(MoveTo(frames, otherwiseBb))
          case Some(i) => if i < |targetBbs| then Done(MoveTo(frames, targetBbs[i])) else Failed(Panic)))
    case Goto(bb) => Done(MoveTo(frames, bb))
    case Assert(cond, expected, targetBb) =>
      (match ReadInt(top.mem, cond, sir.types)
       case Failed(f) => Failed(f)
       case Done(v) => if (v == 1) != expected then Failed(Unsupported) else Done(MoveTo(frames, targetBb)))
    case _ => Failed(Unsupported)
  }

  /** One iteration of `interpret`'s loop: the current block's statements, then its terminator. */
  function BlockStep(sir: Sir, frames: seq<StackFrame>): Outcome<seq<StackFrame>>
    requires |frames| > 0
  {
    var n := |frames|;
    var top := frames[n - 1];
    if top.bbidx >= |top.body.blocks| then Failed(Panic)
    else
      var block := top.body.blocks[top.bbidx];
      match StatementsStep(sir.types, top.mem, block.stmts)
      case Failed(f) => Failed(f)
      case Done(m) => TerminatorStep(sir, frames[n - 1 := top.(mem := m)], block.term)
  }

  /** One step of `interpret`'s loop; there is none without a frame. */
  function Step(sir: Sir): seq<StackFrame> -> Outcome<seq<StackFrame>> {
    (frames: seq<StackFrame>) => if |frames| == 0 then Failed(Panic) else BlockStep(sir, frames)
  }

  /** `interpret`: blocks run until no frame is left, a fault, or `fuel` blocks have run. */
  function Run(sir: Sir, frames: seq<StackFrame>, fuel: nat): RunOutcome<StackFrame> {
    RunSteps(Step(sir), frames, fuel)
  }

  /**
   * What `from_frames` leads to: one frame per `FrameInfo`, in order, then
   * the terminator of the block the guard failed in (its statements ran in
   * the trace). A block index that is no `u32`, an empty frame list or a
   * block index out of range panics.
   */
  function Resume(sir: Sir, v: seq<FrameInfo>): Outcome<seq<StackFrame>> {
    if exists i :: 0 <= i < |v| && v[i].bbidx >= U32_LIMIT then Failed(Panic)
    else if |v| == 0 then Failed(Panic)
    else
      var frames := seq(|v|, i requires 0 <= i < |v| => FrameOf(v[i]));
      var top := frames[|v| - 1];
      if top.bbidx >= |top.body.blocks| then Failed(Panic)
      else TerminatorStep(sir, frames, top.body.blocks[top.bbidx].term)
  }

  /**
   * `from_frames`' loop: one frame per `FrameInfo`, in the same order;
   * a block index that is no `u32` panics.
   */
  method BuildFrames(v: seq<FrameInfo>) returns (r: Outcome<seq<StackFrame>>)
    ensures r.Done? <==> forall i :: 0 <= i < |v| ==> v[i].bbidx < U32_LIMIT
    ensures r.Done? ==> |r.value| == |v| && forall i :: 0 <= i < |v| ==> r.value[i] == FrameOf(v[i])
  {
    var frames: seq<StackFrame> := [];
    for k := 0 to |v|
      invariant |frames| == k && forall i :: 0 <= i < k ==> frames[i] == FrameOf(v[i]) && v[i].bbidx < U32_LIMIT
    {
      if v[k].bbidx >= U32_LIMIT {
        return Failed(Panic);
      }
      frames := frames + [FrameOf(v[k])];
    }
    r := Done(frames);
  }

  class StopgapInterpreter {
    /** The program's SIR (the global `SIR`). */
    const sir: Sir
    /** The active frames, most recent last. */
    var frames: seq<StackFrame>

    constructor(sir: Sir, frames: seq<StackFrame>)
      ensures this.sir == sir && this.frames == frames
    {
      this.sir := sir;
      this.frames := frames;
    }

    /**
     * `set_interp_ctx`: the interpreter context pointer written into local
     * 1 (`interp_step`'s argument) of the first frame; no frame, or no
     * such local, panics.
     */
    method SetInterpCtx(ctx: nat) returns (f: Option<Fault>)
      requires ctx < USIZE_LIMIT
      modifies this
      ensures f.None? <==> |old(frames)| > 0 && INTERP_STEP_ARG < |old(frames)[0].mem.offsets|
      ensures f.None? ==> frames == old(frames)[0 := old(frames)[0].(mem := WritePointer(old(frames)[0].mem, INTERP_STEP_ARG, ctx).value)]
      ensures f.Some? ==> frames == old(frames)
    {
      if |frames| == 0 {
        return Some(Panic);
      }
      var m := WritePointer(frames[0].mem, INTERP_STEP_ARG, ctx);
      if m.Failed? {
        return Some(m.fault);
      }
      frames := frames[0 := frames[0].(mem := m.value)];
      f := None;
    }

    /** `Call`: a frame for the callee pushed, holding the arguments. */
    method EnterCallee(op: CallOperand, args: seq<IPlace>, dest: Option<(IPlace, nat)>) returns (f: Option<Fault>)
      requires |frames| > 0
      modifies this
      ensures Settled(f, frames) == TerminatorStep(sir, old(frames), CallTerm(op, args, dest))
    {
      if !op.Fn? {
        return Some(Unsupported);
      }
      if op.symbol !in sir.bodies {
        return Some(Panic);
      }
      var body := sir.bodies[op.symbol];
      var mem := CopyArgs(LocalMem(body.offsets, map[]), args, frames[|frames| - 1].mem, sir.types);
      if mem.Failed? {
        return Some(mem.fault);
      }
      frames := frames + [StackFrame(mem.value, 0, body)];
      f := None;
    }

    /** `Return`: the frame popped and its return value handed to the caller. */
    method ReturnToCaller() returns (f: Option<Fault>)
      requires |frames| > 0
      modifies this
      ensures Settled(f, frames) == TerminatorStep(sir, old(frames), Return)
    {
      var n := |frames|;
      var callee := frames[n - 1];
      frames := frames[..n - 1];
      if n == 1 {
        return None;
      }
      var caller := frames[n - 2];
      if caller.bbidx >= |caller.body.blocks| {
        return Some(Panic);
      }
      match caller.body.blocks[caller.bbidx].term {
        case CallTerm(_, _, d) =>
          if d.None? {
            return Some(Panic);
          }
          var (dest, ret) := d.value;
          var m := ReturnInto(caller.mem, callee.mem, dest, sir.types);
          if m.Failed? {
            return Some(m.fault);
          }
          frames := frames[n - 2 := caller.(mem := m.value, bbidx := ret)];
          assert frames == old(frames)[..n - 2] + [caller.(mem := m.value, bbidx := ret)];
          f := None;
        case _ =>
          f := Some(Panic);
      }
    }

    /** `SwitchInt`: the values scanned for the discriminant, in order. */
    method Switch(discr: IPlace, values: seq<nat>, targetBbs: seq<nat>, otherwiseBb: nat) returns (f: Option<Fault>)
      requires |frames| > 0
      modifies this
      ensures Settled(f, frames) == TerminatorStep(sir, old(frames), SwitchInt(discr, values, targetBbs, otherwiseBb))
    {
      var v := ReadInt(frames[|frames| - 1].mem, discr, sir.types);
      if v.Failed? {
        return Some(v.fault);
      }
      var bb := otherwiseBb;
      var i := 0;
      while i < |values| && values[i] != v.value
        invariant i <= |values| && v.value !in values[..i]
      {
        i := i + 1;
      }
      if i < |values| {
        var p := Position(values, v.value);
        assert values[..p.value + 1][p.value] == v.value;
        assert values[..i + 1][i] == v.value;
        assert p == Some(i);
        if i >= |targetBbs| {
          return Some(Panic);
        }
        bb := targetBbs[i];
      } else {
        assert values[..i] == values;
      }
      frames := MoveTo(frames, bb);
      f := None;
    }

    /** `terminator`: dispatch on the kind of terminator. */
    method Terminator(term: Terminator) returns (f: Option<Fault>)
      requires |frames| > 0
      modifies this
      ensures Settled(f, frames) == TerminatorStep(sir, old(frames), term)
    {
      match term {
        case CallTerm(op, args, dest) =>
          f := EnterCallee(op, args, dest);
        case Return =>
          f := ReturnToCaller();
        case SwitchInt(discr, values, targetBbs, otherwiseBb) =>
          f := Switch(discr, values, targetBbs, otherwiseBb);
        case Goto(bb) =>
          frames := MoveTo(frames, bb);
          f := None;
        case Assert(cond, expected, targetBb) =>
          var v := ReadInt(frames[|frames| - 1].mem, cond, sir.types);
          if v.Failed? {
            return Some(v.fault);
          }
          if (v.value == 1) != expected {
            return Some(Unsupported);
          }
          frames := MoveTo(frames, targetBb);
          f := None;
        case _ =>
          f := Some(Unsupported);
      }
    }

    /** One iteration of `interpret`'s loop: the statements of the current block, then its terminator. */
    method Block() returns (f: Option<Fault>)
      requires |frames| > 0
      modifies this
      ensures Settled(f, frames) == BlockStep(sir, old(frames))
    {
      var n := |frames|;
      var top := frames[n - 1];
      if top.bbidx >= |top.body.blocks| {
        return Some(Panic);
      }
      var block := top.body.blocks[top.bbidx];
      var mem := top.mem;
      for k := 0 to |block.stmts|
        invariant StatementsStep(sir.types, top.mem, block.stmts) == StatementsStep(sir.types, mem, block.stmts[k..])
      {
        var r := StatementStep(sir.types, mem, block.stmts[k]);
        assert block.stmts[k..][1..] == block.stmts[k + 1..];
        if r.Failed? {
          return Some(r.fault);
        }
        mem := r.value;
      }
      frames := frames[n - 1 := top.(mem := mem)];
      f := Terminator(block.term);
    }

    /**
     * `interpret`: blocks run until the last frame has returned. The fuel
     * bounds the number of blocks; the source's loop is unbounded.
     */
    method Interpret(fuel: nat) returns (res: RunOutcome<StackFrame>)
      modifies this
      ensures res == Run(sir, old(frames), fuel)
      ensures res.Returned? ==> frames == []
      ensures res.OutOfFuel? ==> frames == res.frames
    {
      var left := fuel;
      while frames != []
        invariant Run(sir, old(frames), fuel) == Run(sir, frames, left)
        decreases left
      {
        if left == 0 {
          return OutOfFuel(frames);
        }
        var f := Block();
        if f.Some? {
          return Faulted(f.value);
        }
        left := left - 1;
      }
      res := Returned;
    }
  }

  /**
   * `from_frames`: the interpreter rebuilt from the failing guard's frames,
   * after the terminator of the block the guard failed in.
   */
  method FromFrames(sir: Sir, v: seq<FrameInfo>) returns (sg: StopgapInterpreter, f: Option<Fault>)
    ensures sg.sir == sir
    ensures Settled(f, sg.frames) == Resume(sir, v)
  {
    var frames := BuildFrames(v);
    if frames.Failed? {
      sg := new StopgapInterpreter(sir, []);
      return sg, Some(Panic);
    }
    sg := new StopgapInterpreter(sir, frames.value);
    assert frames.value == seq(|v|, i requires 0 <= i < |v| => FrameOf(v[i]));
    if |frames.value| == 0 {
      return sg, Some(Panic);
    }
    var top := frames.value[|frames.value| - 1];
    if top.bbidx >= |top.body.blocks| {
      return sg, Some(Panic);
    }
    f := sg.Terminator(top.body.blocks[top.bbidx].term);
  }

  /**
   * `SwitchInt` moves the current frame to the target of the first value
   * equal to the discriminant, or to `otherwise` when none is; with one
   * target per value that is `SwitchTarget`. Nothing else changes.
   */
  lemma SwitchPicksFirstMatch(sir: Sir, frames: seq<StackFrame>, discr: IPlace, values: seq<nat>,
                              targetBbs: seq<nat>, otherwiseBb: nat)
    requires |frames| > 0
    ensures var v := ReadInt(frames[|frames| - 1].mem, discr, sir.types);
      var r := TerminatorStep(sir, frames, SwitchInt(discr, values, targetBbs, otherwiseBb));
      && (v.Failed? ==> r == Failed(v.fault))
      && (v.Done? && v.value !in values ==> r == Done(MoveTo(frames, otherwiseBb)))
      && (forall i :: 0 <= i < |values| && v.Done? && values[i] == v.value && v.value !in values[..i] ==>
            r == (if i < |targetBbs| then Done(MoveTo(frames, targetBbs[i])) else Failed(Panic)))
      && (v.Done? && |values| == |targetBbs| ==>
            r == Done(MoveTo(frames, SwitchTarget(values, targetBbs, otherwiseBb, v.value))))
  {
    var v := ReadInt(frames[|frames| - 1].mem, discr, sir.types);
    forall i | 0 <= i < |values| && v.Done? && values[i] == v.value && v.value !in values[..i]
      ensures Position(values, v.value) == Some(i)
    {
      var j := Position(values, v.value).value;
    }
  }

  /** `Goto` jumps; `Assert` continues at its target exactly when the condition is as expected. */
  lemma GotoAndAssert(sir: Sir, frames: seq<StackFrame>, bb: nat, cond: IPlace, expected: bool, targetBb: nat)
    requires |frames| > 0
    ensures TerminatorStep(sir, frames, Goto(bb)) == Done(MoveTo(frames, bb))
    ensures var v := ReadInt(frames[|frames| - 1].mem, cond, sir.types);
      var r := TerminatorStep(sir, frames, Assert(cond, expected, targetBb));
      && (v.Failed? ==> r == Failed(v.fault))
      && (v.Done? && (v.value == 1) == expected ==> r == Done(MoveTo(frames, targetBb)))
      && (v.Done? && (v.value == 1) != expected ==> r == Failed(Unsupported))
  {
  }

  /**
   * `Call` pushes one frame for the callee, at block 0, with the callee's
   * layout, leaving the caller's frames as they were. It succeeds exactly
   * when the callee has a body, a local for each argument, and every
   * argument has a value; a call to an unknown target is `todo!`.
   */
  lemma CallPushesCallee(sir: Sir, frames: seq<StackFrame>, op: CallOperand, args: seq<IPlace>,
                         dest: Option<(IPlace, nat)>)
    requires |frames| > 0
    ensures var r := TerminatorStep(sir, frames, CallTerm(op, args, dest));
      && (op.UnknownCallee? ==> r == Failed(Unsupported))
      && (op.Fn? ==>
            (r.Done? <==> && op.symbol in sir.bodies
                          && (|args| == 0 || |args| < |sir.bodies[op.symbol].offsets|)
                          && forall i :: 0 <= i < |args| ==> PlaceBytes(frames[|frames| - 1].mem, args[i], sir.types).Done?))
      && (r.Done? ==> && |r.value| == |frames| + 1 && r.value[..|frames|] == frames
                      && r.value[|frames|].bbidx == 0 && r.value[|frames|].body == sir.bodies[op.symbol]
                      && r.value[|frames|].mem.offsets == sir.bodies[op.symbol].offsets)
  {
    if op.Fn? && op.symbol in sir.bodies {
      ArgsWrittenDefined(LocalMem(sir.bodies[op.symbol].offsets, map[]), args, frames[|frames| - 1].mem, sir.types);
    }
  }

  /**
   * The callee's local `k + 1` holds argument `k`'s value in the caller's
   * frame, provided the locals receiving arguments do not overlap.
   */
  lemma CalleeHoldsArguments(sir: Sir, frames: seq<StackFrame>, sym: string, args: seq<IPlace>,
                             dest: Option<(IPlace, nat)>, k: nat)
    requires |frames| > 0
    requires TerminatorStep(sir, frames, CallTerm(Fn(sym), args, dest)).Done?
    requires k < |args|
    requires sym in sir.bodies
    requires |args| < |sir.bodies[sym].offsets|
    requires forall i, j :: 0 <= i < j < |args| ==>
               ArgsApart(sir.bodies[sym].offsets, args, Current(frames).mem, sir.types, i, j)
    ensures var caller := frames[|frames| - 1].mem;
      var callee := TerminatorStep(sir, frames, CallTerm(Fn(sym), args, dest)).value[|frames|].mem;
      && PlaceBytes(caller, args[k], sir.types).Done?
      && var v := PlaceBytes(caller, args[k], sir.types).value;
         ReadBytes(callee.bytes, callee.offsets[k + 1], |v|) == v
  {
    ArgsLand(LocalMem(sir.bodies[sym].offsets, map[]), args, Current(frames).mem, sir.types, k);
  }

  /**
   * `Return` from the last frame leaves none. From a nested call it pops
   * the callee; the caller's block ends in a call with a destination, the
   * callee's return value (local 0) is copied there, the caller continues
   * at the call's return block, and the frames below are untouched.
   */
  lemma ReturnHandsBack(sir: Sir, frames: seq<StackFrame>)
    requires |frames| > 0
    ensures |frames| == 1 ==> TerminatorStep(sir, frames, Return) == Done([])
    ensures var n := |frames|;
      var r := TerminatorStep(sir, frames, Return);
      n >= 2 && r.Done? ==>
        var caller, callee := frames[n - 2], frames[n - 1];
        && caller.bbidx < |caller.body.blocks|
        && var term := caller.body.blocks[caller.bbidx].term;
           && term.CallTerm? && term.destination.Some?
           && var dest, ret := term.destination.value.0, term.destination.value.1;
              && |r.value| == n - 1 && r.value[..n - 2] == frames[..n - 2]
              && r.value[n - 2].bbidx == ret && r.value[n - 2].body == caller.body
              && PlacePtr(caller.mem, dest).Done? && dest.ty in sir.types
              && var size := sir.types[dest.ty].size;
                 ReadBytes(r.value[n - 2].mem.bytes, PlacePtr(caller.mem, dest).value, size)
                   == ReadBytes(callee.mem.bytes, callee.mem.offsets[0], size)
  {
  }

  /**
   * Resuming after a guard failure continues the run the trace left: if
   * the frames handed over are those of a plain run that has just executed
   * the statements of the current block, `from_frames` reaches what that
   * run's next block step reaches, and interpreting on from there ends as
   * the plain run does.
   */
  lemma GuardFailureResumesRun(sir: Sir, frames: seq<StackFrame>, m: LocalMem, fuel: nat)
    requires |frames| > 0
    requires forall i :: 0 <= i < |frames| ==>
               frames[i].bbidx < U32_LIMIT && frames[i].mem.offsets == frames[i].body.offsets
    requires var top := frames[|frames| - 1];
      && top.bbidx < |top.body.blocks|
      && StatementsStep(sir.types, top.mem, top.body.blocks[top.bbidx].stmts) == Done(m)
    ensures var n := |frames|;
      var handed := seq(n, i requires 0 <= i < n =>
                          FrameInfo(frames[i].body, frames[i].bbidx, if i == n - 1 then m.bytes else frames[i].mem.bytes));
      && Resume(sir, handed) == BlockStep(sir, frames)
      && match Resume(sir, handed)
         case Done(next) => Run(sir, next, fuel) == Run(sir, frames, fuel + 1)
         case Failed(f) => Run(sir, frames, fuel + 1) == Faulted(f)
  {
    var n := |frames|;
    var top := frames[n - 1];
    var handed := seq(n, i requires 0 <= i < n =>
                        FrameInfo(frames[i].body, frames[i].bbidx, if i == n - 1 then m.bytes else frames[i].mem.bytes));
    var rebuilt := seq(n, i requires 0 <= i < n => FrameOf(handed[i]));
    assert rebuilt == frames[n - 1 := top.(mem := m)];
  }

  /**
   * A switch guard decides the stopgap interpreter's edge: when the
   * targets are distinct and differ from `otherwise`, the interpreter
   * takes the traced edge exactly when the value passes the guard inferred
   * for it, so after a guard failure it leaves the traced path.
   */
  lemma SwitchFollowsGuard(sir: Sir, frames: seq<StackFrame>, discr: IPlace, values: seq<nat>,
                           targetBbs: seq<nat>, otherwiseBb: nat, traced: nat, g: Guard)
    requires |frames| > 0
    requires ReadInt(frames[|frames| - 1].mem, discr, sir.types).Done?
    requires WellFormedSwitch(values, targetBbs)
    requires forall i, j :: 0 <= i < j < |targetBbs| ==> targetBbs[i] != targetBbs[j]
    requires otherwiseBb !in targetBbs
    requires traced in targetBbs || traced == otherwiseBb
    requires GuardFor(SwitchInt(discr, values, targetBbs, otherwiseBb), Some(traced)) == Ok(Some(g))
    ensures var v := ReadInt(frames[|frames| - 1].mem, discr, sir.types).value;
      var r := TerminatorStep(sir, frames, SwitchInt(discr, values, targetBbs, otherwiseBb));
      r.Done? && (r.value[|frames| - 1].bbidx == traced <==> Passes(g.kind, v))
  {
    var v := ReadInt(frames[|frames| - 1].mem, discr, sir.types).value;
    SwitchPicksFirstMatch(sir, frames, discr, values, targetBbs, otherwiseBb);
    SwitchGuardComplete(discr, values, targetBbs, otherwiseBb, v);
    if Passes(g.kind, v) {
      SwitchGuardSound(discr, values, targetBbs, otherwiseBb, traced, v);
    }
  }

  /**
   * An `Assert` guard decides the stopgap interpreter's course: on a
   * boolean condition, a value passing the guard continues at the target,
   * and a failing one reaches the `todo!` that would raise the error.
   */
  lemma AssertFollowsGuard(sir: Sir, frames: seq<StackFrame>, cond: IPlace, expected: bool, targetBb: nat)
    requires |frames| > 0
    requires ReadInt(frames[|frames| - 1].mem, cond, sir.types).Done?
    requires ReadInt(frames[|frames| - 1].mem, cond, sir.types).value < 2
    ensures var v := ReadInt(frames[|frames| - 1].mem, cond, sir.types).value;
      var g := GuardFor(Assert(cond, expected, targetBb), None);
      var r := TerminatorStep(sir, frames, Assert(cond, expected, targetBb));
      && g.Ok? && g.value.Some?
      && (Passes(g.value.value.kind, v) ==> r == Done(MoveTo(frames, targetBb)))
      && (!Passes(g.value.value.kind, v) ==> r == Failed(Unsupported))
  {
  }
}
