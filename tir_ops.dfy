/**
 * The operations of a TIR (tracing IR) trace and how a guard is inferred
 * from a traced block's terminator (yktrace/src/tir.rs).
 *
 * A TIR trace is a straight-line sequence of statements and guards. Where
 * the traced program branched, the trace holds a guard stating what must
 * hold of the branch's value for execution to follow the same edge again.
 * The traced edge is learned by peeking at the next block of the trace.
 */
module TirOps {
  import opened Wrappers

  /** A local variable, by index. */
  type Local = nat

  /** The argument of the `interp_step` function is always local 1. */
  const INTERP_STEP_ARG: Local := 1

  /** A type identifier: the defining crate and the index of the type in it. */
  datatype TypeId = TypeId(crate: nat, index: nat)

  /** A local's declaration: its type and whether a reference to it is taken. */
  datatype LocalDecl = LocalDecl(ty: TypeId, referenced: bool)

  /** A place: a local's value or the value one of its pointers points to, or a constant. */
  datatype IPlace =
    | Val(local: Local, offs: int, ty: TypeId)
    | Deref(local: Local, offs: int, postOffs: int, ty: TypeId)
    | ConstPlace(cval: int, ty: TypeId)
    | UnimplementedPlace(what: string)

  /**
   * The type of a place. How `ty()` treats an unimplemented place is not
   * part of this model; it is taken to have no type.
   */
  function PlaceTy(ip: IPlace): Option<TypeId> {
    if ip.UnimplementedPlace? then None else Some(ip.ty)
  }

  /** The local a place reads or writes, if any. */
  function PlaceLocal(ip: IPlace): Option<Local> {
    if ip.Val? || ip.Deref? then Some(ip.local) else None
  }

  /** A call target: a named function or one only known at run time. */
  datatype CallOperand = Fn(symbol: string) | UnknownCallee

  function CalleeSymbol(op: CallOperand): Option<string> {
    if op.Fn? then Some(op.symbol) else None
  }

  datatype BinOp = Add | Sub | Mul | Div | Rem | BitXor | BitAnd | BitOr | Shl | Shr
                 | Eq | Lt | Le | Ne | Ge | Gt | Offset

  /**
   * Statements. The last four only appear in TIR: `StorageDead` ends a
   * local's life, `Call` calls native code, `Enter`/`Leave` bracket an
   * inlined function.
   */
  datatype Statement =
    | MkRef(dest: IPlace, src: IPlace)
    | IStore(dest: IPlace, src: IPlace)
    | BinaryOp(dest: IPlace, op: BinOp, opnd1: IPlace, opnd2: IPlace, checked: bool)
    | Nop
    | Debug(msg: string)
    | UnimplementedStmt(msg: string)
    | StorageDead(dead: Local)
    | Call(callee: CallOperand, args: seq<IPlace>, retDest: Option<IPlace>)
    | Enter(callee: CallOperand, args: seq<IPlace>, retDest: Option<IPlace>, offset: nat)
    | Leave

  /** SIR block terminators. */
  datatype Terminator =
    | Goto(target: nat)
    | Return
    | Drop
    | DropAndReplace
    | CallTerm(func: CallOperand, callArgs: seq<IPlace>, destination: Option<(IPlace, nat)>)
    | Unreachable
    | UnimplementedTerm(what: string)
    | SwitchInt(discr: IPlace, values: seq<nat>, targetBbs: seq<nat>, otherwiseBb: nat)
    | Assert(cond: IPlace, expected: bool, targetBb: nat)

  /** A SIR basic block: its statements and its terminator. */
  datatype Block = Block(stmts: seq<Statement>, term: Terminator)

  /** What a guard requires of its value. */
  datatype GuardKind =
    | Integer(n: nat)
    | OtherInteger(excluded: seq<nat>)
    | Boolean(b: bool)

  datatype Guard = Guard(val: IPlace, kind: GuardKind)

  datatype TirOp = Stmt(s: Statement) | GuardOp(g: Guard)

  /**
   * Why building a trace stops: `NoSir` is the error the builder returns;
   * every other kind is a panic of the source.
   */
  datatype TraceError =
    | NoSir(symbol: string)
    | TracedUnreachable
    | NoBlockToPeek
    | NoValueForEdge
    | NoAddress
    | NoSuchBlock
    | NotSirStatement
    | NoSuchLocal
    | UntypedPlace
    | UndefinedLocal(l: Local)
    | RecursiveInterpStep
    | NoDestination
    | UnknownCalleeCall
    | NoPendingReturn

  /** The first index at which `x` occurs in `s` (`Iterator::position`). */
  function Position(s: seq<nat>, x: nat): (r: Option<nat>)
    ensures r.Some? ==> r.value < |s| && s[r.value] == x && x !in s[..r.value]
    ensures r.None? <==> x !in s
  {
    if |s| == 0 then None
    else if s[0] == x then Some(0)
    else
      var p := Position(s[1..], x);
      assert s == [s[0]] + s[1..];
      if p.None? then None
      else
        assert s[..p.value + 1] == [s[0]] + s[1..][..p.value];
        Some(p.value + 1)
  }

  /**
   * The guard for a traced block ending in `term`, given the block that
   * follows it in the trace. Only `SwitchInt` and `Assert` are guarded.
   * For a `SwitchInt` the guard requires the value whose target is the next
   * block (the first such), or, when the next block is no target, that the
   * value is none of the listed ones.
   */
  function GuardFor(term: Terminator, next: Option<nat>): Result<Option<Guard>>
  {
    match term
    case Unreachable => Err(TracedUnreachable)
    case SwitchInt(discr, values, targetBbs, _) =>
      if next.None? then Err(NoBlockToPeek)
      else
        (match Position(targetBbs, next.value)
         case Some(idx) =>
           if idx < |values| then Ok(Some(Guard(discr, Integer(values[idx]))))
           else Err(NoValueForEdge)
         case None => Ok(Some(Guard(discr, OtherInteger(values)))))
    case Assert(cond, expected, _) => Ok(Some(Guard(cond, Boolean(expected))))
    case _ => Ok(None)
  }

  datatype Result<T> = Ok(value: T) | Err(err: TraceError)

  /** What `SwitchInt` does at run time: the target of the first listed value equal to `v`. */
  function SwitchTarget(values: seq<nat>, targetBbs: seq<nat>, otherwiseBb: nat, v: nat): nat
    requires |values| == |targetBbs|
  {
    match Position(values, v)
    case Some(i) => targetBbs[i]
    case None => otherwiseBb
  }

  /** Whether value `v` passes a guard of kind `k` (a boolean is 0 or 1). */
  predicate Passes(k: GuardKind, v: nat) {
    match k
    case Integer(n) => v == n
    case OtherInteger(ns) => v !in ns
    case Boolean(b) => v == (if b then 1 else 0)
  }

  /** A well-formed `SwitchInt`: one target per value and no value listed twice. */
  predicate WellFormedSwitch(values: seq<nat>, targetBbs: seq<nat>) {
    |values| == |targetBbs| && forall i, j :: 0 <= i < j < |values| ==> values[i] != values[j]
  }

  /**
   * What guard inference promises for a switch: the guard is on the
   * switch's value; it is `Integer` exactly when the next block is one of
   * the targets, holding the value of the first such target, and otherwise
   * excludes all listed values; it fails only when there is no next block
   * or no value for the edge.
   */
  lemma SwitchGuard(discr: IPlace, values: seq<nat>, targetBbs: seq<nat>, otherwiseBb: nat, next: Option<nat>)
    ensures var r := GuardFor(SwitchInt(discr, values, targetBbs, otherwiseBb), next);
      && (r.Err? <==> next.None? || (next.value in targetBbs && |values| <= Position(targetBbs, next.value).value))
      && (r.Err? ==> r.err == NoBlockToPeek || r.err == NoValueForEdge)
      && (r.Ok? ==> r.value.Some? && r.value.value.val == discr)
      && (r.Ok? && next.value in targetBbs ==>
            exists i :: 0 <= i < |targetBbs| && i < |values| && targetBbs[i] == next.value
              && next.value !in targetBbs[..i] && r.value.value.kind == Integer(values[i]))
      && (r.Ok? && next.value !in targetBbs ==> r.value.value.kind == OtherInteger(values))
  {
  }

  /**
   * Soundness of a switch guard: any value passing the guard inferred for
   * the traced edge takes that edge again, provided the traced edge was a
   * target or the `otherwise` edge (as the source's debug assertion states).
   */
  lemma SwitchGuardSound(discr: IPlace, values: seq<nat>, targetBbs: seq<nat>, otherwiseBb: nat,
                         next: nat, v: nat)
    requires WellFormedSwitch(values, targetBbs)
    requires next in targetBbs || next == otherwiseBb
    requires GuardFor(SwitchInt(discr, values, targetBbs, otherwiseBb), Some(next)).Ok?
    requires Passes(GuardFor(SwitchInt(discr, values, targetBbs, otherwiseBb), Some(next)).value.value.kind, v)
    ensures SwitchTarget(values, targetBbs, otherwiseBb, v) == next
  {
    var p := Position(targetBbs, next);
    if p.Some? {
      var i := p.value;
      var q := Position(values, v);
      assert v == values[i];
    }
  }

  /**
   * Completeness of a switch guard when all targets differ and none is the
   * `otherwise` block: the value that took the traced edge passes the guard.
   */
  lemma SwitchGuardComplete(discr: IPlace, values: seq<nat>, targetBbs: seq<nat>, otherwiseBb: nat, v: nat)
    requires WellFormedSwitch(values, targetBbs)
    requires forall i, j :: 0 <= i < j < |targetBbs| ==> targetBbs[i] != targetBbs[j]
    requires otherwiseBb !in targetBbs
    ensures var next := SwitchTarget(values, targetBbs, otherwiseBb, v);
      var r := GuardFor(SwitchInt(discr, values, targetBbs, otherwiseBb), Some(next));
      r.Ok? && Passes(r.value.value.kind, v)
  {
    var q := Position(values, v);
    if q.Some? {
      var next := targetBbs[q.value];
      var p := Position(targetBbs, next);
    }
  }

  /**
   * With two values sharing a target block, the guard inferred for that
   * block rejects the second value although it takes the same edge: the
   * trace would fail its guard and deoptimise on a path it covers.
   */
  lemma SharedTargetGuardRejects()
    ensures var values := [1, 2];
      var targetBbs := [7, 7];
      var r := GuardFor(SwitchInt(UnimplementedPlace(""), values, targetBbs, 9), Some(7));
      && SwitchTarget(values, targetBbs, 9, 2) == 7
      && r.Ok? && !Passes(r.value.value.kind, 2)
  {
    assert Position([1, 2], 2) == Some(1);
    assert Position([7, 7], 7) == Some(0);
  }

  /**
   * An `Assert` is guarded on its condition being the expected boolean; the
   * other non-switch terminators give no guard, except `Unreachable`, which
   * the trace must never reach.
   */
  lemma OtherGuards(term: Terminator, next: Option<nat>)
    requires !term.SwitchInt?
    ensures term.Assert? ==> GuardFor(term, next) == Ok(Some(Guard(term.cond, Boolean(term.expected))))
    ensures term.Unreachable? <==> GuardFor(term, next) == Err(TracedUnreachable)
    ensures !term.Assert? && !term.Unreachable? ==> GuardFor(term, next) == Ok(None)
  {
  }
}
