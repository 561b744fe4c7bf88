/**
 * The def/use helpers of the Yorick IR types (ykpack/src/types.rs). Each
 * `*_vars_mut` traversal of the source hands out mutable references to the
 * locals a statement or terminator uses or defines; the model returns the
 * local indices themselves, in the same order.
 */
module PackTypes {
  import opened Wrappers

  const U32_LIMIT: int := 0x1_0000_0000
  type LocalIndex = l: int | 0 <= l < U32_LIMIT
  type BasicBlockIndex = b: int | 0 <= b < U32_LIMIT

  datatype DefId = DefId(crateHash: nat, defIdx: nat)

  datatype Place = Local(idx: LocalIndex) | PlaceUnimplemented

  datatype Rvalue = PlaceValue(place: Place) | Phi(args: seq<Place>) | RvalueUnimplemented

  datatype Statement =
    | Nop
    | SsaEntryDefs(defs: seq<LocalIndex>)
    | Assign(dest: Place, rv: Rvalue)
    | StatementUnimplemented

  datatype TyKind = FnDef(defId: DefId) | TyUnimplemented
  /** A compile-time constant: only its type is recorded. */
  datatype Constant = Constant(sty: TyKind)

  datatype Operand = Copy(place: Place) | Move(place: Place) | ConstantOp(c: Constant)

  datatype Terminator =
    | Goto(targetBb: BasicBlockIndex)
    | SwitchInt(discr: Operand, targetBbs: seq<BasicBlockIndex>)
    | Resume
    | Abort
    | Return(local: LocalIndex)
    | Unreachable
    | Drop(targetBb: BasicBlockIndex, unwindBb: Option<BasicBlockIndex>)
    | DropAndReplace(targetBb: BasicBlockIndex, unwindBb: Option<BasicBlockIndex>)
    | Call(func: Operand, cleanupBb: Option<BasicBlockIndex>, retBb: Option<BasicBlockIndex>)
    | Assert(cond: Operand, targetBb: BasicBlockIndex, cleanupBb: Option<BasicBlockIndex>)
    | Yield(value: Operand, resumeBb: BasicBlockIndex, dropBb: Option<BasicBlockIndex>)
    | GeneratorDrop

  /** `Place::uses_vars_mut` (and `defs_vars_mut`, which is the same). */
  function PlaceVars(p: Place): (r: seq<LocalIndex>)
    ensures r == [] <==> p.PlaceUnimplemented?
    ensures p.Local? ==> r == [p.idx]
  {
    match p
    case Local(l) => [l]
    case PlaceUnimplemented => []
  }

  /** True when some argument of a phi is the place `Local(l)`. */
  ghost predicate MentionsLocal(ps: seq<Place>, l: LocalIndex)
  {
    exists i :: 0 <= i < |ps| && ps[i] == Local(l)
  }

  /** The number of `Local` places in `ps`. */
  function CountLocals(ps: seq<Place>): nat
  {
    if ps == [] then 0 else (if ps[0].Local? then 1 else 0) + CountLocals(ps[1..])
  }

  /**
   * The fold in `Rvalue::uses_vars_mut` for a phi: the uses of each argument,
   * concatenated in argument order.
   */
  function PhiUses(ps: seq<Place>): (r: seq<LocalIndex>)
    ensures |r| == CountLocals(ps)
    ensures forall l: LocalIndex :: l in r <==> MentionsLocal(ps, l)
  {
    if ps == [] then []
    else
      var rest := PhiUses(ps[1..]);
      assert forall l: LocalIndex :: MentionsLocal(ps, l) <==> ps[0] == Local(l) || MentionsLocal(ps[1..], l) by {
        forall l: LocalIndex
          ensures MentionsLocal(ps, l) ==> ps[0] == Local(l) || MentionsLocal(ps[1..], l)
        {
          if MentionsLocal(ps, l) {
            var i :| 0 <= i < |ps| && ps[i] == Local(l);
            if i > 0 { assert ps[1..][i - 1] == Local(l); }
          }
        }
        forall l: LocalIndex
          ensures MentionsLocal(ps[1..], l) ==> MentionsLocal(ps, l)
        {
          if MentionsLocal(ps[1..], l) {
            var i :| 0 <= i < |ps[1..]| && ps[1..][i] == Local(l);
            assert ps[i + 1] == Local(l);
          }
        }
      }
      PlaceVars(ps[0]) + rest
  }

  /** `Rvalue::uses_vars_mut`. */
  function RvalueUses(rv: Rvalue): (r: seq<LocalIndex>)
    ensures rv.RvalueUnimplemented? ==> r == []
    ensures rv.PlaceValue? ==> r == PlaceVars(rv.place)
    ensures rv.Phi? ==> forall l: LocalIndex :: l in r <==> MentionsLocal(rv.args, l)
  {
    match rv
    case PlaceValue(p) => PlaceVars(p)
    case Phi(ps) => PhiUses(ps)
    case RvalueUnimplemented => []
  }

  /** `Statement::uses_vars_mut`: only an assignment uses anything, namely its right-hand side. */
  function StatementUses(s: Statement): (r: seq<LocalIndex>)
    ensures !s.Assign? ==> r == []
    ensures s.Assign? ==> r == RvalueUses(s.rv)
  {
    match s
    case Nop => []
    case StatementUnimplemented => []
    case SsaEntryDefs(_) => []
    case Assign(_, rv) => RvalueUses(rv)
  }

  /** `Statement::defs_vars_mut`: an assignment defines its destination, `SsaEntryDefs(vs)` exactly `vs`. */
  function StatementDefs(s: Statement): (r: seq<LocalIndex>)
    ensures s.Nop? || s.StatementUnimplemented? ==> r == []
    ensures s.SsaEntryDefs? ==> r == s.defs
    ensures s.Assign? ==> r == PlaceVars(s.dest)
  {
    match s
    case Nop => []
    case StatementUnimplemented => []
    case Assign(p, _) => PlaceVars(p)
    case SsaEntryDefs(vs) => vs
  }

  /**
   * `Statement::is_phi`: the statement assigns a phi. A phi defines the
   * locals of its destination and uses exactly the locals its arguments name.
   */
  predicate IsPhi(s: Statement): (r: bool)
    ensures r <==> s.Assign? && s.rv.Phi?
    ensures r ==> StatementDefs(s) == PlaceVars(s.dest)
    ensures r ==> forall l: LocalIndex :: l in StatementUses(s) <==> MentionsLocal(s.rv.args, l)
  {
    s.Assign? && s.rv.Phi?
  }

  /**
   * `Statement::phi_arg_mut(j)`: the local of the `j`-th phi argument. The
   * source indexes the argument vector unchecked, so a phi must have a `j`-th
   * argument.
   */
  function PhiArg(s: Statement, j: nat): (r: Option<LocalIndex>)
    requires IsPhi(s) ==> j < |s.rv.args|
    ensures r.Some? <==> IsPhi(s) && s.rv.args[j].Local?
    ensures r.Some? ==> s.rv.args[j] == Local(r.value) && r.value in StatementUses(s)
  {
    if IsPhi(s) && s.rv.args[j].Local? then
      assert MentionsLocal(s.rv.args, s.rv.args[j].idx);
      Some(s.rv.args[j].idx)
    else None
  }

  /** `Operand::uses_vars_mut`. */
  function OperandUses(o: Operand): (r: seq<LocalIndex>)
    ensures o.ConstantOp? ==> r == []
    ensures !o.ConstantOp? ==> r == PlaceVars(o.place)
  {
    match o
    case Copy(p) => PlaceVars(p)
    case Move(p) => PlaceVars(p)
    case ConstantOp(_) => []
  }

  /** `Operand::call_operand_defid`: the callee of a constant of function-definition type. */
  function CallOperandDefId(o: Operand): (r: Option<DefId>)
    ensures r.Some? <==> o.ConstantOp? && o.c.sty.FnDef?
    ensures r.Some? ==> r.value == o.c.sty.defId
  {
    match o
    case ConstantOp(Constant(FnDef(d))) => Some(d)
    case _ => None
  }

  /** `Terminator::uses_vars_mut`. */
  function TerminatorUses(t: Terminator): (r: seq<LocalIndex>)
    ensures t.Return? ==> r == [t.local]
    ensures t.SwitchInt? ==> r == OperandUses(t.discr)
    ensures t.Call? ==> r == OperandUses(t.func)
    ensures t.Assert? ==> r == OperandUses(t.cond)
    ensures t.Yield? ==> r == OperandUses(t.value)
    ensures (t.Goto? || t.Resume? || t.Abort? || t.Unreachable? || t.Drop? || t.DropAndReplace?
             || t.GeneratorDrop?) ==> r == []
  {
    match t
    case GeneratorDrop => []
    case DropAndReplace(_, _) => []
    case Drop(_, _) => []
    case Unreachable => []
    case Goto(_) => []
    case Resume => []
    case Abort => []
    case SwitchInt(discr, _) => OperandUses(discr)
    case Return(v) => [v]
    case Call(func, _, _) => OperandUses(func)
    case Assert(cond, _, _) => OperandUses(cond)
    case Yield(value, _, _) => OperandUses(value)
  }

  /** A phi's uses are exactly its argument locals, in argument order, each once per occurrence. */
  lemma {:induction false} PhiUsesInOrder(ps: seq<Place>, i: nat)
    requires i < |ps| && ps[i].Local?
    ensures CountLocals(ps[..i]) < |PhiUses(ps)|
    ensures PhiUses(ps)[CountLocals(ps[..i])] == ps[i].idx
  {
    if i == 0 {
      assert ps[..0] == [];
    } else {
      assert ps[1..][..i - 1] == ps[..i][1..];
      PhiUsesInOrder(ps[1..], i - 1);
      assert ps[..i][0] == ps[0];
    }
  }

  /** The plain assignment of the source's unit tests: uses `[43]`, defs `[42]`. */
  lemma AssignExample()
    ensures StatementUses(Assign(Local(42), PlaceValue(Local(43)))) == [43]
    ensures StatementDefs(Assign(Local(42), PlaceValue(Local(43)))) == [42]
  {
  }

  /** The phi of the source's unit tests: uses `[100, 200]`, defs `[44]`. */
  lemma PhiExample()
    ensures StatementUses(Assign(Local(44), Phi([Local(100), Local(200)]))) == [100, 200]
    ensures StatementDefs(Assign(Local(44), Phi([Local(100), Local(200)]))) == [44]
  {
    var ps := [Local(100), Local(200)];
    assert ps[1..] == [Local(200)];
    assert ps[1..][1..] == [];
  }
}
