/**
 * Building a TIR trace from a recorded SIR trace (`TirTrace::new` in
 * yktrace/src/tir.rs).
 *
 * The recorded trace is a sequence of SIR block locations. Nothing is
 * traced until the block calling the `interp_step` function; from there on
 * each block's statements are renamed (see VarRenaming) and appended, its
 * terminator becomes `Enter`/`Leave`/`Call` statements, and a branching
 * terminator becomes a guard. A call to a function marked `do_not_trace`
 * becomes a single `Call` and the callee's blocks are skipped up to its
 * return. Every statement is checked to use only locals some earlier (or
 * the same) statement defined, and the last use of each local is recorded
 * for the `StorageDead` insertion (see StorageDeads).
 *
 * Which locals a TIR statement may define and which it uses is computed by
 * code that is not part of this model; it is given as `LocalsOf`.
 */
module TirTrace {
  import opened Wrappers
  import opened TirOps
  import opened VarRenaming
  import opened StorageDeads

  /** A recorded location: a function symbol, a block index and the block's address. */
  datatype SirLoc = SirLoc(symbol: string, bbIdx: nat, addr: Option<nat>)

  /** A function's SIR: its `interp_step`/`do_not_trace` flags, local declarations and blocks. */
  datatype Body = Body(interpStep: bool, doNotTrace: bool, localDecls: seq<LocalDecl>, blocks: seq<Block>)

  /** `maybe_defined_locals` and `used_locals` of a statement. */
  datatype LocalsOf = LocalsOf(defs: Statement -> seq<Local>, uses: Statement -> seq<Local>)

  /** A finished trace: its operations, the renamed locals' declarations and function addresses. */
  datatype Trace = Trace(ops: seq<TirOp>, localDecls: map<Local, LocalDecl>, addrMap: map<string, nat>)

  function SetOf(s: seq<Local>): set<Local> {
    set l | l in s
  }

  /** The locals an operation may define: a guard defines none. */
  function DefsOf(op: TirOp, lo: LocalsOf): set<Local> {
    if op.Stmt? then SetOf(lo.defs(op.s)) else {}
  }

  /** The locals an operation uses: a guard's value is not counted as a use. */
  function UsesOf(op: TirOp, lo: LocalsOf): set<Local> {
    if op.Stmt? then SetOf(lo.uses(op.s)) else {}
  }

  /** The locals defined by the statements among `ops`. */
  function DefinedIn(ops: seq<TirOp>, lo: LocalsOf): set<Local> {
    if |ops| == 0 then {} else DefinedIn(ops[..|ops| - 1], lo) + DefsOf(ops[|ops| - 1], lo)
  }

  /** `l` is defined by some statement among `ops`: the witness of `DefinedIn`. */
  lemma {:induction false} DefinedInSpec(ops: seq<TirOp>, lo: LocalsOf, l: Local)
    ensures l in DefinedIn(ops, lo) <==> exists j :: 0 <= j < |ops| && l in DefsOf(ops[j], lo)
  {
    if |ops| > 0 {
      var n := |ops| - 1;
      DefinedInSpec(ops[..n], lo, l);
      if l in DefinedIn(ops[..n], lo) {
        var j :| 0 <= j < n && l in DefsOf(ops[..n][j], lo);
        assert ops[j] == ops[..n][j];
      }
      if exists j :: 0 <= j < |ops| && l in DefsOf(ops[j], lo) {
        var j :| 0 <= j < |ops| && l in DefsOf(ops[j], lo);
        if j < n {
          assert ops[..n][j] == ops[j];
        }
      }
    }
  }

  lemma DefinedInAppend(ops: seq<TirOp>, lo: LocalsOf, x: TirOp)
    ensures DefinedIn(ops + [x], lo) == DefinedIn(ops, lo) + DefsOf(x, lo)
  {
    assert (ops + [x])[..|ops|] == ops;
  }

  /** Whether operation `i` uses `l`. */
  predicate UsesAt(ops: seq<TirOp>, lo: LocalsOf, i: nat, l: Local)
    requires i < |ops|
  {
    l in UsesOf(ops[i], lo)
  }

  /**
   * The def/use rule: every local a statement uses, other than
   * `interp_step`'s argument (live throughout), is defined by that
   * statement or an earlier one.
   */
  ghost predicate DefsBeforeUses(ops: seq<TirOp>, lo: LocalsOf) {
    forall i, l :: 0 <= i < |ops| && UsesAt(ops, lo, i, l) && l != INTERP_STEP_ARG ==>
      l in DefinedIn(ops[..i + 1], lo)
  }

  /**
   * `lastUse` maps exactly the used locals (other than `interp_step`'s
   * argument) to the index of the last statement using them.
   */
  ghost predicate IsLastUseTable(lastUse: map<Local, nat>, ops: seq<TirOp>, lo: LocalsOf) {
    && (forall l :: l in lastUse ==>
          && l != INTERP_STEP_ARG
          && lastUse[l] < |ops| && UsesAt(ops, lo, lastUse[l], l)
          && forall j :: lastUse[l] < j < |ops| ==> !UsesAt(ops, lo, j, l))
    && (forall i, l :: 0 <= i < |ops| && UsesAt(ops, lo, i, l) && l != INTERP_STEP_ARG ==> l in lastUse)
  }

  /**
   * `defSites` maps each defined local to the first statement defining it;
   * `interp_step`'s argument counts as defined at index 0.
   */
  ghost predicate IsDefSiteTable(defSites: map<Local, nat>, ops: seq<TirOp>, lo: LocalsOf) {
    && INTERP_STEP_ARG in defSites && defSites[INTERP_STEP_ARG] == 0
    && forall l :: l in defSites && l != INTERP_STEP_ARG ==>
         && defSites[l] < |ops| && l in DefsOf(ops[defSites[l]], lo)
         && l !in DefinedIn(ops[..defSites[l]], lo)
  }

  ghost predicate NoStorageDeads(ops: seq<TirOp>) {
    forall i :: 0 <= i < |ops| ==> !(ops[i].Stmt? && ops[i].s.StorageDead?)
  }

  /** The bookkeeping of the def/use check agrees with the operations so far. */
  ghost predicate DefUseState(ops: seq<TirOp>, lo: LocalsOf, defined: set<Local>,
                              defSites: map<Local, nat>, lastUse: map<Local, nat>) {
    && defined == {INTERP_STEP_ARG} + DefinedIn(ops, lo)
    && defSites.Keys == defined
    && IsDefSiteTable(defSites, ops, lo)
    && DefsBeforeUses(ops, lo)
    && IsLastUseTable(lastUse, ops, lo)
    && NoStorageDeads(ops)
  }

  /** A statement's definitions are recorded; of its uses none may be undefined. */
  predicate UsesDefined(st: Statement, lo: LocalsOf, defined: set<Local>) {
    forall l :: l in lo.uses(st) && l != INTERP_STEP_ARG ==> l in defined
  }

  lemma {:induction false} DefsBeforeUsesAppend(ops: seq<TirOp>, lo: LocalsOf, x: TirOp)
    requires DefsBeforeUses(ops, lo)
    requires forall l :: l in UsesOf(x, lo) && l != INTERP_STEP_ARG ==> l in DefinedIn(ops + [x], lo)
    ensures DefsBeforeUses(ops + [x], lo)
  {
    var ops' := ops + [x];
    forall i, l | 0 <= i < |ops'| && UsesAt(ops', lo, i, l) && l != INTERP_STEP_ARG
      ensures l in DefinedIn(ops'[..i + 1], lo)
    {
      if i < |ops| {
        assert ops'[..i + 1] == ops[..i + 1];
        assert UsesAt(ops, lo, i, l);
      } else {
        assert ops'[..i + 1] == ops';
      }
    }
  }

  lemma {:induction false} DefSitesAppend(ops: seq<TirOp>, lo: LocalsOf, defined: set<Local>,
                                          defSites: map<Local, nat>, x: TirOp, defs: set<Local>)
    requires IsDefSiteTable(defSites, ops, lo)
    requires defSites.Keys == defined == {INTERP_STEP_ARG} + DefinedIn(ops, lo)
    requires defs == DefsOf(x, lo)
    ensures IsDefSiteTable(defSites + ConstMap(defs - defined, |ops|), ops + [x], lo)
  {
    var ops' := ops + [x];
    var defSites' := defSites + ConstMap(defs - defined, |ops|);
    forall l | l in defSites' && l != INTERP_STEP_ARG
      ensures defSites'[l] < |ops'| && l in DefsOf(ops'[defSites'[l]], lo)
      ensures l !in DefinedIn(ops'[..defSites'[l]], lo)
    {
      if l in defSites {
        var k := defSites[l];
        assert ops'[k] == ops[k];
        assert ops'[..k] == ops[..k];
      } else {
        assert ops'[..|ops|] == ops;
      }
    }
  }

  lemma {:induction false} LastUseAppend(ops: seq<TirOp>, lo: LocalsOf, lastUse: map<Local, nat>, x: TirOp,
                                         uses: set<Local>)
    requires IsLastUseTable(lastUse, ops, lo)
    requires uses == UsesOf(x, lo)
    ensures IsLastUseTable(lastUse + ConstMap(uses - {INTERP_STEP_ARG}, |ops|), ops + [x], lo)
  {
    var ops' := ops + [x];
    var lastUse' := lastUse + ConstMap(uses - {INTERP_STEP_ARG}, |ops|);
    forall l | l in lastUse'
      ensures l != INTERP_STEP_ARG && lastUse'[l] < |ops'| && UsesAt(ops', lo, lastUse'[l], l)
      ensures forall j :: lastUse'[l] < j < |ops'| ==> !UsesAt(ops', lo, j, l)
    {
      if l !in UsesOf(x, lo) || l == INTERP_STEP_ARG {
        var k := lastUse[l];
        assert ops'[k] == ops[k];
        forall j | k < j < |ops'|
          ensures !UsesAt(ops', lo, j, l)
        {
          if j < |ops| {
            assert ops'[j] == ops[j];
            assert !UsesAt(ops, lo, j, l);
          }
        }
      }
    }
    forall i, l | 0 <= i < |ops'| && UsesAt(ops', lo, i, l) && l != INTERP_STEP_ARG
      ensures l in lastUse'
    {
      if i < |ops| {
        assert ops'[i] == ops[i];
        assert UsesAt(ops, lo, i, l);
      }
    }
  }

  /** Appending a statement whose uses are defined keeps the bookkeeping in step. */
  lemma AppendStatement(ops: seq<TirOp>, lo: LocalsOf, defined: set<Local>,
                        defSites: map<Local, nat>, lastUse: map<Local, nat>, st: Statement)
    requires DefUseState(ops, lo, defined, defSites, lastUse)
    requires !st.StorageDead?
    requires UsesDefined(st, lo, defined + SetOf(lo.defs(st)))
    ensures DefUseState(ops + [Stmt(st)], lo, defined + SetOf(lo.defs(st)),
                        defSites + ConstMap(SetOf(lo.defs(st)) - defined, |ops|),
                        lastUse + ConstMap(SetOf(lo.uses(st)) - {INTERP_STEP_ARG}, |ops|))
  {
    var x := Stmt(st);
    var ops' := ops + [x];
    var defSites' := defSites + ConstMap(SetOf(lo.defs(st)) - defined, |ops|);
    var lastUse' := lastUse + ConstMap(SetOf(lo.uses(st)) - {INTERP_STEP_ARG}, |ops|);
    assert DefinedIn(ops', lo) == DefinedIn(ops, lo) + SetOf(lo.defs(st)) by {
      DefinedInAppend(ops, lo, x);
    }
    assert DefsBeforeUses(ops', lo) by {
      DefsBeforeUsesAppend(ops, lo, x);
    }
    assert IsDefSiteTable(defSites', ops', lo) by {
      DefSitesAppend(ops, lo, defined, defSites, x, SetOf(lo.defs(st)));
    }
    assert IsLastUseTable(lastUse', ops', lo) by {
      LastUseAppend(ops, lo, lastUse, x, SetOf(lo.uses(st)));
    }
    assert NoStorageDeads(ops') by {
      assert forall i :: 0 <= i < |ops| ==> ops'[i] == ops[i];
    }
  }

  /** Appending a guard changes none of the bookkeeping. */
  lemma AppendGuard(ops: seq<TirOp>, lo: LocalsOf, defined: set<Local>,
                    defSites: map<Local, nat>, lastUse: map<Local, nat>, g: Guard)
    requires DefUseState(ops, lo, defined, defSites, lastUse)
    ensures DefUseState(ops + [GuardOp(g)], lo, defined, defSites, lastUse)
  {
    var x := GuardOp(g);
    DefinedInAppend(ops, lo, x);
    DefsBeforeUsesAppend(ops, lo, x);
    var none: set<Local> := {};
    DefSitesAppend(ops, lo, defined, defSites, x, none);
    LastUseAppend(ops, lo, lastUse, x, none);
    assert ConstMap(none - defined, |ops|) == map[];
    assert ConstMap(none - {INTERP_STEP_ARG}, |ops|) == map[];
    assert defSites + map[] == defSites;
    assert lastUse + map[] == lastUse;
    assert forall i :: 0 <= i < |ops| ==> (ops + [x])[i] == ops[i];
  }

  /** The locals of `defs` not yet in `defined`, in order (`filter_map` over `maybe_defined_locals`). */
  function NewlyDefined(defs: seq<Local>, defined: set<Local>): (r: seq<Local>)
    ensures forall l :: l in r <==> l in defs && l !in defined
  {
    if |defs| == 0 then []
    else (if defs[0] in defined then [] else [defs[0]]) + NewlyDefined(defs[1..], defined)
  }

  /** The state the def/use check keeps while the trace is built (`update_defined_locals`). */
  class DefUse {
    var defined: set<Local>
    var defSites: map<Local, nat>
    var lastUseSites: map<Local, nat>

    /** Only `interp_step`'s argument is defined, by the first statement. */
    constructor()
      ensures defined == {INTERP_STEP_ARG} && defSites == map[INTERP_STEP_ARG := 0] && lastUseSites == map[]
    {
      defined := {INTERP_STEP_ARG};
      defSites := map[INTERP_STEP_ARG := 0];
      lastUseSites := map[];
    }

    /**
     * Statement `op` at index `opIdx`: the locals it defines are defined
     * from here on, those defined for the first time here get `opIdx` as
     * their definition site; then each local it uses must be defined, and
     * `opIdx` becomes its last use. `bad` is the first undefined local it
     * uses, where the source panics.
     */
    method Update(op: Statement, opIdx: nat, lo: LocalsOf) returns (bad: Option<Local>)
      modifies this
      ensures defined == old(defined) + SetOf(lo.defs(op))
      ensures defSites == old(defSites) + ConstMap(SetOf(lo.defs(op)) - old(defined), opIdx)
      ensures bad == FirstUndefined(lo.uses(op), defined)
      ensures bad.None? ==> lastUseSites == old(lastUseSites) + ConstMap(SetOf(lo.uses(op)) - {INTERP_STEP_ARG}, opIdx)
    {
      var newly := NewlyDefined(lo.defs(op), defined);
      StampNewly(defSites, lo.defs(op), defined, opIdx);
      defined := defined + SetOf(newly);
      defSites := StampAll(defSites, newly, opIdx);
      var used;
      bad, used := RecordUses(lastUseSites, lo.uses(op), defined, opIdx);
      if bad.None? {
        StampUses(lastUseSites, lo.uses(op), opIdx);
        lastUseSites := used;
      }
    }
  }

  /** Each local of `s` mapped to `v` in `m`, one by one. */
  method StampAll(m: map<Local, nat>, s: seq<Local>, v: nat) returns (r: map<Local, nat>)
    ensures r == Stamp(m, s, v, false)
  {
    r := m;
    for i := 0 to |s|
      invariant r == Stamp(m, s[..i], v, false)
    {
      assert s[..i + 1][..i] == s[..i];
      r := r[s[i] := v];
    }
    assert s[..|s|] == s;
  }

  /**
   * The first local of `uses`, `interp_step`'s argument aside, that is not
   * in `defined`: the one `update_defined_locals` panics on.
   */
  function FirstUndefined(uses: seq<Local>, defined: set<Local>): (r: Option<Local>)
    ensures r.None? <==> forall l :: l in uses && l != INTERP_STEP_ARG ==> l in defined
    ensures r.Some? ==> r.value in uses && r.value != INTERP_STEP_ARG && r.value !in defined
  {
    if |uses| == 0 then None
    else if uses[0] != INTERP_STEP_ARG && uses[0] !in defined then Some(uses[0])
    else FirstUndefined(uses[1..], defined)
  }

  /**
   * The uses loop of `update_defined_locals`: each use but `interp_step`'s
   * argument must be defined and gets `v` as its last use. It stops at the
   * first undefined one, `bad`.
   */
  method RecordUses(lastUse: map<Local, nat>, uses: seq<Local>, defined: set<Local>, v: nat)
    returns (bad: Option<Local>, r: map<Local, nat>)
    ensures bad == FirstUndefined(uses, defined)
    ensures bad.None? ==> r == Stamp(lastUse, uses, v, true)
  {
    r := lastUse;
    for i := 0 to |uses|
      invariant r == Stamp(lastUse, uses[..i], v, true)
      invariant FirstUndefined(uses, defined) == FirstUndefined(uses[i..], defined)
    {
      var lcl := uses[i];
      assert uses[..i + 1][..i] == uses[..i];
      assert uses[i..][1..] == uses[i + 1..];
      if lcl == INTERP_STEP_ARG {
        continue;
      }
      if lcl !in defined {
        return Some(lcl), r;
      }
      r := r[lcl := v];
    }
    assert uses[..|uses|] == uses;
    bad := None;
  }

  /** `m` with each local of `s` (but `interp_step`'s argument when `skipArg`) mapped to `v`, in order. */
  function Stamp(m: map<Local, nat>, s: seq<Local>, v: nat, skipArg: bool): map<Local, nat> {
    if |s| == 0 then m
    else
      var m' := Stamp(m, s[..|s| - 1], v, skipArg);
      if skipArg && s[|s| - 1] == INTERP_STEP_ARG then m' else m'[s[|s| - 1] := v]
  }

  /** Every local of `keys` mapped to `v`. */
  function ConstMap(keys: set<Local>, v: nat): (r: map<Local, nat>)
    ensures r.Keys == keys && forall l :: l in r ==> r[l] == v
  {
    map l | l in keys :: v
  }

  /** Stamping one local after the others adds it to the stamped keys. */
  lemma StampOne(m: map<Local, nat>, keys: set<Local>, l: Local, v: nat)
    ensures (m + ConstMap(keys, v))[l := v] == m + ConstMap(keys + {l}, v)
  {
  }

  lemma {:induction false} StampSpec(m: map<Local, nat>, s: seq<Local>, v: nat, skipArg: bool)
    ensures Stamp(m, s, v, skipArg) == m + ConstMap(SetOf(s) - (if skipArg then {INTERP_STEP_ARG} else {}), v)
  {
    if |s| == 0 {
      assert ConstMap({}, v) == map[];
    } else {
      var init, x := s[..|s| - 1], s[|s| - 1];
      var skip: set<Local> := if skipArg then {INTERP_STEP_ARG} else {};
      StampSpec(m, init, v, skipArg);
      assert SetOf(s) == SetOf(init) + {x} by {
        assert s == init + [x];
      }
      if skipArg && x == INTERP_STEP_ARG {
        assert SetOf(s) - skip == SetOf(init) - skip;
      } else {
        StampOne(m, SetOf(init) - skip, x, v);
        assert SetOf(s) - skip == (SetOf(init) - skip) + {x};
      }
    }
  }

  lemma {:induction false} StampNewly(m: map<Local, nat>, defs: seq<Local>, defined: set<Local>, v: nat)
    ensures Stamp(m, NewlyDefined(defs, defined), v, false) == m + ConstMap(SetOf(defs) - defined, v)
  {
    var newly := NewlyDefined(defs, defined);
    StampSpec(m, newly, v, false);
    assert SetOf(newly) - {} == SetOf(defs) - defined;
  }

  lemma {:induction false} StampUses(m: map<Local, nat>, uses: seq<Local>, v: nat)
    ensures Stamp(m, uses, v, true) == m + ConstMap(SetOf(uses) - {INTERP_STEP_ARG}, v)
  {
    StampSpec(m, uses, v, true);
  }

  /** A statement renamed by `offset` (`rename_iplace` on each of its places). */
  function ShiftStatement(st: Statement, offset: nat): Statement {
    match st
    case MkRef(d, s) => MkRef(ShiftPlace(d, offset), ShiftPlace(s, offset))
    case IStore(d, s) => IStore(ShiftPlace(d, offset), ShiftPlace(s, offset))
    case BinaryOp(d, op, a, b, c) => BinaryOp(ShiftPlace(d, offset), op, ShiftPlace(a, offset), ShiftPlace(b, offset), c)
    case _ => st
  }

  /** Statements that only TIR has and so cannot appear in a SIR block. */
  predicate TirOnly(st: Statement) {
    st.StorageDead? || st.Call? || st.Enter? || st.Leave?
  }

  /** A SIR statement every place of which names one of the `n` locals of its function. */
  predicate Renamable(st: Statement, n: nat) {
    !TirOnly(st) && StatementInRange(st, n)
  }

  /** Whether every place of the statement names one of the `n` locals of its function. */
  predicate StatementInRange(st: Statement, n: nat) {
    match st
    case MkRef(d, s) => InRange(d, n) && InRange(s, n)
    case IStore(d, s) => InRange(d, n) && InRange(s, n)
    case BinaryOp(d, _, a, b, _) => InRange(d, n) && InRange(a, n) && InRange(b, n)
    case _ => true
  }

  /** Renaming keeps statements apart and never makes a SIR statement a TIR-only one. */
  lemma ShiftStatementInjective(st1: Statement, st2: Statement, offset: nat)
    requires st1 != st2
    ensures ShiftStatement(st1, offset) != ShiftStatement(st2, offset)
    ensures TirOnly(ShiftStatement(st1, offset)) == TirOnly(st1)
  {
    match st1 {
      case MkRef(d, s) =>
        if st2.MkRef? {
          if d != st2.dest { ShiftPlaceInjective(d, st2.dest, offset); }
          else { ShiftPlaceInjective(s, st2.src, offset); }
        }
      case IStore(d, s) =>
        if st2.IStore? {
          if d != st2.dest { ShiftPlaceInjective(d, st2.dest, offset); }
          else { ShiftPlaceInjective(s, st2.src, offset); }
        }
      case BinaryOp(d, op, a, b, c) =>
        if st2.BinaryOp? {
          if d != st2.dest { ShiftPlaceInjective(d, st2.dest, offset); }
          else if a != st2.opnd1 { ShiftPlaceInjective(a, st2.opnd1, offset); }
          else if b != st2.opnd2 { ShiftPlaceInjective(b, st2.opnd2, offset); }
        }
      case _ =>
    }
  }

  /**
   * The renaming of one statement of a traced SIR block. `NotSirStatement`
   * where the source reaches `unreachable!` (a TIR-only statement in SIR),
   * `NoSuchLocal` where it indexes past the function's locals.
   */
  method RenameStatement(rnm: VarRenamer, st: Statement, decls: seq<LocalDecl>) returns (r: Result<Statement>)
    requires rnm.Valid()
    modifies rnm
    ensures rnm.Valid()
    ensures rnm.stack == old(rnm.stack) && rnm.offset == old(rnm.offset)
    ensures rnm.acc == old(rnm.acc) && rnm.retLocals == old(rnm.retLocals)
    ensures TirOnly(st) ==> r == Err(NotSirStatement)
    ensures r.Ok? <==> Renamable(st, |decls|)
    ensures r.Err? && !TirOnly(st) ==> r.err == NoSuchLocal
    ensures r.Ok? ==> r.value == ShiftStatement(st, rnm.offset)
    ensures r == RenameSpec(st, |decls|, rnm.offset)
  {
    match st {
      case MkRef(d, s) =>
        var d' := rnm.RenameIPlace(d, decls);
        if d'.None? { return Err(NoSuchLocal); }
        var s' := rnm.RenameIPlace(s, decls);
        if s'.None? { return Err(NoSuchLocal); }
        r := Ok(MkRef(d'.value, s'.value));
      case IStore(d, s) =>
        var d' := rnm.RenameIPlace(d, decls);
        if d'.None? { return Err(NoSuchLocal); }
        var s' := rnm.RenameIPlace(s, decls);
        if s'.None? { return Err(NoSuchLocal); }
        r := Ok(IStore(d'.value, s'.value));
      case BinaryOp(d, op, a, b, c) =>
        var d' := rnm.RenameIPlace(d, decls);
        if d'.None? { return Err(NoSuchLocal); }
        var a' := rnm.RenameIPlace(a, decls);
        if a'.None? { return Err(NoSuchLocal); }
        var b' := rnm.RenameIPlace(b, decls);
        if b'.None? { return Err(NoSuchLocal); }
        r := Ok(BinaryOp(d'.value, op, a'.value, b'.value, c));
      case Nop => r := Ok(st);
      case Debug(_) => r := Ok(st);
      case UnimplementedStmt(_) => r := Ok(st);
      case StorageDead(_) => r := Err(NotSirStatement);
      case Call(_, _, _) => r := Err(NotSirStatement);
      case Enter(_, _, _, _) => r := Err(NotSirStatement);
      case Leave => r := Err(NotSirStatement);
    }
  }

  /** Statements renamed by `offset`, in order. */
  function ShiftStatements(stmts: seq<Statement>, offset: nat): (r: seq<Statement>)
    ensures |r| == |stmts| && forall i :: 0 <= i < |stmts| ==> r[i] == ShiftStatement(stmts[i], offset)
  {
    if |stmts| == 0 then [] else ShiftStatements(stmts[..|stmts| - 1], offset) + [ShiftStatement(stmts[|stmts| - 1], offset)]
  }

  /** Places renamed by `offset`, in order (what `rename_args` gives). */
  function ShiftPlaces(ps: seq<IPlace>, offset: nat): (r: seq<IPlace>)
    ensures |r| == |ps| && forall i :: 0 <= i < |ps| ==> r[i] == ShiftPlace(ps[i], offset)
    ensures forall i :: 0 <= i < |ps| ==> PlaceTy(r[i]) == PlaceTy(ps[i])
  {
    if |ps| == 0 then [] else ShiftPlaces(ps[..|ps| - 1], offset) + [ShiftPlace(ps[|ps| - 1], offset)]
  }

  /** Renaming one more statement of `stmts` adds its renaming at the end. */
  lemma ShiftStatementsStep(stmts: seq<Statement>, i: nat, offset: nat)
    requires i < |stmts|
    ensures ShiftStatements(stmts[..i + 1], offset) == ShiftStatements(stmts[..i], offset) + [ShiftStatement(stmts[i], offset)]
  {
    assert stmts[..i + 1][..i] == stmts[..i];
  }

  /** The operations for a sequence of statements. */
  function StmtOps(stmts: seq<Statement>): (r: seq<TirOp>)
    ensures |r| == |stmts| && forall i :: 0 <= i < |stmts| ==> r[i] == Stmt(stmts[i])
  {
    if |stmts| == 0 then [] else StmtOps(stmts[..|stmts| - 1]) + [Stmt(stmts[|stmts| - 1])]
  }

  lemma StmtOpsSnoc(stmts: seq<Statement>, i: nat)
    requires i < |stmts|
    ensures StmtOps(stmts[..i + 1]) == StmtOps(stmts[..i]) + [Stmt(stmts[i])]
  {
    assert stmts[..i + 1][..i] == stmts[..i];
  }

  /** The return local of the innermost inlined call, as an `IStore` source of type `ty`. */
  function ReturnSource(offset: nat, ty: TypeId): IPlace {
    Val(offset, 0, ty)
  }

  /**
   * How the traced call and return events pair up with return places.
   * `Inlined` is a call whose callee's blocks are traced; `Opaque` one whose
   * callee's blocks never are (`do_not_trace`, or no SIR); `Returned` is the
   * return of an inlined callee.
   */
  datatype CallEvent = Inlined(ret: IPlace) | Opaque(ret: IPlace) | Returned

  /**
   * The places returns store into, as the source pairs them: every call
   * pushes its return place and every return pops one. `None` when a return
   * finds no place.
   */
  function ReturnPlacesAsWritten(evs: seq<CallEvent>, pending: seq<IPlace>): Option<seq<IPlace>>
  {
    if |evs| == 0 then Some([])
    else match evs[0]
      case Inlined(p) => ReturnPlacesAsWritten(evs[1..], pending + [p])
      case Opaque(p) => ReturnPlacesAsWritten(evs[1..], pending + [p])
      case Returned =>
        if |pending| == 0 then None
        else
          var rest := ReturnPlacesAsWritten(evs[1..], pending[..|pending| - 1]);
          if rest.None? then None else Some([pending[|pending| - 1]] + rest.value)
  }

  /** The pairing as intended: only inlined calls push a place, since only they return in the trace. */
  function ReturnPlaces(evs: seq<CallEvent>, pending: seq<IPlace>): Option<seq<IPlace>>
  {
    if |evs| == 0 then Some([])
    else match evs[0]
      case Inlined(p) => ReturnPlaces(evs[1..], pending + [p])
      case Opaque(_) => ReturnPlaces(evs[1..], pending)
      case Returned =>
        if |pending| == 0 then None
        else
          var rest := ReturnPlaces(evs[1..], pending[..|pending| - 1]);
          if rest.None? then None else Some([pending[|pending| - 1]] + rest.value)
  }

  /**
   * An inlined function that makes a `do_not_trace` (or native) call and
   * then returns stores its result into that call's destination instead of
   * its own.
   */
  lemma OpaqueCallMisdirectsReturn(a: IPlace, b: IPlace)
    requires a != b
    ensures ReturnPlacesAsWritten([Inlined(a), Opaque(b), Returned], []) == Some([b])
    ensures ReturnPlaces([Inlined(a), Opaque(b), Returned], []) == Some([a])
  {
    var evs := [Inlined(a), Opaque(b), Returned];
    assert evs[1..] == [Opaque(b), Returned];
    assert evs[1..][1..] == [Returned];
    assert [Returned][1..] == [];
    assert [a, b][..1] == [a];
    var one: seq<CallEvent> := [Returned];
    assert one[0] == Returned && one[1..] == [];
    assert ReturnPlacesAsWritten([], [a]) == Some([]);
    assert [a, b][1] == b && [b] + [] == [b];
    assert ReturnPlacesAsWritten(one, [a, b]) == Some([b]);
    assert ReturnPlaces([], []) == Some([]);
    assert [a][..0] == [] && [a] + [] == [a];
    assert ReturnPlaces(one, [a]) == Some([a]);
    assert [] + [a] == [a] && [a] + [b] == [a, b];
    assert ReturnPlacesAsWritten(evs[1..], [a]) == Some([b]);
    assert ReturnPlaces(evs[1..], [a]) == Some([a]);
  }

  function WithoutOpaque(evs: seq<CallEvent>): (r: seq<CallEvent>)
    ensures forall i :: 0 <= i < |r| ==> !r[i].Opaque?
  {
    if |evs| == 0 then []
    else (if evs[0].Opaque? then [] else [evs[0]]) + WithoutOpaque(evs[1..])
  }

  /**
   * With the intended pairing, calls that never return in the trace do not
   * affect where returns store; without such calls both pairings agree.
   */
  lemma {:induction false} ReturnPlacesIgnoreOpaque(evs: seq<CallEvent>, pending: seq<IPlace>)
    ensures ReturnPlaces(evs, pending) == ReturnPlaces(WithoutOpaque(evs), pending)
    ensures (forall i :: 0 <= i < |evs| ==> !evs[i].Opaque?) ==>
              ReturnPlacesAsWritten(evs, pending) == ReturnPlaces(evs, pending)
  {
    if |evs| > 0 {
      var w := WithoutOpaque(evs);
      assert evs[0].Opaque? ==> w == WithoutOpaque(evs[1..]);
      assert !evs[0].Opaque? ==> w[0] == evs[0] && w[1..] == WithoutOpaque(evs[1..]);
      match evs[0] {
        case Inlined(p) =>
          ReturnPlacesIgnoreOpaque(evs[1..], pending + [p]);
        case Opaque(_) =>
          ReturnPlacesIgnoreOpaque(evs[1..], pending);
        case Returned =>
          if |pending| > 0 {
            ReturnPlacesIgnoreOpaque(evs[1..], pending[..|pending| - 1]);
          }
      }
      if forall i :: 0 <= i < |evs| ==> !evs[i].Opaque? {
        assert forall i :: 0 <= i < |evs[1..]| ==> !evs[1..][i].Opaque? by {
          forall i | 0 <= i < |evs[1..]| ensures !evs[1..][i].Opaque? {
            assert evs[1..][i] == evs[i + 1];
          }
        }
      }
    }
  }

  /**
   * A lowered `Call` terminator: its statements, the function whose blocks
   * are to be skipped (`do_not_trace`), and the place the callee's return
   * value goes to when the call is inlined.
   */
  datatype LoweredCall = LoweredCall(stmts: seq<Statement>, skip: Option<string>, pendingReturn: Option<IPlace>)

  /** Whether every place has a type. */
  predicate Typed(ps: seq<IPlace>) {
    forall i :: 0 <= i < |ps| ==> PlaceTy(ps[i]).Some?
  }

  /** The store of argument `i` into local `i + 1 + offset`, for each argument. */
  function StoresOf(args: seq<IPlace>, offset: nat): (r: seq<Statement>)
    requires Typed(args)
    ensures |r| == |args|
    ensures forall i :: 0 <= i < |args| ==> r[i] == IStore(Val(i + 1 + offset, 0, PlaceTy(args[i]).value), args[i])
  {
    if |args| == 0 then []
    else StoresOf(args[..|args| - 1], offset)
         + [IStore(Val(|args| + offset, 0, PlaceTy(args[|args| - 1]).value), args[|args| - 1])]
  }

  /**
   * The stores of an inlined call's arguments (already renamed, as
   * `newargs`) into the callee's locals 1, 2, ... . Those locals take their
   * declarations from `decls`, which the source passes as the calling
   * function's body.
   */
  method ArgStores(rnm: VarRenamer, newargs: seq<IPlace>, decls: seq<LocalDecl>) returns (r: Result<seq<Statement>>)
    requires rnm.Valid()
    modifies rnm
    ensures rnm.Valid()
    ensures rnm.stack == old(rnm.stack) && rnm.offset == old(rnm.offset)
    ensures rnm.acc == old(rnm.acc) && rnm.retLocals == old(rnm.retLocals)
    ensures r.Ok? <==> (|newargs| == 0 || |newargs| < |decls|) && Typed(newargs)
    ensures r.Err? ==> r.err == NoSuchLocal || r.err == UntypedPlace
    ensures r.Ok? <==> ArgsError(newargs, |decls|, 0).None?
    ensures r.Err? ==> r.err == ArgsError(newargs, |decls|, 0).value
    ensures r.Ok? ==> Typed(newargs) && r.value == StoresOf(newargs, rnm.offset)
  {
    var stmts: seq<Statement> := [];
    for i := 0 to |newargs|
      invariant rnm.Valid()
      invariant rnm.stack == old(rnm.stack) && rnm.offset == old(rnm.offset)
      invariant rnm.acc == old(rnm.acc) && rnm.retLocals == old(rnm.retLocals)
      invariant i == 0 || i < |decls|
      invariant ArgsError(newargs, |decls|, 0) == ArgsError(newargs, |decls|, i)
      invariant |stmts| == i
      invariant forall k :: 0 <= k < i ==>
                  PlaceTy(newargs[k]).Some? &&
                  stmts[k] == IStore(Val(k + 1 + rnm.offset, 0, PlaceTy(newargs[k]).value), newargs[k])
    {
      var destLocal := rnm.RenameLocal(i + 1, decls);
      if destLocal.None? {
        return Err(NoSuchLocal);
      }
      var ty := PlaceTy(newargs[i]);
      if ty.None? {
        return Err(UntypedPlace);
      }
      stmts := stmts + [IStore(Val(destLocal.value, 0, ty.value), newargs[i])];
    }
    assert Typed(newargs);
    r := Ok(stmts);
  }

  predicate NoDeads(stmts: seq<Statement>) {
    forall i :: 0 <= i < |stmts| ==> !stmts[i].StorageDead?
  }

  /**
   * An inlined call: the renamer enters the callee, then an `Enter` is
   * followed by the stores of the (renamed) arguments.
   */
  method EnterCall(rnm: VarRenamer, func: CallOperand, newargs: seq<IPlace>, ret: IPlace, numLocals: nat,
                   decls: seq<LocalDecl>) returns (r: Result<seq<Statement>>)
    requires rnm.Valid() && rnm.acc.Some?
    modifies rnm
    ensures rnm.Valid()
    ensures rnm.offset == old(rnm.acc).value && rnm.acc == Some(old(rnm.acc).value + numLocals)
    ensures rnm.stack == old(rnm.stack) + [rnm.offset]
    ensures r.Err? ==> r.err == NoSuchLocal || r.err == UntypedPlace
    ensures r.Ok? <==> ArgsError(newargs, |decls|, 0).None?
    ensures r.Err? ==> r.err == ArgsError(newargs, |decls|, 0).value
    ensures r.Ok? ==> Typed(newargs) && r.value == [Enter(func, newargs, Some(ret), rnm.offset)] + StoresOf(newargs, rnm.offset)
    ensures r.Ok? ==> NoDeads(r.value)
  {
    var entered := rnm.Enter(numLocals);
    var stores := ArgStores(rnm, newargs, decls);
    if stores.Err? {
      return Err(stores.err);
    }
    r := Ok([Enter(func, newargs, Some(ret), rnm.offset)] + stores.value);
  }

  /**
   * The statements a traced `Call` terminator becomes. The destination and
   * arguments are renamed in the caller. A call to a `do_not_trace`
   * function, or to one without SIR, becomes a single `Call`, and for the
   * former the callee's blocks are to be skipped. Any other call is
   * inlined: the renamer enters it, its destination waits for the callee's
   * return, and an `Enter` is followed by the stores of the arguments.
   */
  method LowerCall(rnm: VarRenamer, sir: map<string, Body>, func: CallOperand, args: seq<IPlace>,
                   destination: Option<(IPlace, nat)>, decls: seq<LocalDecl>) returns (r: Result<LoweredCall>)
    requires rnm.Valid() && rnm.acc.Some?
    modifies rnm
    ensures rnm.Valid()
    ensures r == LowerSpec(sir, old(rnm.offset), old(rnm.acc).value, func, args, destination, |decls|)
    ensures r.Ok? && r.value.pendingReturn.None? ==>
              && rnm.stack == old(rnm.stack) && rnm.offset == old(rnm.offset) && rnm.retLocals == old(rnm.retLocals)
              && rnm.acc == old(rnm.acc)
    ensures r.Ok? && r.value.pendingReturn.Some? ==>
              && rnm.offset == old(rnm.acc).value
              && rnm.acc == Some(old(rnm.acc).value + |sir[CalleeSymbol(func).value].localDecls|)
              && rnm.stack == old(rnm.stack) + [rnm.offset]
  {
    var parts := RenameCall(rnm, func, args, destination, decls);
    if parts.Err? {
      return Err(parts.err);
    }
    r := CallOrInline(rnm, sir, func, CalleeSymbol(func).value, parts.value.1, parts.value.0, decls);
  }

  /**
   * The first half of `LowerCall`: the destination is renamed, the callee's
   * symbol looked up and the arguments renamed, in that order, each failing
   * as `CallPlacesError` says. Renaming leaves the renamer's state alone.
   */
  method RenameCall(rnm: VarRenamer, func: CallOperand, args: seq<IPlace>,
                    destination: Option<(IPlace, nat)>, decls: seq<LocalDecl>) returns (r: Result<(IPlace, seq<IPlace>)>)
    requires rnm.Valid()
    modifies rnm
    ensures rnm.Valid()
    ensures rnm.stack == old(rnm.stack) && rnm.offset == old(rnm.offset) && rnm.acc == old(rnm.acc)
    ensures rnm.retLocals == old(rnm.retLocals)
    ensures r.Err? <==> CallPlacesError(func, args, destination, |decls|).Some?
    ensures r.Err? ==> r.err == CallPlacesError(func, args, destination, |decls|).value
    ensures r.Ok? ==> r.value == (ShiftPlace(destination.value.0, rnm.offset), ShiftPlaces(args, rnm.offset))
  {
    if destination.None? {
      return Err(NoDestination);
    }
    var ret := rnm.RenameIPlace(destination.value.0, decls);
    if ret.None? {
      return Err(NoSuchLocal);
    }
    var sym := CalleeSymbol(func);
    if sym.None? {
      return Err(UnknownCalleeCall);
    }
    var newargs := rnm.RenameArgs(args, decls);
    if newargs.None? {
      return Err(NoSuchLocal);
    }
    assert newargs.value == ShiftPlaces(args, rnm.offset);
    r := Ok((ret.value, newargs.value));
  }

  /**
   * What a lowered call is: a `Call` of the renamed places for a callee
   * without SIR or marked `do_not_trace`, skipping the latter's blocks;
   * otherwise, with every argument typed, an `Enter` at offset `acc`
   * followed by the argument stores, the renamed destination pending.
   */
  lemma LowerSpecCases(sir: map<string, Body>, offset: nat, acc: nat, func: CallOperand, args: seq<IPlace>,
                       destination: Option<(IPlace, nat)>, n: nat)
    ensures var r := LowerSpec(sir, offset, acc, func, args, destination, n);
      && (destination.None? ==> r == Err(NoDestination))
      && (destination.Some? && CalleeSymbol(func).None? && InRange(destination.value.0, n) ==>
            r == Err(UnknownCalleeCall))
      && (r.Ok? ==> NoDeads(r.value.stmts))
      && (r.Ok? && (CalleeSymbol(func).value !in sir || sir[CalleeSymbol(func).value].doNotTrace) ==>
            && r.value.pendingReturn.None?
            && r.value.skip == (if CalleeSymbol(func).value in sir then CalleeSymbol(func) else None)
            && r.value.stmts == [Call(func, ShiftPlaces(args, offset), Some(ShiftPlace(destination.value.0, offset)))])
      && (r.Ok? && CalleeSymbol(func).value in sir && !sir[CalleeSymbol(func).value].doNotTrace ==>
            && r.value.skip.None?
            && r.value.pendingReturn == Some(ShiftPlace(destination.value.0, offset))
            && Typed(args)
            && r.value.stmts == [Enter(func, ShiftPlaces(args, offset), Some(ShiftPlace(destination.value.0, offset)), acc)]
                                + StoresOf(ShiftPlaces(args, offset), acc))
  {
    var r := LowerSpec(sir, offset, acc, func, args, destination, n);
    if r.Ok? && CalleeSymbol(func).value in sir && !sir[CalleeSymbol(func).value].doNotTrace {
      var newargs := ShiftPlaces(args, offset);
      assert Typed(newargs);
      assert Typed(args) by {
        forall i | 0 <= i < |args| ensures PlaceTy(args[i]).Some? {
          assert PlaceTy(newargs[i]) == PlaceTy(args[i]);
        }
      }
    }
  }

  /** A lowered call holds no `StorageDead`, and skips the blocks of a `do_not_trace` callee only. */
  lemma LowerSpecSkips(sir: map<string, Body>, offset: nat, acc: nat, func: CallOperand, args: seq<IPlace>,
                       destination: Option<(IPlace, nat)>, n: nat)
    ensures var r := LowerSpec(sir, offset, acc, func, args, destination, n);
      r.Ok? ==> NoDeads(r.value.stmts) && r.value.skip == SkipFor(sir, func)
  {
    LowerSpecCases(sir, offset, acc, func, args, destination, n);
  }

  /** The second half of `LowerCall`, once the callee's symbol and the renamed places are known. */
  method CallOrInline(rnm: VarRenamer, sir: map<string, Body>, func: CallOperand, sym: string,
                      newargs: seq<IPlace>, ret: IPlace, decls: seq<LocalDecl>) returns (r: Result<LoweredCall>)
    requires rnm.Valid() && rnm.acc.Some? && CalleeSymbol(func) == Some(sym)
    modifies rnm
    ensures rnm.Valid()
    ensures r == InlineSpec(sir, old(rnm.acc).value, func, sym, newargs, ret, |decls|)
    ensures r.Ok? && r.value.pendingReturn.None? ==>
              && rnm.stack == old(rnm.stack) && rnm.offset == old(rnm.offset) && rnm.retLocals == old(rnm.retLocals)
              && rnm.acc == old(rnm.acc)
    ensures r.Ok? && r.value.pendingReturn.Some? ==>
              && sym in sir
              && rnm.offset == old(rnm.acc).value
              && rnm.acc == Some(old(rnm.acc).value + |sir[sym].localDecls|)
              && rnm.stack == old(rnm.stack) + [rnm.offset]
    ensures r.Err? ==> r.err == NoSuchLocal || r.err == UntypedPlace
    ensures r.Ok? ==> NoDeads(r.value.stmts)
    ensures sym in sir && !sir[sym].doNotTrace ==>
              && (r.Ok? <==> ArgsError(newargs, |decls|, 0).None?)
              && (r.Err? ==> r.err == ArgsError(newargs, |decls|, 0).value)
    ensures sym !in sir || sir[sym].doNotTrace ==>
              && r.Ok?
              && rnm.stack == old(rnm.stack) && rnm.offset == old(rnm.offset) && rnm.retLocals == old(rnm.retLocals)
              && rnm.acc == old(rnm.acc)
              && r.value.pendingReturn.None?
              && r.value.skip == (if sym in sir then Some(sym) else None)
              && r.value.stmts == [Call(func, newargs, Some(ret))]
    ensures r.Ok? && sym in sir && !sir[sym].doNotTrace ==>
              && rnm.offset == old(rnm.acc).value
              && rnm.acc == Some(old(rnm.acc).value + |sir[sym].localDecls|)
              && rnm.stack == old(rnm.stack) + [rnm.offset]
              && r.value.skip.None?
              && r.value.pendingReturn == Some(ret)
              && Typed(newargs)
              && r.value.stmts == [Enter(func, newargs, Some(ret), rnm.offset)] + StoresOf(newargs, rnm.offset)
  {
    if sym !in sir {
      return Ok(LoweredCall([Call(func, newargs, Some(ret))], None, None));
    }
    var callbody := sir[sym];
    if callbody.doNotTrace {
      return Ok(LoweredCall([Call(func, newargs, Some(ret))], Some(sym), None));
    }
    var stmts := EnterCall(rnm, func, newargs, ret, |callbody.localDecls|, decls);
    if stmts.Err? {
      return Err(stmts.err);
    }
    r := Ok(LoweredCall(stmts.value, None, Some(ret)));
  }

  /**
   * `update_defined_locals` and the push of a statement: the source panics,
   * naming the first undefined local the statement uses.
   */
  method PushStatement(du: DefUse, lo: LocalsOf, ops: seq<TirOp>, st: Statement) returns (err: Option<TraceError>)
    requires DefUseState(ops, lo, du.defined, du.defSites, du.lastUseSites) && !st.StorageDead?
    modifies du
    ensures err.None? <==> PushSpec(ops, st, lo).Ok?
    ensures err.Some? ==> err.value == PushSpec(ops, st, lo).err
    ensures err.None? ==> DefUseState(ops + [Stmt(st)], lo, du.defined, du.defSites, du.lastUseSites)
  {
    var defined := du.defined;
    ghost var defSites := du.defSites;
    ghost var lastUse := du.lastUseSites;
    var bad := du.Update(st, |ops|, lo);
    if bad.None? {
      AppendStatement(ops, lo, defined, defSites, lastUse, st);
      err := None;
    } else {
      err := Some(UndefinedLocal(bad.value));
    }
  }

  /** The statements appended to `ops` one by one, stopping at the first that uses an undefined local. */
  method PushStatements(du: DefUse, lo: LocalsOf, ops: seq<TirOp>, stmts: seq<Statement>)
    returns (err: Option<TraceError>, pushed: seq<TirOp>)
    requires DefUseState(ops, lo, du.defined, du.defSites, du.lastUseSites)
    requires NoDeads(stmts)
    modifies du
    ensures err.None? <==> PushAllSpec(ops, stmts, lo).Ok?
    ensures err.Some? ==> err.value == PushAllSpec(ops, stmts, lo).err
    ensures err.None? ==> pushed == PushAllSpec(ops, stmts, lo).value
                          && DefUseState(pushed, lo, du.defined, du.defSites, du.lastUseSites)
  {
    pushed := ops;
    for i := 0 to |stmts|
      invariant PushAllSpec(ops, stmts, lo) == PushAllSpec(pushed, stmts[i..], lo)
      invariant DefUseState(pushed, lo, du.defined, du.defSites, du.lastUseSites)
    {
      assert stmts[i..][0] == stmts[i] && stmts[i..][1..] == stmts[i + 1..];
      err := PushStatement(du, lo, pushed, stmts[i]);
      if err.Some? {
        return;
      }
      pushed := pushed + [Stmt(stmts[i])];
    }
    err := None;
  }

  /** Tracing a block's statements from the `i`th on: the `i`th renamed, then pushed, then the rest. */
  lemma BlockStmtsSpecFrom(ops: seq<TirOp>, stmts: seq<Statement>, i: nat, n: nat, offset: nat, lo: LocalsOf)
    requires i < |stmts|
    ensures var st := RenameSpec(stmts[i], n, offset);
      && (st.Err? ==> BlockStmtsSpec(ops, stmts[i..], n, offset, lo) == Err(st.err))
      && (st.Ok? && PushSpec(ops, st.value, lo).Err? ==>
            BlockStmtsSpec(ops, stmts[i..], n, offset, lo) == Err(PushSpec(ops, st.value, lo).err))
      && (st.Ok? && PushSpec(ops, st.value, lo).Ok? ==>
            BlockStmtsSpec(ops, stmts[i..], n, offset, lo)
            == BlockStmtsSpec(ops + [Stmt(st.value)], stmts[i + 1..], n, offset, lo))
  {
    assert stmts[i..][0] == stmts[i] && stmts[i..][1..] == stmts[i + 1..];
  }

  /**
   * The statements of a traced block appended to `ops` one by one, each
   * renamed before it is pushed, stopping at the first error.
   */
  method RenameStatements(rnm: VarRenamer, du: DefUse, lo: LocalsOf, ops: seq<TirOp>, stmts: seq<Statement>,
                          decls: seq<LocalDecl>) returns (err: Option<TraceError>, pushed: seq<TirOp>)
    requires rnm.Valid() && DefUseState(ops, lo, du.defined, du.defSites, du.lastUseSites)
    modifies rnm, du
    ensures rnm.Valid() && rnm.stack == old(rnm.stack) && rnm.offset == old(rnm.offset) && rnm.acc == old(rnm.acc)
    ensures err.None? <==> BlockStmtsSpec(ops, stmts, |decls|, old(rnm.offset), lo).Ok?
    ensures err.Some? ==> err.value == BlockStmtsSpec(ops, stmts, |decls|, old(rnm.offset), lo).err
    ensures err.None? ==> pushed == BlockStmtsSpec(ops, stmts, |decls|, old(rnm.offset), lo).value
                          && DefUseState(pushed, lo, du.defined, du.defSites, du.lastUseSites)
  {
    pushed := ops;
    for i := 0 to |stmts|
      invariant rnm.Valid() && rnm.stack == old(rnm.stack) && rnm.offset == old(rnm.offset) && rnm.acc == old(rnm.acc)
      invariant BlockStmtsSpec(ops, stmts, |decls|, rnm.offset, lo)
                == BlockStmtsSpec(pushed, stmts[i..], |decls|, rnm.offset, lo)
      invariant DefUseState(pushed, lo, du.defined, du.defSites, du.lastUseSites)
    {
      BlockStmtsSpecFrom(pushed, stmts, i, |decls|, rnm.offset, lo);
      var st := RenameStatement(rnm, stmts[i], decls);
      if st.Err? {
        return Some(st.err), pushed;
      }
      err := PushStatement(du, lo, pushed, st.value);
      if err.Some? {
        return;
      }
      pushed := pushed + [Stmt(st.value)];
    }
    err := None;
  }

  // ---------------------------------------------------------------------------
  // The builder as a function of the recorded trace. `StepSpec` and `RunSpec`
  // say what each location does to a `BuildState`; the methods of
  // `TraceBuilder` below are proved to do exactly that.

  /** The new operations after pushing `st`, or the first undefined local it uses. */
  function PushSpec(ops: seq<TirOp>, st: Statement, lo: LocalsOf): Result<seq<TirOp>> {
    var bad := FirstUndefined(lo.uses(st), {INTERP_STEP_ARG} + DefinedIn(ops, lo) + SetOf(lo.defs(st)));
    if bad.Some? then Err(UndefinedLocal(bad.value)) else Ok(ops + [Stmt(st)])
  }

  /** Each statement pushed in turn, stopping at the first error. */
  function PushAllSpec(ops: seq<TirOp>, stmts: seq<Statement>, lo: LocalsOf): (r: Result<seq<TirOp>>)
    decreases |stmts|
    ensures r.Err? ==> r.err.UndefinedLocal?
  {
    if |stmts| == 0 then Ok(ops)
    else match PushSpec(ops, stmts[0], lo)
      case Err(e) => Err(e)
      case Ok(ops') => PushAllSpec(ops', stmts[1..], lo)
  }

  /** A statement of a traced block renamed into a function with `n` locals at `offset`. */
  function RenameSpec(st: Statement, n: nat, offset: nat): Result<Statement> {
    if TirOnly(st) then Err(NotSirStatement)
    else if !StatementInRange(st, n) then Err(NoSuchLocal)
    else Ok(ShiftStatement(st, offset))
  }

  /** The statements of a traced block: each renamed, then pushed, stopping at the first error. */
  function BlockStmtsSpec(ops: seq<TirOp>, stmts: seq<Statement>, n: nat, offset: nat, lo: LocalsOf)
    : (r: Result<seq<TirOp>>)
    decreases |stmts|
    ensures r.Err? ==> r.err in {NotSirStatement, NoSuchLocal} || r.err.UndefinedLocal?
  {
    if |stmts| == 0 then Ok(ops)
    else match RenameSpec(stmts[0], n, offset)
      case Err(e) => Err(e)
      case Ok(st) =>
        match PushSpec(ops, st, lo)
        case Err(e) => Err(e)
        case Ok(ops') => BlockStmtsSpec(ops', stmts[1..], n, offset, lo)
  }

  /**
   * The first failure among the argument stores from argument `i` on:
   * argument `i` goes to callee local `i + 1`, which must be one of the `n`
   * locals the source checks against, and must have a type.
   */
  function ArgsError(newargs: seq<IPlace>, n: nat, i: nat): (r: Option<TraceError>)
    decreases |newargs| - i
    ensures r.None? ==> forall k :: i <= k < |newargs| ==> PlaceTy(newargs[k]).Some? && k + 1 < n
    ensures r.Some? ==> r.value == NoSuchLocal || r.value == UntypedPlace
  {
    if i >= |newargs| then None
    else if i + 1 >= n then Some(NoSuchLocal)
    else if PlaceTy(newargs[i]).None? then Some(UntypedPlace)
    else ArgsError(newargs, n, i + 1)
  }
  /** Conversely, when every argument from `i` on is typed and has a local, there is no error. */
  lemma {:induction false} ArgsErrorFree(newargs: seq<IPlace>, n: nat, i: nat)
    requires forall k :: i <= k < |newargs| ==> PlaceTy(newargs[k]).Some? && k + 1 < n
    ensures ArgsError(newargs, n, i).None?
    decreases |newargs| - i
  {
    if i < |newargs| {
      assert PlaceTy(newargs[i]).Some? && i + 1 < n;
      ArgsErrorFree(newargs, n, i + 1);
    }
  }


  /**
   * A traced `Call` terminator in a function with `n` locals, at `offset`,
   * with `acc` locals handed out: the destination and arguments are renamed;
   * a callee without SIR or marked `do_not_trace` becomes one `Call`, and
   * the latter's blocks are skipped; any other callee is inlined at offset
   * `acc`, its destination pending until it returns.
   */
  function LowerSpec(sir: map<string, Body>, offset: nat, acc: nat, func: CallOperand, args: seq<IPlace>,
                     destination: Option<(IPlace, nat)>, n: nat): (r: Result<LoweredCall>)
    ensures r.Err? ==> !r.err.NoSir?
    ensures r.Ok? ==> CalleeSymbol(func).Some?
    ensures r.Ok? ==> (r.value.pendingReturn.Some? <==>
                         CalleeSymbol(func).value in sir && !sir[CalleeSymbol(func).value].doNotTrace)
  {
    if CallPlacesError(func, args, destination, n).Some? then Err(CallPlacesError(func, args, destination, n).value)
    else
      InlineSpec(sir, acc, func, CalleeSymbol(func).value, ShiftPlaces(args, offset),
                 ShiftPlace(destination.value.0, offset), n)
  }

  /**
   * Why the places of a call in a function with `n` locals cannot be
   * renamed, checked in the order the caller renames them: a missing
   * destination, a destination out of range, an unknown callee, an
   * argument out of range.
   */
  function CallPlacesError(func: CallOperand, args: seq<IPlace>, destination: Option<(IPlace, nat)>, n: nat)
    : Option<TraceError>
  {
    if destination.None? then Some(NoDestination)
    else if !InRange(destination.value.0, n) then Some(NoSuchLocal)
    else if CalleeSymbol(func).None? then Some(UnknownCalleeCall)
    else if !PlacesInRange(args, n) then Some(NoSuchLocal)
    else None
  }

  /** The second half of `LowerSpec`, once the callee's symbol and the renamed places are known. */
  function InlineSpec(sir: map<string, Body>, acc: nat, func: CallOperand, sym: string, newargs: seq<IPlace>,
                      ret: IPlace, n: nat): Result<LoweredCall>
  {
    if sym !in sir then Ok(LoweredCall([Call(func, newargs, Some(ret))], None, None))
    else if sir[sym].doNotTrace then Ok(LoweredCall([Call(func, newargs, Some(ret))], Some(sym), None))
    else if ArgsError(newargs, n, 0).Some? then Err(ArgsError(newargs, n, 0).value)
    else Ok(LoweredCall([Enter(func, newargs, Some(ret), acc)] + StoresOf(newargs, acc), None, Some(ret)))
  }

  /**
   * What the operations built so far depend on: the operations, the
   * renamer's offset stack and accumulator, the function being skipped, the
   * pending return places, whether `interp_step` has been entered, and the
   * function addresses seen.
   */
  datatype BuildState = BuildState(ops: seq<TirOp>, stack: seq<nat>, acc: Option<nat>, ignore: Option<string>,
                                   returnIplaces: seq<IPlace>, inInterpStep: bool, addrMap: map<string, nat>)

  /** The state before the first location. */
  const InitialState := BuildState([], [0], None, None, [], false, map[])

  /** One pending return place for each inlined call still active. */
  predicate Wf(s: BuildState) {
    |s.stack| >= 1 && |s.returnIplaces| == |s.stack| - 1
  }

  /** The offset locals are currently shifted by: the innermost active call's. */
  function CurrentOffset(s: BuildState): nat
    requires Wf(s)
  {
    s.stack[|s.stack| - 1]
  }

  /** A traced call: its statements and the state after it (see `LowerSpec`). */
  function CallSpec(sir: map<string, Body>, s: BuildState, func: CallOperand, args: seq<IPlace>,
                    destination: Option<(IPlace, nat)>, n: nat): (r: Result<(seq<Statement>, BuildState)>)
    requires Wf(s) && s.acc.Some?
    ensures r.Ok? ==> Wf(r.value.1) && r.value.1.ops == s.ops && r.value.1.inInterpStep == s.inInterpStep
    ensures r.Ok? ==> r.value.1.addrMap == s.addrMap
    ensures r.Err? ==> !r.err.NoSir?
  {
    match LowerSpec(sir, CurrentOffset(s), s.acc.value, func, args, destination, n)
    case Err(e) => Err(e)
    case Ok(lc) =>
      if lc.pendingReturn.None? then Ok((lc.stmts, s.(ignore := lc.skip)))
      else
        var numLocals := |sir[CalleeSymbol(func).value].localDecls|;
        Ok((lc.stmts, s.(ignore := lc.skip, stack := s.stack + [s.acc.value], acc := Some(s.acc.value + numLocals),
                         returnIplaces := s.returnIplaces + [lc.pendingReturn.value])))
  }

  /** A traced call is its lowering, and an inlined call enters the callee at the accumulator. */
  lemma CallSpecOf(sir: map<string, Body>, s: BuildState, func: CallOperand, args: seq<IPlace>,
                   destination: Option<(IPlace, nat)>, n: nat)
    requires Wf(s) && s.acc.Some?
    ensures var lc := LowerSpec(sir, CurrentOffset(s), s.acc.value, func, args, destination, n);
      var r := CallSpec(sir, s, func, args, destination, n);
      && (lc.Err? ==> r == Err(lc.err))
      && (lc.Ok? && lc.value.pendingReturn.None? ==> r == Ok((lc.value.stmts, s.(ignore := lc.value.skip))))
      && (lc.Ok? && lc.value.pendingReturn.Some? ==>
            r == Ok((lc.value.stmts,
                     s.(ignore := lc.value.skip, stack := s.stack + [s.acc.value],
                        acc := Some(s.acc.value + |sir[CalleeSymbol(func).value].localDecls|),
                        returnIplaces := s.returnIplaces + [lc.value.pendingReturn.value]))))
  {
  }

  /**
   * A traced `Return`: `interp_step`'s own return leaves it; any other
   * stores the callee's return local into the innermost pending return
   * place and leaves the call.
   */
  function ReturnSpec(s: BuildState, body: Body): (r: Result<(seq<Statement>, BuildState)>)
    requires Wf(s)
    ensures r.Ok? ==> Wf(r.value.1) && r.value.1.ops == s.ops && r.value.1.addrMap == s.addrMap
    ensures r.Err? ==> !r.err.NoSir?
  {
    if body.interpStep then Ok(([], s.(inInterpStep := false)))
    else if |s.returnIplaces| == 0 then Err(NoPendingReturn)
    else
      var dest := s.returnIplaces[|s.returnIplaces| - 1];
      if PlaceTy(dest).None? then Err(UntypedPlace)
      else if |body.localDecls| == 0 then Err(NoSuchLocal)
      else Ok(([IStore(dest, ReturnSource(CurrentOffset(s), PlaceTy(dest).value)), Leave],
               s.(stack := s.stack[..|s.stack| - 1], returnIplaces := s.returnIplaces[..|s.returnIplaces| - 1])))
  }

  /** The statements a terminator becomes, and the state after it. */
  function Lowered(sir: map<string, Body>, s: BuildState, body: Body, term: Terminator)
    : (r: Result<(seq<Statement>, BuildState)>)
    requires Wf(s) && s.acc.Some?
    ensures r.Ok? ==> Wf(r.value.1) && r.value.1.ops == s.ops && r.value.1.addrMap == s.addrMap
    ensures r.Err? ==> !r.err.NoSir?
  {
    if term.CallTerm? then CallSpec(sir, s, term.func, term.callArgs, term.destination, |body.localDecls|)
    else if term.Return? then ReturnSpec(s, body)
    else Ok(([], s))
  }

  /** The operation of a guard, if any. */
  function GuardOps(g: Option<Guard>): seq<TirOp> {
    if g.Some? then [GuardOp(g.value)] else []
  }

  /**
   * The terminator of a block traced inside `interp_step`: its statements
   * pushed, then its guard. The return of `interp_step` itself pushes
   * nothing.
   */
  function TermSpec(sir: map<string, Body>, lo: LocalsOf, s: BuildState, body: Body, term: Terminator,
                    next: Option<nat>): (r: Result<BuildState>)
    requires Wf(s) && s.acc.Some?
    ensures r.Ok? ==> Wf(r.value) && r.value.addrMap == s.addrMap
    ensures r.Err? ==> !r.err.NoSir?
  {
    match Lowered(sir, s, body, term)
    case Err(e) => Err(e)
    case Ok((stmts, s1)) =>
      if term.Return? && body.interpStep then Ok(s1)
      else
        match PushTermSpec(s1.ops, stmts, lo, term, next)
        case Err(e) => Err(e)
        case Ok(ops) => Ok(s1.(ops := ops))
  }

  /** A terminator's statements pushed, then its guard, if any. */
  function PushTermSpec(ops: seq<TirOp>, stmts: seq<Statement>, lo: LocalsOf, term: Terminator, next: Option<nat>)
    : Result<seq<TirOp>>
  {
    match PushAllSpec(ops, stmts, lo)
    case Err(e) => Err(e)
    case Ok(ops') =>
      match GuardFor(term, next)
      case Err(e) => Err(e)
      case Ok(g) => Ok(ops' + GuardOps(g))
  }

  /** Whether the terminator calls a function flagged `interp_step`. */
  predicate CallsInterpStep(sir: map<string, Body>, term: Terminator) {
    term.CallTerm? && CalleeSymbol(term.func).Some? && CalleeSymbol(term.func).value in sir
    && sir[CalleeSymbol(term.func).value].interpStep
  }

  /** The `do_not_trace` function whose blocks a call to `func` skips, if any. */
  function SkipFor(sir: map<string, Body>, func: CallOperand): Option<string> {
    var sym := CalleeSymbol(func);
    if sym.Some? && sym.value in sir && sir[sym.value].doNotTrace then sym else None
  }

  /**
   * A block of a function being traced. Inside `interp_step` its statements
   * are traced; a call to `interp_step` starts tracing, or is an error once
   * started; inside, the terminator is traced too.
   */
  function BlockSpec(sir: map<string, Body>, lo: LocalsOf, s: BuildState, body: Body, block: Block,
                     next: Option<nat>): (r: Result<BuildState>)
    requires Wf(s) && s.acc.Some?
    ensures r.Ok? ==> Wf(r.value) && r.value.addrMap == s.addrMap
    ensures r.Err? ==> !r.err.NoSir?
  {
    var stmts := if s.inInterpStep then BlockStmtsSpec(s.ops, block.stmts, |body.localDecls|, CurrentOffset(s), lo)
                 else Ok(s.ops);
    if stmts.Err? then Err(stmts.err)
    else
      var s1 := s.(ops := stmts.value);
      if CallsInterpStep(sir, block.term) then
        if s.inInterpStep then Err(RecursiveInterpStep) else Ok(s1.(inInterpStep := true))
      else if !s.inInterpStep then Ok(s1)
      else TermSpec(sir, lo, s1, body, block.term, next)
  }

  /**
   * One recorded location, with the block index of the next one, if any.
   * The first body seen sets the accumulator; block 0 records the
   * function's address; while a `do_not_trace` function is skipped nothing
   * is traced, and its return ends the skipping.
   */
  function StepSpec(sir: map<string, Body>, lo: LocalsOf, s: BuildState, loc: SirLoc, next: Option<nat>)
    : (r: Result<BuildState>)
    requires Wf(s)
    ensures r.Ok? ==> Wf(r.value)
  {
    if loc.symbol !in sir then Err(NoSir(loc.symbol))
    else if loc.bbIdx == 0 && loc.addr.None? then Err(NoAddress)
    else
      var body := sir[loc.symbol];
      LocSpec(sir, lo, EnterLoc(s, body, loc), body, loc, next)
  }

  /** The first body seen sets the accumulator; block 0 records the function's address. */
  function EnterLoc(s: BuildState, body: Body, loc: SirLoc): (r: BuildState)
    requires Wf(s) && (loc.bbIdx == 0 ==> loc.addr.Some?)
    ensures Wf(r) && r.acc.Some?
  {
    var s0 := if s.acc.None? then s.(acc := Some(|body.localDecls|)) else s;
    if loc.bbIdx == 0 then s0.(addrMap := s0.addrMap[loc.symbol := loc.addr.value]) else s0
  }

  /**
   * A location once entered: while a `do_not_trace` function is skipped
   * nothing is traced, and its return ends the skipping; otherwise its
   * block is traced.
   */
  function LocSpec(sir: map<string, Body>, lo: LocalsOf, s1: BuildState, body: Body, loc: SirLoc, next: Option<nat>)
    : (r: Result<BuildState>)
    requires Wf(s1) && s1.acc.Some?
    ensures r.Ok? ==> Wf(r.value)
  {
    if s1.ignore.Some? then
      if s1.ignore.value != loc.symbol then Ok(s1)
      else if loc.bbIdx >= |body.blocks| then Err(NoSuchBlock)
      else if body.blocks[loc.bbIdx].term.Return? then Ok(s1.(ignore := None))
      else Ok(s1)
    else if loc.bbIdx >= |body.blocks| then Err(NoSuchBlock)
    else BlockSpec(sir, lo, s1, body, body.blocks[loc.bbIdx], next)
  }

  /** The recorded locations in turn, each seeing the next one's block index, stopping at the first error. */
  function RunSpec(sir: map<string, Body>, lo: LocalsOf, s: BuildState, trace: seq<SirLoc>): (r: Result<BuildState>)
    requires Wf(s)
    ensures r.Ok? ==> Wf(r.value)
    decreases |trace|
  {
    if |trace| == 0 then Ok(s)
    else match StepSpec(sir, lo, s, trace[0], if |trace| > 1 then Some(trace[1].bbIdx) else None)
      case Err(e) => Err(e)
      case Ok(s') => RunSpec(sir, lo, s', trace[1..])
  }

  /** Statements pushed without error are appended, in order. */
  lemma {:induction false} PushAllSpecAppends(ops: seq<TirOp>, stmts: seq<Statement>, lo: LocalsOf)
    ensures PushAllSpec(ops, stmts, lo).Ok? ==> PushAllSpec(ops, stmts, lo).value == ops + StmtOps(stmts)
    decreases |stmts|
  {
    if |stmts| > 0 && PushSpec(ops, stmts[0], lo).Ok? {
      PushAllSpecAppends(ops + [Stmt(stmts[0])], stmts[1..], lo);
      assert StmtOps(stmts) == [Stmt(stmts[0])] + StmtOps(stmts[1..]);
    }
  }

  /** A block's statements are traced only if each can be renamed. */
  lemma {:induction false} BlockStmtsSpecRenamable(ops: seq<TirOp>, stmts: seq<Statement>, n: nat, offset: nat,
                                                   lo: LocalsOf)
    ensures BlockStmtsSpec(ops, stmts, n, offset, lo).Ok? ==> forall i :: 0 <= i < |stmts| ==> Renamable(stmts[i], n)
    decreases |stmts|
  {
    if |stmts| > 0 && BlockStmtsSpec(ops, stmts, n, offset, lo).Ok? {
      var st := RenameSpec(stmts[0], n, offset).value;
      var ops' := PushSpec(ops, st, lo).value;
      BlockStmtsSpecRenamable(ops', stmts[1..], n, offset, lo);
      forall i | 0 <= i < |stmts| ensures Renamable(stmts[i], n) {
        if i > 0 { assert stmts[i] == stmts[1..][i - 1]; }
      }
    }
  }

  /** When every statement of a block can be renamed, tracing them is pushing their renamings. */
  lemma {:induction false} BlockStmtsSpecPushes(ops: seq<TirOp>, stmts: seq<Statement>, n: nat, offset: nat,
                                                lo: LocalsOf)
    requires forall i :: 0 <= i < |stmts| ==> Renamable(stmts[i], n)
    ensures BlockStmtsSpec(ops, stmts, n, offset, lo) == PushAllSpec(ops, ShiftStatements(stmts, offset), lo)
    decreases |stmts|
  {
    if |stmts| > 0 {
      var shifted := ShiftStatements(stmts, offset);
      var st := ShiftStatement(stmts[0], offset);
      assert shifted[0] == st && shifted[1..] == ShiftStatements(stmts[1..], offset);
      assert Renamable(stmts[0], n);
      assert RenameSpec(stmts[0], n, offset) == Ok(st);
      if PushSpec(ops, st, lo).Ok? {
        assert forall i :: 0 <= i < |stmts[1..]| ==> Renamable(stmts[1..][i], n) by {
          forall i | 0 <= i < |stmts[1..]| ensures Renamable(stmts[1..][i], n) {
            assert stmts[1..][i] == stmts[i + 1];
          }
        }
        BlockStmtsSpecPushes(PushSpec(ops, st, lo).value, stmts[1..], n, offset, lo);
      }
    }
  }

  /**
   * A block's statements are traced only if each can be renamed; when each
   * can, tracing them is pushing their renamings, and what is appended is
   * the renamed block.
   */
  lemma BlockStmtsSpecAppends(ops: seq<TirOp>, stmts: seq<Statement>, n: nat, offset: nat, lo: LocalsOf)
    ensures BlockStmtsSpec(ops, stmts, n, offset, lo).Ok? ==> forall i :: 0 <= i < |stmts| ==> Renamable(stmts[i], n)
    ensures (forall i :: 0 <= i < |stmts| ==> Renamable(stmts[i], n)) ==>
              BlockStmtsSpec(ops, stmts, n, offset, lo) == PushAllSpec(ops, ShiftStatements(stmts, offset), lo)
    ensures BlockStmtsSpec(ops, stmts, n, offset, lo).Ok? ==>
              BlockStmtsSpec(ops, stmts, n, offset, lo).value == ops + StmtOps(ShiftStatements(stmts, offset))
  {
    BlockStmtsSpecRenamable(ops, stmts, n, offset, lo);
    if forall i :: 0 <= i < |stmts| ==> Renamable(stmts[i], n) {
      BlockStmtsSpecPushes(ops, stmts, n, offset, lo);
    }
    PushAllSpecAppends(ops, ShiftStatements(stmts, offset), lo);
  }

  /**
   * Inside `interp_step`, a block that neither calls `interp_step` nor is
   * its return appends its renamed statements, then the statements its
   * terminator becomes, then its guard, if any.
   */
  lemma BlockSpecAppends(sir: map<string, Body>, lo: LocalsOf, s: BuildState, body: Body, block: Block,
                         next: Option<nat>)
    requires Wf(s) && s.acc.Some? && s.inInterpStep
    requires !CallsInterpStep(sir, block.term) && !(block.term.Return? && body.interpStep)
    requires BlockSpec(sir, lo, s, body, block, next).Ok?
    ensures Lowered(sir, s, body, block.term).Ok? && GuardFor(block.term, next).Ok?
    ensures BlockSpec(sir, lo, s, body, block, next).value.ops
            == s.ops + StmtOps(ShiftStatements(block.stmts, CurrentOffset(s)))
               + StmtOps(Lowered(sir, s, body, block.term).value.0) + GuardOps(GuardFor(block.term, next).value)
  {
    var n := |body.localDecls|;
    BlockStmtsSpecAppends(s.ops, block.stmts, n, CurrentOffset(s), lo);
    var s1 := s.(ops := BlockStmtsSpec(s.ops, block.stmts, n, CurrentOffset(s), lo).value);
    LoweredIgnoresOps(sir, s, s1.ops, body, block.term);
    TermSpecAppends(sir, lo, s1, body, block.term, next);
  }

  /** What a terminator becomes does not depend on the operations built so far. */
  lemma LoweredIgnoresOps(sir: map<string, Body>, s: BuildState, ops: seq<TirOp>, body: Body, term: Terminator)
    requires Wf(s) && s.acc.Some?
    ensures Lowered(sir, s.(ops := ops), body, term).Ok? == Lowered(sir, s, body, term).Ok?
    ensures Lowered(sir, s, body, term).Ok? ==>
              Lowered(sir, s.(ops := ops), body, term).value.0 == Lowered(sir, s, body, term).value.0
  {
  }

  /**
   * Outside `interp_step`'s own return, a traced terminator appends the
   * statements it becomes, then its guard, if any.
   */
  lemma TermSpecAppends(sir: map<string, Body>, lo: LocalsOf, s: BuildState, body: Body, term: Terminator,
                        next: Option<nat>)
    requires Wf(s) && s.acc.Some? && !(term.Return? && body.interpStep)
    requires TermSpec(sir, lo, s, body, term, next).Ok?
    ensures Lowered(sir, s, body, term).Ok? && GuardFor(term, next).Ok?
    ensures TermSpec(sir, lo, s, body, term, next).value.ops
            == s.ops + StmtOps(Lowered(sir, s, body, term).value.0) + GuardOps(GuardFor(term, next).value)
  {
    var lowered := Lowered(sir, s, body, term);
    PushTermSpecGrows(lowered.value.1.ops, lowered.value.0, lo, term, next);
  }

  /** A block only appends operations. */
  lemma BlockSpecGrows(sir: map<string, Body>, lo: LocalsOf, s: BuildState, body: Body, block: Block,
                       next: Option<nat>)
    requires Wf(s) && s.acc.Some?
    ensures BlockSpec(sir, lo, s, body, block, next).Ok? ==> s.ops <= BlockSpec(sir, lo, s, body, block, next).value.ops
  {
    if BlockSpec(sir, lo, s, body, block, next).Ok? && s.inInterpStep {
      var n := |body.localDecls|;
      BlockStmtsSpecAppends(s.ops, block.stmts, n, CurrentOffset(s), lo);
      var s1 := s.(ops := BlockStmtsSpec(s.ops, block.stmts, n, CurrentOffset(s), lo).value);
      TermSpecGrows(sir, lo, s1, body, block.term, next);
    }
  }

  /** A terminator's statements and guard are appended to the operations. */
  lemma PushTermSpecGrows(ops: seq<TirOp>, stmts: seq<Statement>, lo: LocalsOf, term: Terminator, next: Option<nat>)
    ensures PushTermSpec(ops, stmts, lo, term, next).Ok? ==>
              PushTermSpec(ops, stmts, lo, term, next).value
              == ops + StmtOps(stmts) + GuardOps(GuardFor(term, next).value)
  {
    PushAllSpecAppends(ops, stmts, lo);
  }

  /** A traced terminator only appends operations. */
  lemma TermSpecGrows(sir: map<string, Body>, lo: LocalsOf, s: BuildState, body: Body, term: Terminator,
                      next: Option<nat>)
    requires Wf(s) && s.acc.Some?
    ensures TermSpec(sir, lo, s, body, term, next).Ok? ==> s.ops <= TermSpec(sir, lo, s, body, term, next).value.ops
  {
    var lowered := Lowered(sir, s, body, term);
    if lowered.Ok? {
      PushTermSpecGrows(lowered.value.1.ops, lowered.value.0, lo, term, next);
    }
  }

  /**
   * A function without SIR is an error naming it, and so is block 0 without
   * an address; block 0 records the function's address.
   */
  lemma StepSpecRecords(sir: map<string, Body>, lo: LocalsOf, s: BuildState, loc: SirLoc, next: Option<nat>)
    requires Wf(s)
    ensures var r := StepSpec(sir, lo, s, loc, next);
      && (loc.symbol !in sir ==> r == Err(NoSir(loc.symbol)))
      && (r.Err? && r.err.NoSir? ==> r.err == NoSir(loc.symbol) && loc.symbol !in sir)
      && (loc.symbol in sir && loc.bbIdx == 0 && loc.addr.None? ==> r == Err(NoAddress))
      && (r.Ok? && loc.bbIdx == 0 ==> r.value.addrMap == s.addrMap[loc.symbol := loc.addr.value])
      && (r.Ok? && loc.bbIdx != 0 ==> r.value.addrMap == s.addrMap)
  {
  }

  /** The operations only grow. */
  lemma StepSpecGrows(sir: map<string, Body>, lo: LocalsOf, s: BuildState, loc: SirLoc, next: Option<nat>)
    requires Wf(s)
    ensures StepSpec(sir, lo, s, loc, next).Ok? ==> s.ops <= StepSpec(sir, lo, s, loc, next).value.ops
  {
    if loc.symbol in sir && !(loc.bbIdx == 0 && loc.addr.None?) && loc.bbIdx < |sir[loc.symbol].blocks| {
      var body := sir[loc.symbol];
      var s0 := if s.acc.None? then s.(acc := Some(|body.localDecls|)) else s;
      var s1 := if loc.bbIdx == 0 then s0.(addrMap := s0.addrMap[loc.symbol := loc.addr.value]) else s0;
      BlockSpecGrows(sir, lo, s1, body, body.blocks[loc.bbIdx], next);
    }
  }

  /**
   * While a `do_not_trace` function is skipped nothing is traced, and only
   * a `Return` block of that function ends the skipping.
   */
  lemma StepSpecSkips(sir: map<string, Body>, lo: LocalsOf, s: BuildState, loc: SirLoc, next: Option<nat>)
    requires Wf(s) && s.ignore.Some?
    ensures var r := StepSpec(sir, lo, s, loc, next);
      r.Ok? ==>
        && r.value.ops == s.ops
        && r.value.inInterpStep == s.inInterpStep
        && loc.symbol in sir
        && (r.value.ignore.None? <==> (s.ignore.value == loc.symbol && loc.bbIdx < |sir[loc.symbol].blocks|
                                       && sir[loc.symbol].blocks[loc.bbIdx].term.Return?))
        && (r.value.ignore.Some? ==> r.value.ignore == s.ignore)
  {
  }

  /**
   * Outside `interp_step` nothing is traced and only a call to
   * `interp_step` starts tracing; inside, such a call is an error.
   */
  lemma StepSpecEntersInterpStep(sir: map<string, Body>, lo: LocalsOf, s: BuildState, loc: SirLoc,
                                 next: Option<nat>)
    requires Wf(s) && s.ignore.None?
    ensures var r := StepSpec(sir, lo, s, loc, next);
      && (!s.inInterpStep && r.Ok? ==>
            && loc.symbol in sir && loc.bbIdx < |sir[loc.symbol].blocks|
            && r.value.ops == s.ops
            && r.value.inInterpStep == CallsInterpStep(sir, sir[loc.symbol].blocks[loc.bbIdx].term))
      && ((s.inInterpStep && loc.symbol in sir && loc.bbIdx < |sir[loc.symbol].blocks|
           && CallsInterpStep(sir, sir[loc.symbol].blocks[loc.bbIdx].term)) ==> r.Err?)
  {
  }

  class TraceBuilder {
    const sir: map<string, Body>
    const lo: LocalsOf
    const rnm: VarRenamer
    const du: DefUse
    /** The operations so far. */
    var ops: seq<TirOp>
    /** The `do_not_trace` function whose blocks are being skipped. */
    var ignore: Option<string>
    /** The address of each function whose first block was seen. */
    var addrMap: map<string, nat>
    /** The destinations of the inlined calls still active. */
    var returnIplaces: seq<IPlace>
    /** Whether `interp_step` has been entered. */
    var inInterpStep: bool

    /** The renamer is well formed, with one pending return place per active inlined call. */
    ghost predicate Shape()
      reads this, rnm
    {
      && rnm.Valid()
      && |returnIplaces| == |rnm.stack| - 1
    }

    ghost predicate Valid()
      reads this, rnm, du
    {
      && Shape()
      && DefUseState(ops, lo, du.defined, du.defSites, du.lastUseSites)
    }

    /** The builder's state as a value. */
    function State(): BuildState
      reads this, rnm
    {
      BuildState(ops, rnm.stack, rnm.acc, ignore, returnIplaces, inInterpStep, addrMap)
    }

    constructor(sir: map<string, Body>, lo: LocalsOf)
      ensures Valid() && fresh(rnm) && fresh(du)
      ensures this.sir == sir && this.lo == lo
      ensures State() == InitialState
    {
      this.sir := sir;
      this.lo := lo;
      rnm := new VarRenamer();
      du := new DefUse();
      ops := [];
      ignore := None;
      addrMap := map[];
      returnIplaces := [];
      inInterpStep := false;
      new;
      assert DefinedIn([], lo) == {};
    }

    /** Each statement pushed in turn, its locals checked and recorded (`PushStatements`). */
    method PushAll(stmts: seq<Statement>) returns (err: Option<TraceError>)
      requires Valid() && NoDeads(stmts)
      modifies this, du
      ensures err.None? <==> PushAllSpec(old(ops), stmts, lo).Ok?
      ensures err.Some? ==> err.value == PushAllSpec(old(ops), stmts, lo).err
      ensures err.None? ==> Valid() && ops == PushAllSpec(old(ops), stmts, lo).value
      ensures ignore == old(ignore) && addrMap == old(addrMap)
      ensures returnIplaces == old(returnIplaces) && inInterpStep == old(inInterpStep)
    {
      var pushed;
      err, pushed := PushStatements(du, lo, ops, stmts);
      if err.None? {
        ops := pushed;
      }
    }

    /**
     * The statements of a block traced inside `interp_step`: each renamed
     * in the current function, then pushed, stopping at the first that
     * cannot be renamed or uses an undefined local.
     */
    method TraceStatements(stmts: seq<Statement>, decls: seq<LocalDecl>) returns (err: Option<TraceError>)
      requires Valid()
      modifies this, rnm, du
      ensures err.None? <==> BlockStmtsSpec(old(ops), stmts, |decls|, old(rnm.offset), lo).Ok?
      ensures err.Some? ==> err.value == BlockStmtsSpec(old(ops), stmts, |decls|, old(rnm.offset), lo).err
      ensures err.None? ==> Valid() && ops == BlockStmtsSpec(old(ops), stmts, |decls|, old(rnm.offset), lo).value
      ensures rnm.stack == old(rnm.stack) && rnm.offset == old(rnm.offset) && rnm.acc == old(rnm.acc)
      ensures ignore == old(ignore) && addrMap == old(addrMap)
      ensures returnIplaces == old(returnIplaces) && inInterpStep == old(inInterpStep)
    {
      var pushed;
      err, pushed := RenameStatements(rnm, du, lo, ops, stmts, decls);
      if err.None? {
        ops := pushed;
      }
    }

    /**
     * The statements a traced `Return` becomes. The return of `interp_step`
     * itself ends tracing (`None`). Otherwise the innermost inlined call's
     * destination receives the callee's return local, renamed before the
     * renamer leaves the call, and a `Leave` follows.
     */
    method ReturnStatements(body: Body) returns (r: Result<Option<seq<Statement>>>)
      requires Shape()
      modifies this, rnm
      ensures r.Ok? ==> Shape()
      ensures body.interpStep ==> r == Ok(None) && !inInterpStep && returnIplaces == old(returnIplaces)
      ensures !body.interpStep ==> inInterpStep == old(inInterpStep)
      ensures !body.interpStep && old(returnIplaces) == [] ==> r == Err(NoPendingReturn)
      ensures r.Ok? && !body.interpStep ==>
                && |old(returnIplaces)| >= 1
                && var dest := old(returnIplaces)[|old(returnIplaces)| - 1];
                   && PlaceTy(dest).Some?
                   && r.value == Some([IStore(dest, ReturnSource(old(rnm.offset), PlaceTy(dest).value)), Leave])
                   && returnIplaces == old(returnIplaces)[..|old(returnIplaces)| - 1]
                   && rnm.stack == old(rnm.stack)[..|old(rnm.stack)| - 1]
                   && inInterpStep == old(inInterpStep)
      ensures r.Err? ==> !r.err.NoSir?
      ensures ops == old(ops) && addrMap == old(addrMap) && ignore == old(ignore)
      ensures var spec := ReturnSpec(old(State()), body);
                && (r.Ok? <==> spec.Ok?)
                && (r.Err? ==> r.err == spec.err)
                && (r.Ok? ==> State() == spec.value.1 && (r.value.Some? <==> !body.interpStep))
                && (r.Ok? && r.value.Some? ==> r.value.value == spec.value.0)
    {
      if body.interpStep {
        inInterpStep := false;
        return Ok(None);
      }
      if returnIplaces == [] {
        return Err(NoPendingReturn);
      }
      var dest := returnIplaces[|returnIplaces| - 1];
      returnIplaces := returnIplaces[..|returnIplaces| - 1];
      var ty := PlaceTy(dest);
      if ty.None? {
        return Err(UntypedPlace);
      }
      var src := rnm.RenameIPlace(Val(0, 0, ty.value), body.localDecls);
      if src.None? {
        return Err(NoSuchLocal);
      }
      var left := rnm.Leave();
      r := Ok(Some([IStore(dest, src.value), Leave]));
    }

    /**
     * The terminator of a block traced inside `interp_step`: its statements
     * are pushed, then its guard, if any. The return of `interp_step`
     * itself ends tracing instead.
     */
    method TraceTerminator(body: Body, term: Terminator, next: Option<nat>) returns (err: Option<TraceError>)
      requires Valid() && inInterpStep && ignore.None? && rnm.acc.Some?
      modifies this, rnm, du
      ensures err.None? ==> Valid() && old(ops) <= ops
      ensures err.Some? ==> !err.value.NoSir?
      ensures addrMap == old(addrMap)
      ensures inInterpStep == !(term.Return? && body.interpStep)
      ensures term.Return? && body.interpStep ==> err.None? && ops == old(ops)
      ensures err.None? ==> ignore == (if term.CallTerm? then SkipFor(sir, term.func) else None)
      ensures var spec := TermSpec(sir, lo, old(State()), body, term, next);
                && (err.None? <==> spec.Ok?)
                && (err.Some? ==> err.value == spec.err)
                && (err.None? ==> State() == spec.value)
    {
      var lowered := LowerTerm(body, term);
      if lowered.Err? {
        return Some(lowered.err);
      }
      if term.Return? && body.interpStep {
        return None;
      }
      err := PushTerm(lowered.value, term, next);
    }

    /** A terminator's statements pushed, then its guard, if any. */
    method PushTerm(stmts: seq<Statement>, term: Terminator, next: Option<nat>) returns (err: Option<TraceError>)
      requires Valid() && NoDeads(stmts)
      modifies this, du
      ensures err.None? <==> PushTermSpec(old(ops), stmts, lo, term, next).Ok?
      ensures err.Some? ==> err.value == PushTermSpec(old(ops), stmts, lo, term, next).err
      ensures err.None? ==> Valid() && ops == PushTermSpec(old(ops), stmts, lo, term, next).value && old(ops) <= ops
      ensures ignore == old(ignore) && addrMap == old(addrMap)
      ensures returnIplaces == old(returnIplaces) && inInterpStep == old(inInterpStep)
    {
      PushTermSpecGrows(ops, stmts, lo, term, next);
      err := PushAll(stmts);
      if err.Some? {
        return;
      }
      err := PushGuard(term, next);
    }

    /**
     * The statements a terminator traced inside `interp_step` becomes: a
     * call's (`CallStatements`), a return's (`ReturnStatements`; none for
     * `interp_step`'s own return), nothing for any other terminator.
     */
    method LowerTerm(body: Body, term: Terminator) returns (r: Result<seq<Statement>>)
      requires Valid() && inInterpStep && ignore.None? && rnm.acc.Some?
      modifies this, rnm
      ensures r.Ok? ==> Valid() && NoDeads(r.value)
      ensures r.Ok? ==> ignore == (if term.CallTerm? then SkipFor(sir, term.func) else None)
      ensures ops == old(ops) && addrMap == old(addrMap)
      ensures inInterpStep == !(term.Return? && body.interpStep)
      ensures var spec := Lowered(sir, old(State()), body, term);
                && (r.Ok? <==> spec.Ok?)
                && (r.Err? ==> r.err == spec.err)
                && (r.Ok? ==> r.value == spec.value.0 && State() == spec.value.1)
    {
      if term.CallTerm? {
        r := CallStatements(body, term.func, term.callArgs, term.destination);
      } else if term.Return? {
        var ret := ReturnStatements(body);
        if ret.Err? {
          return Err(ret.err);
        }
        r := Ok(if ret.value.Some? then ret.value.value else []);
      } else {
        r := Ok([]);
      }
    }

    /**
     * A traced call: lowered as `LowerCall` says; an inlined call's renamed
     * destination waits for the callee's return, and a `do_not_trace`
     * callee's blocks are to be skipped.
     */
    method CallStatements(body: Body, func: CallOperand, args: seq<IPlace>, destination: Option<(IPlace, nat)>)
      returns (r: Result<seq<Statement>>)
      requires Shape() && ignore.None? && rnm.acc.Some?
      modifies this, rnm
      ensures r.Ok? ==> Shape() && NoDeads(r.value)
      ensures r.Ok? ==> ignore == SkipFor(sir, func)
      ensures r.Err? ==> !r.err.NoSir?
      ensures ops == old(ops) && addrMap == old(addrMap) && inInterpStep == old(inInterpStep)
      ensures var spec := CallSpec(sir, old(State()), func, args, destination, |body.localDecls|);
                && (r.Ok? <==> spec.Ok?)
                && (r.Err? ==> r.err == spec.err)
                && (r.Ok? ==> r.value == spec.value.0 && State() == spec.value.1)
    {
      ghost var s := State();
      ghost var n := |body.localDecls|;
      assert CurrentOffset(s) == rnm.offset;
      CallSpecOf(sir, s, func, args, destination, n);
      LowerSpecSkips(sir, CurrentOffset(s), s.acc.value, func, args, destination, n);
      var lowered := LowerCall(rnm, sir, func, args, destination, body.localDecls);
      if lowered.Err? {
        return Err(lowered.err);
      }
      RecordCall(lowered.value);
      r := Ok(lowered.value.stmts);
    }

    /** A lowered call's blocks to skip, if any, and its pending return place, if inlined. */
    method RecordCall(lc: LoweredCall)
      modifies this
      ensures ignore == lc.skip
      ensures returnIplaces == old(returnIplaces) + (if lc.pendingReturn.Some? then [lc.pendingReturn.value] else [])
      ensures ops == old(ops) && addrMap == old(addrMap) && inInterpStep == old(inInterpStep)
    {
      ignore := lc.skip;
      if lc.pendingReturn.Some? {
        returnIplaces := returnIplaces + [lc.pendingReturn.value];
      }
    }

    /** The guard inferred for `term`, if any, pushed after its statements. */
    method PushGuard(term: Terminator, next: Option<nat>) returns (err: Option<TraceError>)
      requires Valid()
      modifies this
      ensures err.Some? <==> GuardFor(term, next).Err?
      ensures err.Some? ==> err.value == GuardFor(term, next).err && ops == old(ops)
      ensures err.None? ==> Valid()
      ensures err.None? ==> ops == old(ops) + GuardOps(GuardFor(term, next).value)
      ensures ignore == old(ignore) && addrMap == old(addrMap)
      ensures returnIplaces == old(returnIplaces) && inInterpStep == old(inInterpStep)
    {
      var guard := GuardFor(term, next);
      if guard.Err? {
        return Some(guard.err);
      }
      if guard.value.Some? {
        AppendGuard(ops, lo, du.defined, du.defSites, du.lastUseSites, guard.value.value);
        ops := ops + [GuardOp(guard.value.value)];
      }
      err := None;
    }

    /**
     * A block of a function being traced. Outside `interp_step` only a call
     * to `interp_step` matters: it starts tracing, unless tracing has
     * already started. Inside, the block's statements are renamed and
     * pushed, then its terminator is traced.
     */
    method TraceBlock(body: Body, block: Block, next: Option<nat>) returns (err: Option<TraceError>)
      requires Valid() && ignore.None? && rnm.acc.Some?
      modifies this, rnm, du
      ensures err.None? ==> Valid() && old(ops) <= ops
      ensures err.Some? ==> !err.value.NoSir?
      ensures addrMap == old(addrMap)
      ensures old(inInterpStep) && CallsInterpStep(sir, block.term) ==> err.Some?
      ensures !old(inInterpStep) ==> err.None? && ops == old(ops) && ignore.None?
                                     && inInterpStep == CallsInterpStep(sir, block.term)
      ensures var spec := BlockSpec(sir, lo, old(State()), body, block, next);
                && (err.None? <==> spec.Ok?)
                && (err.Some? ==> err.value == spec.err)
                && (err.None? ==> State() == spec.value)
    {
      if inInterpStep {
        err := TraceStatements(block.stmts, body.localDecls);
        if err.Some? {
          return;
        }
        BlockStmtsSpecAppends(old(ops), block.stmts, |body.localDecls|, rnm.offset, lo);
      }
      if CallsInterpStep(sir, block.term) {
        if inInterpStep {
          return Some(RecursiveInterpStep);
        }
        inInterpStep := true;
        return None;
      }
      if !inInterpStep {
        return None;
      }
      err := TraceTerminator(body, block.term, next);
    }

    /**
     * One location of the recorded trace, with the block index of the
     * location after it, if any. While a `do_not_trace` function is being
     * skipped nothing is traced; its return ends the skipping.
     */
    method Step(loc: SirLoc, next: Option<nat>) returns (err: Option<TraceError>)
      requires Valid()
      modifies this, rnm, du
      ensures err.None? ==> Valid() && loc.symbol in sir
      ensures err.Some? && err.value.NoSir? ==> err.value.symbol == loc.symbol && loc.symbol !in sir
      ensures var spec := StepSpec(sir, lo, old(State()), loc, next);
                && (err.None? <==> spec.Ok?)
                && (err.Some? ==> err.value == spec.err)
                && (err.None? ==> State() == spec.value)
    {
      if loc.symbol !in sir {
        return Some(NoSir(loc.symbol));
      }
      var body := sir[loc.symbol];
      if loc.bbIdx == 0 && loc.addr.None? {
        return Some(NoAddress);
      }
      rnm.InitAcc(|body.localDecls|);
      if loc.bbIdx == 0 {
        addrMap := addrMap[loc.symbol := loc.addr.value];
      }
      assert State() == EnterLoc(old(State()), body, loc);
      err := TraceLoc(body, loc, next);
    }

    /** A location once entered: skipped, or its block traced (see `LocSpec`). */
    method TraceLoc(body: Body, loc: SirLoc, next: Option<nat>) returns (err: Option<TraceError>)
      requires Valid() && rnm.acc.Some?
      modifies this, rnm, du
      ensures err.None? ==> Valid()
      ensures err.Some? ==> !err.value.NoSir?
      ensures var spec := LocSpec(sir, lo, old(State()), body, loc, next);
                && (err.None? <==> spec.Ok?)
                && (err.Some? ==> err.value == spec.err)
                && (err.None? ==> State() == spec.value)
    {
      if ignore.Some? {
        if ignore.value == loc.symbol {
          if loc.bbIdx >= |body.blocks| {
            return Some(NoSuchBlock);
          }
          if body.blocks[loc.bbIdx].term.Return? {
            ignore := None;
          }
        }
        return None;
      }
      if loc.bbIdx >= |body.blocks| {
        return Some(NoSuchBlock);
      }
      err := TraceBlock(body, body.blocks[loc.bbIdx], next);
    }

    /** Whether the function of each of the first `n` locations has SIR. */
    predicate AllKnown(locs: seq<SirLoc>, n: nat) {
      forall j :: 0 <= j < n && j < |locs| ==> locs[j].symbol in sir
    }

    /**
     * Each recorded location in turn, stopping at the first error: a
     * location whose function has no SIR stops it with `NoSir`, and `at` is
     * the location that stopped it.
     */
    method Run(trace: seq<SirLoc>) returns (err: Option<TraceError>, ghost at: nat)
      requires Valid()
      modifies this, rnm, du
      ensures err.None? ==> Valid() && AllKnown(trace, |trace|)
      ensures err.Some? ==> at < |trace| && AllKnown(trace, at)
      ensures err.Some? && err.value.NoSir? ==> err.value.symbol == trace[at].symbol && trace[at].symbol !in sir
      ensures var spec := RunSpec(sir, lo, old(State()), trace);
                && (err.None? <==> spec.Ok?)
                && (err.Some? ==> err.value == spec.err)
                && (err.None? ==> State() == spec.value)
    {
      at := 0;
      for k := 0 to |trace|
        invariant Valid() && AllKnown(trace, k)
        invariant RunSpec(sir, lo, old(State()), trace) == RunSpec(sir, lo, State(), trace[k..])
      {
        assert trace[k..][0] == trace[k] && trace[k..][1..] == trace[k + 1..];
        assert |trace[k..]| > 1 ==> trace[k..][1] == trace[k + 1];
        err := Step(trace[k], if k + 1 < |trace| then Some(trace[k + 1].bbIdx) else None);
        if err.Some? {
          at := k;
          return;
        }
      }
      err := None;
    }
  }

  /**
   * The end of `TirTrace::new`: the last-use table sorted, highest index
   * first, and a `StorageDead` inserted after each local's last use.
   * Removing the `StorageDead`s gives back the operations as built.
   */
  method PlaceStorageDeads(built: seq<TirOp>, lastUse: map<Local, nat>, ghost lo: LocalsOf) returns (ops: seq<TirOp>)
    requires NoStorageDeads(built) && IsLastUseTable(lastUse, built, lo)
    ensures exists deads: seq<Death> :: SortedListing(deads, lastUse) && ops == WithDeads(built, deads, |built|)
    ensures Erase(ops) == built
  {
    var deads := SortDeaths(lastUse);
    ops := InsertStorageDeads(built, deads);
    WithDeadsErase(built, deads, |built|);
    assert built[..|built|] == built;
  }

  /**
   * `TirTrace::new`: the trace built from the recorded locations, with a
   * `StorageDead` after the last use of each local. On success the
   * operations, with the `StorageDead`s removed, obey the def/use rule, and
   * each operation is followed by exactly the `StorageDead`s of the locals
   * it uses last. `NoSir` names a recorded function without SIR.
   */
  method NewTrace(sir: map<string, Body>, trace: seq<SirLoc>, lo: LocalsOf) returns (r: Result<Trace>)
    ensures var spec := RunSpec(sir, lo, InitialState, trace);
              && (r.Ok? <==> spec.Ok?)
              && (r.Err? ==> r.err == spec.err)
              && (r.Ok? ==> Erase(r.value.ops) == spec.value.ops && r.value.addrMap == spec.value.addrMap)
    ensures r.Err? && r.err.NoSir? ==>
              r.err.symbol !in sir && exists k :: 0 <= k < |trace| && trace[k].symbol == r.err.symbol
    ensures (exists k :: 0 <= k < |trace| && trace[k].symbol !in sir) ==> r.Err?
    ensures r.Ok? ==> exists built: seq<TirOp>, lastUse: map<Local, nat>, deads: seq<Death> ::
              && Erase(r.value.ops) == built
              && DefsBeforeUses(built, lo)
              && NoStorageDeads(built)
              && IsLastUseTable(lastUse, built, lo)
              && SortedListing(deads, lastUse)
              && r.value.ops == WithDeads(built, deads, |built|)
  {
    var b := new TraceBuilder(sir, lo);
    var err, at := b.Run(trace);
    if err.Some? {
      return Err(err.value);
    }
    var built := b.ops;
    var lastUse := b.du.lastUseSites;
    assert DefsBeforeUses(built, lo) && NoStorageDeads(built) && IsLastUseTable(lastUse, built, lo);
    var ops := PlaceStorageDeads(built, lastUse, lo);
    r := Ok(Trace(ops, b.rnm.localDecls, b.addrMap));
  }
}
