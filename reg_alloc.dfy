/**
 * The bookkeeping of the x86-64 linear-scan register allocator
 * (ykrt/src/compile/jitc_yk/codegen/x64/lsregalloc.rs).
 *
 * The allocator tracks, for each of the 16 general purpose and 16 floating
 * point registers, what the register holds (`RegState`), a 16-bit `RegSet`
 * saying which registers are in use, and for each trace instruction where
 * its value has been spilled (`SpillState`). Machine code emission is not
 * modelled: only the effect of each operation on this bookkeeping is.
 *
 * The IR module is reduced to the facts the allocator consults (`IrModule`),
 * and the reverse liveness analysis `RevAnalyse` is a set of uninterpreted
 * functions supplied by the caller. The abstract stack is reduced to its
 * size in bytes.
 */
module RegAlloc {
  import opened Wrappers

  /** A register number: the index into `GP_REGS` or `FP_REGS`. */
  type Reg = r: nat | r < 16

  const RAX: Reg := 0
  const RSP: Reg := 4
  const RBP: Reg := 5

  /** RSP and RBP are reserved by the System V ABI and never handed out. */
  const RESERVED_GP_REGS: seq<Reg> := [RSP, RBP]

  predicate IsGpReserved(r: Reg) {
    r == RSP || r == RBP
  }

  // ---------------------------------------------------------------------
  // RegSet: which of 16 registers are in use, one bit per register.
  // ---------------------------------------------------------------------

  /**
   * The registers whose bit is set in the source's 16-bit mask: bit `r`
   * stands for register `r`.
   */
  datatype RegSet = RegSet(regs: set<Reg>)

  /** Whether register `r`'s bit is set. */
  predicate IsSet(s: RegSet, r: Reg) {
    r in s.regs
  }

  /** Every register. */
  const ALL_REGS: set<Reg> := set q: Reg | 0 <= q < 16

  /** `RegSet::blank`: no register in use. */
  function Blank(): (s: RegSet)
    ensures forall q: Reg :: !IsSet(s, q)
  {
    RegSet({})
  }

  /** `RegSet::set`: register `r` becomes used and no other bit changes. */
  function Set(s: RegSet, r: Reg): (t: RegSet)
    ensures forall q: Reg :: IsSet(t, q) <==> q == r || IsSet(s, q)
  {
    RegSet(s.regs + {r})
  }

  /** `RegSet::unset`: register `r` becomes unused and no other bit changes. */
  function Unset(s: RegSet, r: Reg): (t: RegSet)
    ensures forall q: Reg :: IsSet(t, q) <==> q != r && IsSet(s, q)
  {
    RegSet(s.regs - {r})
  }

  /** `RegSet::union`: the registers used in either set (bitwise or). */
  function Union(s: RegSet, o: RegSet): (t: RegSet)
    ensures forall q: Reg :: IsSet(t, q) <==> IsSet(s, q) || IsSet(o, q)
  {
    RegSet(s.regs + o.regs)
  }

  /** `From<Rq> for RegSet`: the set holding only `r`. */
  function Singleton(r: Reg): (t: RegSet)
    ensures forall q: Reg :: IsSet(t, q) <==> q == r
  {
    Set(Blank(), r)
  }

  /**
   * Scanning down from register `k - 1`, the first register not in `s`.
   * Over all sixteen registers this is `15 - (!s).leading_zeros()`.
   */
  function HighestClearBelow(s: RegSet, k: nat): (r: Option<Reg>)
    requires k <= 16
    ensures r.None? <==> forall q: Reg :: q < k ==> IsSet(s, q)
    ensures r.Some? ==> r.value < k && !IsSet(s, r.value)
    ensures r.Some? ==> forall q: Reg :: r.value < q < k ==> IsSet(s, q)
  {
    if k == 0 then None
    else if !IsSet(s, k - 1) then Some(k - 1)
    else HighestClearBelow(s, k - 1)
  }

  /**
   * `find_empty`: the highest-numbered free register (the lower ones are the
   * ones x86-64 instructions most often need), `None` iff all 16 are used.
   */
  function FindEmpty(s: RegSet): (r: Option<Reg>)
    ensures r.None? <==> forall q: Reg :: IsSet(s, q)
    ensures r.Some? ==> !IsSet(s, r.value) && forall q: Reg :: r.value < q ==> IsSet(s, q)
  {
    HighestClearBelow(s, 16)
  }

  /** `find_empty_avoiding`: `find_empty` over the union of `s` and `avoid`. */
  function FindEmptyAvoiding(s: RegSet, avoid: RegSet): (r: Option<Reg>)
    ensures r.None? <==> forall q: Reg :: IsSet(s, q) || IsSet(avoid, q)
    ensures r.Some? ==> !IsSet(s, r.value) && !IsSet(avoid, r.value)
    ensures r.Some? ==> forall q: Reg :: r.value < q ==> IsSet(s, q) || IsSet(avoid, q)
  {
    FindEmpty(Union(s, avoid))
  }

  /** `iter_set_bits` restricted to registers `k..16`, in increasing order. */
  function SetBitsFrom(s: RegSet, k: nat): (rs: seq<Reg>)
    requires k <= 16
    ensures forall q: Reg :: q in rs <==> k <= q && IsSet(s, q)
    ensures forall i, j :: 0 <= i < j < |rs| ==> rs[i] < rs[j]
    decreases 16 - k
  {
    if k == 16 then []
    else
      var rest := SetBitsFrom(s, k + 1);
      assert forall j :: 0 <= j < |rest| ==> k < rest[j] by {
        forall j | 0 <= j < |rest|
          ensures k < rest[j]
        {
          assert rest[j] in rest;
        }
      }
      if IsSet(s, k) then [k as Reg] + rest else rest
  }

  /** `iter_set_bits`: the used registers in increasing order. */
  function SetBits(s: RegSet): seq<Reg> {
    SetBitsFrom(s, 0)
  }

  /** `from_vec`: the set of the listed registers. */
  method FromVec(regs: seq<Reg>) returns (s: RegSet)
    ensures forall q: Reg :: IsSet(s, q) <==> q in regs
  {
    s := Blank();
    for i := 0 to |regs|
      invariant forall q: Reg :: IsSet(s, q) <==> q in regs[..i]
    {
      assert regs[..i + 1] == regs[..i] + [regs[i]];
      s := Set(s, regs[i]);
    }
    assert regs[..|regs|] == regs;
  }

  /** `with_gp_reserved`: the set holding exactly the reserved registers. */
  method WithGpReserved() returns (s: RegSet)
    ensures forall q: Reg :: IsSet(s, q) <==> IsGpReserved(q)
  {
    s := FromVec(RESERVED_GP_REGS);
  }

  /** The unit test `regset`: highest free register first, down to RAX. */
  lemma RegSetExample()
    ensures FindEmpty(Blank()) == Some(15)
    ensures FindEmpty(Set(Blank(), 15)) == Some(14)
    ensures FindEmpty(Set(Set(Blank(), 15), 14)) == Some(13)
    ensures FindEmpty(Unset(Set(Set(Blank(), 15), 14), 14)) == Some(14)
    ensures FindEmpty(RegSet(ALL_REGS)) == None
    ensures FindEmpty(Unset(RegSet(ALL_REGS), RAX)) == Some(RAX)
    ensures FindEmptyAvoiding(Blank(), Singleton(15)) == Some(14)
  {
    var noRax := Unset(RegSet(ALL_REGS), RAX);
    assert !IsSet(noRax, RAX);
    assert forall q: Reg :: q != RAX ==> IsSet(noRax, q);
  }

  // ---------------------------------------------------------------------
  // What a register holds, where an instruction is spilled.
  // ---------------------------------------------------------------------

  /**
   * What is known about the bits of a 64-bit register above a value's own
   * width, and, in a constraint, what the caller wants them to be.
   */
  datatype RegExtension = Undefined | ZeroExtended | SignExtended

  /** A trace IR operand: an instruction's value or a constant. */
  datatype Operand = Var(iidx: nat) | Const(cidx: nat)

  datatype RegState =
    | Reserved
    | Empty
    | FromConst(cidx: nat, ext: RegExtension)
    | FromInst(iidx: nat, ext: RegExtension)

  /**
   * Where an instruction's value is spilled. `Empty`: not spilled (or never
   * used again). Two instructions may share a `Stack` or `Direct` slot.
   */
  datatype SpillState =
    | Empty
    | Stack(off: int)
    | Direct(off: int)
    | ConstInt(bits: nat, v: nat)

  /** `is_input_in_gp_reg`'s test: does register state `st` hold `op`? */
  predicate Holds(st: RegState, op: Operand) {
    match op
    case Const(c) => st.FromConst? && st.cidx == c
    case Var(i) => st.FromInst? && st.iidx == i
  }

  /** The register file's states agree with its `RegSet`. */
  ghost predicate Agrees(used: RegSet, states: seq<RegState>)
    requires |states| == 16
  {
    forall r: Reg :: IsSet(used, r) <==> !states[r].Empty?
  }

  /**
   * An extension `have` meets the wish `want`: an `Undefined` wish is met by
   * anything, otherwise the two must be equal.
   */
  predicate Meets(have: RegExtension, want: RegExtension) {
    want == Undefined || have == want
  }

  /**
   * `align_extensions`' table: the extension a register ends with when its
   * current extension is `cur` and `next` is wanted.
   */
  function Aligned(cur: RegExtension, next: RegExtension): RegExtension {
    match (cur, next)
    case (Undefined, Undefined) => Undefined
    case (Undefined, ZeroExtended) => ZeroExtended
    case (SignExtended, ZeroExtended) => ZeroExtended
    case (ZeroExtended, Undefined) => ZeroExtended
    case (ZeroExtended, ZeroExtended) => ZeroExtended
    case (Undefined, SignExtended) => SignExtended
    case (ZeroExtended, SignExtended) => SignExtended
    case (SignExtended, Undefined) => SignExtended
    case (SignExtended, SignExtended) => SignExtended
  }

  /**
   * Aligning always meets the wish, and it changes nothing when the wish is
   * already met; in particular an `Undefined` wish never changes anything.
   */
  lemma AlignedMeets(cur: RegExtension, next: RegExtension)
    ensures Meets(Aligned(cur, next), next)
    ensures Meets(cur, next) <==> Aligned(cur, next) == cur
    ensures next == Undefined ==> Aligned(cur, next) == cur
    ensures next != Undefined ==> Aligned(cur, next) == next
  {}

  /** A register state with its extension replaced. */
  function WithExt(st: RegState, e: RegExtension): RegState
    requires st.FromConst? || st.FromInst?
  {
    if st.FromConst? then FromConst(st.cidx, e) else FromInst(st.iidx, e)
  }

  // The register-to-register operations as functions on the register file.

  /** `copy_gp_reg`: `to` gets `from`'s state; `from` keeps it. */
  function CopiedStates(s: seq<RegState>, from: Reg, to: Reg): seq<RegState>
    requires |s| == 16
  {
    s[to := s[from]]
  }

  /** `move_gp_reg`: `to` gets `from`'s state and `from` becomes `Empty`. */
  function MovedStates(s: seq<RegState>, from: Reg, to: Reg): seq<RegState>
    requires |s| == 16
  {
    s[to := s[from]][from := RegState.Empty]
  }

  /** `swap_gp_reg`: the states of `a` and `b` are exchanged. */
  function SwappedStates(s: seq<RegState>, a: Reg, b: Reg): seq<RegState>
    requires |s| == 16
  {
    s[a := s[b]][b := s[a]]
  }

  /** A point update replaces one occurrence in the multiset of a sequence. */
  lemma UpdateMultiset(s: seq<RegState>, i: nat, x: RegState)
    requires i < |s|
    ensures multiset(s[i := x]) == multiset(s) - multiset{s[i]} + multiset{x}
  {
  }

  /** Swapping keeps every value held and swapping back restores the file. */
  lemma SwapIsPermutation(s: seq<RegState>, a: Reg, b: Reg)
    requires |s| == 16
    ensures multiset(SwappedStates(s, a, b)) == multiset(s)
    ensures SwappedStates(SwappedStates(s, a, b), a, b) == s
  {
    var t := s[a := s[b]];
    UpdateMultiset(s, a, s[b]);
    UpdateMultiset(t, b, s[a]);
    var u := SwappedStates(s, a, b);
    assert forall i :: 0 <= i < 16 ==> SwappedStates(u, a, b)[i] == s[i];
  }

  /**
   * Moving into an empty register keeps every value held, and moving back
   * restores the register file.
   */
  lemma MoveIsPermutation(s: seq<RegState>, from: Reg, to: Reg)
    requires |s| == 16
    requires from != to && s[to].Empty?
    ensures multiset(MovedStates(s, from, to)) == multiset(s)
    ensures MovedStates(MovedStates(s, from, to), to, from) == s
  {
    var t := s[to := s[from]];
    assert multiset(t) == multiset(s) - multiset{RegState.Empty} + multiset{s[from]};
    assert multiset(t[from := RegState.Empty]) == multiset(t) - multiset{s[from]} + multiset{RegState.Empty};
  }

  /**
   * Copying, moving and swapping registers that hold values keep the register
   * file in agreement with the correspondingly updated `RegSet`.
   */
  lemma RegisterOpsAgree(used: RegSet, s: seq<RegState>, a: Reg, b: Reg)
    requires |s| == 16 && Agrees(used, s)
    requires !s[a].Empty?
    ensures Agrees(Set(used, b), CopiedStates(s, a, b))
    ensures a != b ==> Agrees(Unset(Set(used, b), a), MovedStates(s, a, b))
    ensures !s[b].Empty? ==> Agrees(used, SwappedStates(s, a, b))
  {}

  // ---------------------------------------------------------------------
  // What the allocator consults: the IR module and the liveness analysis.
  // ---------------------------------------------------------------------

  /** A constant of the IR module; float bits are kept opaque. */
  datatype ConstVal = FloatVal(fbits: nat) | IntVal(bitw: nat, zext: nat) | PtrVal(addr: nat)

  /**
   * The constants `load_const_into_gp_reg` loads: integers of 1 to 32 bits
   * or of 64 bits, and pointers. Floats and other widths are `todo!`.
   */
  predicate ConstLoadable(c: ConstVal) {
    match c
    case FloatVal(_) => false
    case IntVal(w, _) => 1 <= w <= 32 || w == 64
    case PtrVal(_) => true
  }

  /** The bit widths `spill_gp_if_not_already` stores; any other is `unreachable!`. */
  predicate SpillableWidth(bitw: nat) {
    bitw == 1 || bitw == 8 || bitw == 16 || bitw == 32 || bitw == 64
  }

  /** The widths `force_zero_extend_to_reg64` extends: 1 to 32 bits, or 64; any other is `todo!`. */
  predicate ZeroExtendable(bitw: nat) {
    1 <= bitw <= 32 || bitw == 64
  }

  /** The widths `force_sign_extend_to_reg64` extends: 1, 8, 16, 32 or 64 bits; any other is `todo!`. */
  predicate SignExtendable(bitw: nat) {
    bitw == 1 || bitw == 8 || bitw == 16 || bitw == 32 || bitw == 64
  }

  /**
   * Whether `align_extensions` reaches no `todo!` for a `bitw`-bit value
   * whose extension is `cur` when `next` is wanted: a zero extension is
   * emitted when `next` is zero-extended and `cur` is not, a sign extension
   * when `next` is sign-extended and `cur` is not.
   */
  predicate AlignHandled(bitw: nat, cur: RegExtension, next: RegExtension) {
    && (next == ZeroExtended && cur != ZeroExtended ==> ZeroExtendable(bitw))
    && (next == SignExtended && cur != SignExtended ==> SignExtendable(bitw))
  }

  /** The bit width of an integer or pointer constant. */
  function ConstBitw(c: ConstVal): nat
    requires !c.FloatVal?
  {
    if c.IntVal? then c.bitw else 64
  }

  /**
   * The spill states `force_gp_unspill` loads a value of `size` bytes from:
   * a stack slot of 1, 2, 4 or 8 bytes, a direct slot of 8 bytes, or an 8- or
   * 32-bit constant. The rest are `todo!`.
   */
  predicate SlotLoadable(sp: SpillState, size: nat) {
    match sp
    case Empty => true
    case Stack(_) => size == 1 || size == 2 || size == 4 || size == 8
    case Direct(_) => size == 8
    case ConstInt(bits, _) => bits == 8 || bits == 32
  }

  /** The kinds of instruction the allocator tells apart. */
  datatype InstKind = CopyInst | ConstInst(cidx: nat) | OtherInst

  /**
   * The facts of the IR module the allocator reads: each instruction's kind,
   * the bit width and byte size of the value it defines, and whether it is
   * float-typed; and the constant table.
   */
  datatype IrModule = IrModule(
    kinds: seq<InstKind>,
    defBitw: seq<nat>,
    defByteSize: seq<nat>,
    isFloat: seq<bool>,
    consts: seq<ConstVal>)
  {
    function Len(): nat {
      |kinds|
    }

    ghost predicate WellFormed() {
      && |defBitw| == |kinds|
      && |defByteSize| == |kinds|
      && |isFloat| == |kinds|
      && (forall i :: 0 <= i < |kinds| ==> defByteSize[i] >= 1)
      && (forall i :: 0 <= i < |kinds| && kinds[i].ConstInst? ==> kinds[i].cidx < |consts|)
      && (forall i :: 0 <= i < |kinds| && kinds[i].ConstInst? ==>
            (isFloat[i] <==> consts[kinds[i].cidx].FloatVal?))
    }

    predicate OperandInRange(op: Operand) {
      match op
      case Var(i) => i < |kinds|
      case Const(c) => c < |consts|
    }

    /** Is the operand float-typed (and so not for a general purpose register)? */
    predicate OperandIsFloat(op: Operand)
      requires WellFormed() && OperandInRange(op)
    {
      match op
      case Var(i) => isFloat[i]
      case Const(c) => consts[c].FloatVal?
    }
  }

  /**
   * Whether loading operand `op` into a general purpose register reaches no
   * `todo!`: a constant must be loadable, and so must an instruction that is a
   * constant; any other instruction's spill slot must be loadable.
   */
  predicate Loadable(m: IrModule, spills: seq<SpillState>, op: Operand)
    requires m.WellFormed() && m.OperandInRange(op) && |spills| == m.Len()
  {
    match op
    case Const(c) => ConstLoadable(m.consts[c])
    case Var(i) =>
      if m.kinds[i].ConstInst? then ConstLoadable(m.consts[m.kinds[i].cidx])
      else SlotLoadable(spills[i], m.defByteSize[i])
  }

  /**
   * The bit width `align_extensions` reads off a general purpose register
   * state: the instruction's, or the constant's.
   */
  function StateBitw(m: IrModule, st: RegState): nat
    requires m.WellFormed() && (st.FromConst? || st.FromInst?)
    requires st.FromInst? ==> st.iidx < m.Len()
    requires st.FromConst? ==> st.cidx < |m.consts| && !m.consts[st.cidx].FloatVal?
  {
    if st.FromInst? then m.defBitw[st.iidx] else ConstBitw(m.consts[st.cidx])
  }

  /**
   * The bit width of `op`'s value once `put_input_in_gp_reg` has loaded it:
   * a constant's, or an instruction's unless the instruction is a constant,
   * which is loaded as that constant.
   */
  function LoadedBitw(m: IrModule, op: Operand): nat
    requires m.WellFormed() && m.OperandInRange(op) && !m.OperandIsFloat(op)
  {
    match op
    case Const(c) => ConstBitw(m.consts[c])
    case Var(i) => if m.kinds[i].ConstInst? then ConstBitw(m.consts[m.kinds[i].cidx]) else m.defBitw[i]
  }

  /**
   * `RevAnalyse`, the reverse liveness analysis, as uninterpreted functions:
   * whether instruction `q`'s value is still used at / after instruction
   * `i`, the next instruction after `i` that uses `q`, and the register hint
   * for each instruction's output (only general purpose hints are kept).
   */
  datatype RevAnalyse = RevAnalyse(
    stillUsedAt: (nat, nat) -> bool,
    stillUsedAfter: (nat, nat) -> bool,
    nextUse: (nat, nat) -> Option<nat>,
    regHint: nat -> Option<Reg>)

  /** What `expire_regs` does to one register's state before instruction `iidx`. */
  function Expired(ra: RevAnalyse, iidx: nat, st: RegState): RegState {
    match st
    case FromConst(_, _) => RegState.Empty
    case FromInst(q, _) => if ra.stillUsedAt(iidx, q) then st else RegState.Empty
    case _ => st
  }

  function ExpiredStates(ra: RevAnalyse, iidx: nat, s: seq<RegState>): (t: seq<RegState>)
    requires |s| == 16
    ensures |t| == 16
  {
    seq(16, r requires 0 <= r < 16 => Expired(ra, iidx, s[r]))
  }

  /**
   * After expiry no register holds a constant or an instruction whose value
   * is dead; every live instruction value stays where it was; reserved
   * registers stay reserved; and expiring twice changes nothing more.
   */
  lemma ExpiredSpec(ra: RevAnalyse, iidx: nat, s: seq<RegState>)
    requires |s| == 16
    ensures forall r: Reg :: !ExpiredStates(ra, iidx, s)[r].FromConst?
    ensures forall r: Reg :: ExpiredStates(ra, iidx, s)[r].FromInst? ==>
              ra.stillUsedAt(iidx, ExpiredStates(ra, iidx, s)[r].iidx)
    ensures forall r: Reg :: s[r].FromInst? && ra.stillUsedAt(iidx, s[r].iidx) ==>
              ExpiredStates(ra, iidx, s)[r] == s[r]
    ensures forall r: Reg :: s[r].Reserved? <==> ExpiredStates(ra, iidx, s)[r].Reserved?
    ensures ExpiredStates(ra, iidx, ExpiredStates(ra, iidx, s)) == ExpiredStates(ra, iidx, s)
  {}

  // ---------------------------------------------------------------------
  // Choosing a register to spill when none is free.
  // ---------------------------------------------------------------------

  /** A spill candidate: a register and the instruction whose value it holds. */
  datatype Candidate = Candidate(reg: Reg, from: nat)

  /**
   * How far away the candidate's value is next used (0 when the analysis
   * reports no further use, which never displaces another candidate).
   */
  function NextUseKey(ra: RevAnalyse, iidx: nat, from: nat): nat {
    match ra.nextUse(iidx, from)
    case Some(n) => n
    case None => 0
  }

  /**
   * The furthest-next-use rule as written in the allocator: the incumbent
   * records the candidate's *defining* instruction, and a later candidate
   * displaces it when the later one's next use lies beyond that defining
   * instruction, not beyond the incumbent's next use.
   */
  function FurthestAsWritten(ra: RevAnalyse, iidx: nat, cs: seq<Candidate>): (r: Option<Candidate>)
    ensures r.None? <==> |cs| == 0
    ensures r.Some? ==> r.value in cs
  {
    if |cs| == 0 then None
    else
      var c := cs[|cs| - 1];
      match FurthestAsWritten(ra, iidx, cs[..|cs| - 1])
      case None => Some(c)
      case Some(inc) =>
        match ra.nextUse(iidx, c.from)
        case Some(n) => if n > inc.from then Some(c) else Some(inc)
        case None => Some(inc)
  }

  /**
   * The rule as intended: keep the candidate whose value is next used
   * furthest away; among equals the earliest (lowest register) wins.
   */
  function Furthest(ra: RevAnalyse, iidx: nat, cs: seq<Candidate>): (r: Option<Candidate>)
  {
    if |cs| == 0 then None
    else
      var c := cs[|cs| - 1];
      match Furthest(ra, iidx, cs[..|cs| - 1])
      case None => Some(c)
      case Some(inc) =>
        if NextUseKey(ra, iidx, c.from) > NextUseKey(ra, iidx, inc.from) then Some(c) else Some(inc)
  }

  /**
   * `Furthest` picks a candidate whose next use is at least as far away as
   * every other candidate's, and it is `None` only when there are none.
   */
  lemma {:induction false} FurthestIsFurthest(ra: RevAnalyse, iidx: nat, cs: seq<Candidate>)
    ensures Furthest(ra, iidx, cs).None? <==> |cs| == 0
    ensures Furthest(ra, iidx, cs).Some? ==> Furthest(ra, iidx, cs).value in cs
    ensures Furthest(ra, iidx, cs).Some? ==>
              forall c :: c in cs ==>
                NextUseKey(ra, iidx, c.from) <= NextUseKey(ra, iidx, Furthest(ra, iidx, cs).value.from)
  {
    if |cs| > 0 {
      var init := cs[..|cs| - 1];
      FurthestIsFurthest(ra, iidx, init);
      assert cs == init + [cs[|cs| - 1]];
    }
  }

  /**
   * The rule as written can spill the value needed sooner. With RAX holding
   * instruction 1's value, next used at instruction 100, and RCX holding
   * instruction 2's value, next used at instruction 10, allocating at
   * instruction 5 spills RCX: 10 is compared with RAX's defining index 1.
   */
  lemma FurthestAsWrittenSpillsNearer()
    ensures var ra := RevAnalyse((i, q) => true, (i, q) => true,
                                 (i, q) => if q == 1 then Some(100) else Some(10),
                                 i => None);
            var cs := [Candidate(0, 1), Candidate(1, 2)];
            && FurthestAsWritten(ra, 5, cs) == Some(Candidate(1, 2))
            && NextUseKey(ra, 5, 1) > NextUseKey(ra, 5, 2)
            && Furthest(ra, 5, cs) == Some(Candidate(0, 1))
  {
    var ra := RevAnalyse((i, q) => true, (i, q) => true,
                         (i, q) => if q == 1 then Some(100) else Some(10),
                         i => None);
    var cs := [Candidate(0, 1), Candidate(1, 2)];
    assert cs[..1] == [Candidate(0, 1)];
    assert cs[..1][..0] == [];
  }

  /** A location the code generator can read an instruction's value from. */
  datatype Register = GP(gp: Reg) | FP(fp: Reg)

  datatype VarLocation =
    | InRegister(reg: Register)
    | StackSlot(frameOff: nat, size: nat)
    | DirectSlot(directOff: int, size: nat)
    | ConstIntLoc(bits: nat, v: nat)
    | ConstFloatLoc(fbits: nat)

  /** The lowest register in `s` holding `op` (`find_op_in_gp_reg`). */
  function FirstHolding(s: seq<RegState>, op: Operand): (r: Option<Reg>)
    requires |s| <= 16
    ensures r.None? <==> forall q :: 0 <= q < |s| ==> !Holds(s[q], op)
    ensures r.Some? ==> r.value < |s| && Holds(s[r.value], op)
    ensures r.Some? ==> forall q :: 0 <= q < r.value ==> !Holds(s[q], op)
  {
    if |s| == 0 then None
    else
      match FirstHolding(s[..|s| - 1], op)
      case Some(r) => Some(r)
      case None => if Holds(s[|s| - 1], op) then Some(|s| - 1) else None
  }

  /** The lowest register in `s` not in `avoid` holding `op`. */
  function FirstHoldingAvoiding(s: seq<RegState>, op: Operand, avoid: RegSet): (r: Option<Reg>)
    requires |s| <= 16
    ensures r.None? <==> forall q: Reg :: q < |s| && !IsSet(avoid, q) ==> !Holds(s[q], op)
    ensures r.Some? ==> r.value < |s| && !IsSet(avoid, r.value) && Holds(s[r.value], op)
  {
    if |s| == 0 then None
    else
      var k: Reg := |s| - 1;
      match FirstHoldingAvoiding(s[..k], op, avoid)
      case Some(r) => Some(r)
      case None => if !IsSet(avoid, k) && Holds(s[k], op) then Some(k) else None
  }

  /** `AbstractStack::align`: the size rounded up to a multiple of `align`. */
  function AlignUp(size: nat, align: nat): (r: nat)
    requires align >= 1
    ensures size <= r < size + align
  {
    if size % align == 0 then size else size + (align - size % align)
  }

  // ---------------------------------------------------------------------
  // Register constraints of one instruction.
  // ---------------------------------------------------------------------

  /**
   * `GPConstraint`: what an instruction needs from one general purpose
   * register. `Unconstrained` is the source's `GPConstraint::None`.
   */
  datatype GPConstraint =
    | Input(op: Operand, inExt: RegExtension, forceReg: Option<Reg>, clobberReg: bool)
    | InputOutput(op: Operand, inExt: RegExtension, outExt: RegExtension, forceReg: Option<Reg>)
    | Output(outExt: RegExtension, forceReg: Option<Reg>, canBeSameAsInput: bool)
    | Clobber(clobbered: Reg)
    | Temporary
    | Unconstrained

  predicate HasOperand(c: GPConstraint) {
    c.Input? || c.InputOutput?
  }

  predicate IsOutput(c: GPConstraint) {
    c.InputOutput? || c.Output?
  }

  /** The register the caller forces on this constraint, if any. */
  function Forced(c: GPConstraint): Option<Reg> {
    match c
    case Input(_, _, f, _) => f
    case InputOutput(_, _, _, f) => f
    case Output(_, f, _) => f
    case Clobber(r) => Some(r)
    case _ => None
  }

  function OutputCount(cs: seq<GPConstraint>): nat {
    if |cs| == 0 then 0
    else OutputCount(cs[..|cs| - 1]) + (if IsOutput(cs[|cs| - 1]) then 1 else 0)
  }

  predicate OperandsInRange(m: IrModule, cs: seq<GPConstraint>) {
    forall i :: 0 <= i < |cs| && HasOperand(cs[i]) ==> m.OperandInRange(cs[i].op)
  }

  predicate NoFloatOperands(m: IrModule, cs: seq<GPConstraint>)
    requires m.WellFormed() && OperandsInRange(m, cs)
  {
    forall i :: 0 <= i < |cs| && HasOperand(cs[i]) ==> !m.OperandIsFloat(cs[i].op)
  }

  /**
   * Among the first `n` constraints no forced register is reserved and no
   * register is forced twice.
   */
  predicate ForcedDistinctBelow(cs: seq<GPConstraint>, n: nat)
    requires n <= |cs|
  {
    && (forall i :: 0 <= i < n && Forced(cs[i]).Some? ==> !IsGpReserved(Forced(cs[i]).value))
    && (forall i, j :: 0 <= i < j < n && Forced(cs[i]).Some? ==> Forced(cs[i]) != Forced(cs[j]))
  }

  predicate ForcedDistinct(cs: seq<GPConstraint>) {
    ForcedDistinctBelow(cs, |cs|)
  }

  /**
   * Two constraints share a register only if one of them is `Unconstrained`
   * or both read the same operand.
   */
  ghost predicate SharesOnlyInputs(cs: seq<GPConstraint>, regs: seq<Option<Reg>>)
    requires |regs| == |cs|
  {
    forall k, l :: 0 <= k < l < |regs| && regs[k].Some? && regs[k] == regs[l] ==>
      || cs[k].Unconstrained? || cs[l].Unconstrained?
      || (HasOperand(cs[k]) && HasOperand(cs[l]) && cs[k].op == cs[l].op)
  }

  /** Why `assign_gp_regs` gives up (the source panics). */
  datatype AssignFailure =
    | FloatOperand
    | TooManyOutputs
    | ForcedTwice
    | ConstInRegister
    | NoRegistersLeft
    | ValueNowhere
    | UnhandledSize
    | OutputNotInRegister
    | OutOfFuel

  datatype Outcome<T> = Done(value: T) | Panicked(why: AssignFailure)

  /** The registers chosen for the constraints, and all registers claimed. */
  datatype Choice = Choice(regs: seq<Reg>, asgn: RegSet)

  /**
   * How a register's spill state ranks it as a spill candidate: 0 when its
   * instruction is a constant, 1 when it is already spilled, 2 otherwise.
   */
  function SpillRank(sp: SpillState): nat {
    match sp
    case ConstInt(_, _) => 0
    case Stack(_) => 1
    case Direct(_) => 1
    case Empty => 2
  }

  /**
   * The spill candidates of rank `rank` among registers `0..k`: registers not
   * in `asgn` holding an instruction value whose spill state has that rank.
   */
  function CandidatesOf(states: seq<RegState>, spills: seq<SpillState>, asgn: RegSet, k: nat, rank: nat): (cs: seq<Candidate>)
    requires |states| == 16 && k <= 16
    requires forall q: Reg :: states[q].FromInst? ==> states[q].iidx < |spills|
    ensures forall c :: c in cs ==>
              && c.reg < k && !IsSet(asgn, c.reg) && states[c.reg].FromInst? && states[c.reg].iidx == c.from
              && SpillRank(spills[c.from]) == rank
    ensures forall q: Reg :: q < k && !IsSet(asgn, q) && states[q].FromInst? && SpillRank(spills[states[q].iidx]) == rank ==>
              Candidate(q, states[q].iidx) in cs
  {
    if k == 0 then []
    else
      var q: Reg := k - 1;
      var init := CandidatesOf(states, spills, asgn, q, rank);
      if !IsSet(asgn, q) && states[q].FromInst? && SpillRank(spills[states[q].iidx]) == rank
      then init + [Candidate(q, states[q].iidx)]
      else init
  }

  /**
   * The register `assign_gp_regs` spills when none is free (with the
   * furthest-next-use rule as intended): a constant-valued register first,
   * the lowest such; else the already-spilled register whose value is next
   * used furthest away; else the furthest among the rest. A register holding
   * a constant operand is not handled (`todo!`).
   */
  function SpillChoice(states: seq<RegState>, spills: seq<SpillState>, ra: RevAnalyse, iidx: nat, asgn: RegSet): Outcome<Reg>
    requires |states| == 16
    requires forall q: Reg :: states[q].FromInst? ==> states[q].iidx < |spills|
  {
    if exists q: Reg :: !IsSet(asgn, q) && states[q].FromConst? then Panicked(ConstInRegister)
    else
      var consts := CandidatesOf(states, spills, asgn, 16, 0);
      var spilled := CandidatesOf(states, spills, asgn, 16, 1);
      var rest := CandidatesOf(states, spills, asgn, 16, 2);
      if |consts| > 0 then Done(consts[0].reg)
      else if |spilled| > 0 then Done(Furthest(ra, iidx, spilled).value.reg)
      else if |rest| > 0 then Done(Furthest(ra, iidx, rest).value.reg)
      else Panicked(NoRegistersLeft)
  }

  /** One more register considered adds at most that register as a candidate. */
  lemma CandidatesNext(states: seq<RegState>, spills: seq<SpillState>, asgn: RegSet, q: Reg, rank: nat)
    requires |states| == 16
    requires forall p: Reg :: states[p].FromInst? ==> states[p].iidx < |spills|
    ensures CandidatesOf(states, spills, asgn, q + 1, rank) ==
            if !IsSet(asgn, q) && states[q].FromInst? && SpillRank(spills[states[q].iidx]) == rank
            then CandidatesOf(states, spills, asgn, q, rank) + [Candidate(q, states[q].iidx)]
            else CandidatesOf(states, spills, asgn, q, rank)
  {
  }

  /** `Furthest` of a longer sequence compares the new candidate once. */
  lemma FurthestAppend(ra: RevAnalyse, iidx: nat, cs: seq<Candidate>, c: Candidate)
    ensures Furthest(ra, iidx, cs + [c]) ==
            match Furthest(ra, iidx, cs)
            case None => Some(c)
            case Some(inc) => if NextUseKey(ra, iidx, c.from) > NextUseKey(ra, iidx, inc.from) then Some(c) else Some(inc)
  {
    assert (cs + [c])[..|cs|] == cs;
  }

  /** The register of the first candidate, if any. */
  function FirstReg(cs: seq<Candidate>): Option<Reg> {
    if |cs| == 0 then None else Some(cs[0].reg)
  }

  /**
   * One register considered by the spill choice: a register holding a
   * constant is not handled; one holding an instruction's value becomes a
   * candidate of its rank (the first for constants, the furthest next use
   * for the others).
   */
  method ConsiderForSpill(states: seq<RegState>, spills: seq<SpillState>, ra: RevAnalyse, iidx: nat, asgn: RegSet,
                          q: Reg, c0: Option<Reg>, c1: Option<Candidate>, c2: Option<Candidate>)
    returns (panic: bool, d0: Option<Reg>, d1: Option<Candidate>, d2: Option<Candidate>)
    requires |states| == 16
    requires forall p: Reg :: states[p].FromInst? ==> states[p].iidx < |spills|
    requires !IsSet(asgn, q) ==> states[q].FromConst? || states[q].FromInst?
    requires c0 == FirstReg(CandidatesOf(states, spills, asgn, q, 0))
    requires c1 == Furthest(ra, iidx, CandidatesOf(states, spills, asgn, q, 1))
    requires c2 == Furthest(ra, iidx, CandidatesOf(states, spills, asgn, q, 2))
    ensures panic <==> !IsSet(asgn, q) && states[q].FromConst?
    ensures !panic ==> && d0 == FirstReg(CandidatesOf(states, spills, asgn, q + 1, 0))
                       && d1 == Furthest(ra, iidx, CandidatesOf(states, spills, asgn, q + 1, 1))
                       && d2 == Furthest(ra, iidx, CandidatesOf(states, spills, asgn, q + 1, 2))
  {
    CandidatesNext(states, spills, asgn, q, 0);
    CandidatesNext(states, spills, asgn, q, 1);
    CandidatesNext(states, spills, asgn, q, 2);
    d0, d1, d2 := c0, c1, c2;
    if IsSet(asgn, q) {
      return false, d0, d1, d2;
    }
    if states[q].FromConst? {
      return true, d0, d1, d2;
    }
    var from := states[q].iidx;
    var c := Candidate(q, from);
    var rank := SpillRank(spills[from]);
    FurthestAppend(ra, iidx, CandidatesOf(states, spills, asgn, q, rank), c);
    // Constants first, then values already spilled, then the rest.
    if rank == 0 {
      if c0.None? {
        d0 := Some(q);
      }
    } else if rank == 1 {
      if c1.None? || NextUseKey(ra, iidx, from) > NextUseKey(ra, iidx, c1.value.from) {
        d1 := Some(c);
      }
    } else {
      if c2.None? || NextUseKey(ra, iidx, from) > NextUseKey(ra, iidx, c2.value.from) {
        d2 := Some(c);
      }
    }
    panic := false;
  }

  /**
   * The spilled register is one the instruction has not claimed and it holds
   * an instruction's value. If some candidate's value is a constant, a
   * constant's register is spilled; otherwise, if some candidate is already
   * spilled, the spilled candidate used furthest away is chosen; otherwise
   * the candidate used furthest away.
   */
  lemma SpillChoiceSpec(states: seq<RegState>, spills: seq<SpillState>, ra: RevAnalyse, iidx: nat, asgn: RegSet)
    requires |states| == 16
    requires forall q: Reg :: states[q].FromInst? ==> states[q].iidx < |spills|
    ensures var r := SpillChoice(states, spills, ra, iidx, asgn);
            && (r.Done? ==> !IsSet(asgn, r.value) && states[r.value].FromInst?)
            && (r.Done? ==> forall q: Reg :: !IsSet(asgn, q) && states[q].FromInst? ==>
                  SpillRank(spills[states[r.value].iidx]) <= SpillRank(spills[states[q].iidx]))
            && (r.Done? && SpillRank(spills[states[r.value].iidx]) > 0 ==>
                  forall q: Reg ::
                    (!IsSet(asgn, q) && states[q].FromInst?
                     && SpillRank(spills[states[q].iidx]) == SpillRank(spills[states[r.value].iidx])) ==>
                    NextUseKey(ra, iidx, states[q].iidx) <= NextUseKey(ra, iidx, states[r.value].iidx))
            && (r == Panicked(NoRegistersLeft) ==> forall q: Reg :: !IsSet(asgn, q) ==> !states[q].FromInst?)
  {
    var consts := CandidatesOf(states, spills, asgn, 16, 0);
    var spilled := CandidatesOf(states, spills, asgn, 16, 1);
    var rest := CandidatesOf(states, spills, asgn, 16, 2);
    FurthestIsFurthest(ra, iidx, spilled);
    FurthestIsFurthest(ra, iidx, rest);
    if |consts| > 0 {
      assert consts[0] in consts;
    }
  }

  /** An output constraint anywhere in `cs` makes `OutputCount` positive. */
  lemma {:induction false} OneOutput(cs: seq<GPConstraint>, k: nat)
    requires k < |cs| && IsOutput(cs[k])
    ensures OutputCount(cs) >= 1
  {
    var init := cs[..|cs| - 1];
    if k < |cs| - 1 {
      assert init[k] == cs[k];
      OneOutput(init, k);
    }
  }

  /** Two output constraints make `OutputCount` at least two. */
  lemma {:induction false} TwoOutputs(cs: seq<GPConstraint>, k: nat, l: nat)
    requires k < l < |cs| && IsOutput(cs[k]) && IsOutput(cs[l])
    ensures OutputCount(cs) >= 2
  {
    var init := cs[..|cs| - 1];
    assert init[k] == cs[k];
    if l == |cs| - 1 {
      OneOutput(init, k);
    } else {
      assert init[l] == cs[l];
      TwoOutputs(init, k, l);
    }
  }

  /**
   * The register hint an output constraint receives: the analysis's hint for
   * the instruction, provided it is not reserved, no constraint forces it and
   * some output constraint is not forced.
   */
  function HintedReg(cs: seq<GPConstraint>, hint: Option<Reg>): Option<Reg> {
    if && hint.Some? && !IsGpReserved(hint.value)
       && (forall j :: 0 <= j < |cs| ==> Forced(cs[j]) != hint)
       && (exists j :: 0 <= j < |cs| && IsOutput(cs[j]) && Forced(cs[j]).None?)
    then hint
    else None
  }

  /** Is `q` reserved, forced by a constraint, or given as the output's hint? */
  predicate IsClaimed(cs: seq<GPConstraint>, hint: Option<Reg>, q: Reg) {
    || IsGpReserved(q)
    || (exists j :: 0 <= j < |cs| && Forced(cs[j]) == Some(q))
    || HintedReg(cs, hint) == Some(q)
  }

  function Unwrapped(regs: seq<Option<Reg>>): (rs: seq<Reg>)
    requires forall i :: 0 <= i < |regs| ==> regs[i].Some?
    ensures |rs| == |regs| && forall i :: 0 <= i < |regs| ==> regs[i] == Some(rs[i])
  {
    if |regs| == 0 then [] else Unwrapped(regs[..|regs| - 1]) + [regs[|regs| - 1].value]
  }

  /**
   * The registers chosen for the constraints are usable: one per constraint;
   * nothing reserved handed out; the claimed set covers the reserved
   * registers and every register of a constraint that matters; and a
   * register is shared only by inputs of the same operand or with an
   * `Unconstrained` constraint.
   */
  ghost predicate WellChosen(cs: seq<GPConstraint>, ch: Choice) {
    && |ch.regs| == |cs|
    && (forall i :: 0 <= i < |cs| ==> !IsGpReserved(ch.regs[i]))
    && (forall q: Reg :: IsGpReserved(q) ==> IsSet(ch.asgn, q))
    && (forall i :: 0 <= i < |cs| && !cs[i].Unconstrained? ==> IsSet(ch.asgn, ch.regs[i]))
    && (forall k, l :: 0 <= k < l < |cs| && ch.regs[k] == ch.regs[l] ==>
          || cs[k].Unconstrained? || cs[l].Unconstrained?
          || (HasOperand(cs[k]) && HasOperand(cs[l]) && cs[k].op == cs[l].op))
  }

  /**
   * What stage 1 of `assign_gp_regs` guarantees of its choice: it is well
   * chosen, forced registers are honoured and `Unconstrained` gets RAX.
   */
  ghost predicate GoodChoice(cs: seq<GPConstraint>, ch: Choice) {
    && WellChosen(cs, ch)
    && (forall i :: 0 <= i < |cs| && Forced(cs[i]).Some? ==> ch.regs[i] == Forced(cs[i]).value)
    && (forall i :: 0 <= i < |cs| && cs[i].Unconstrained? ==> ch.regs[i] == RAX)
  }

  /**
   * What stage 1d keeps of the registers chosen so far: it fills in the
   * missing ones with registers claimed by no one before, and the result is
   * well chosen.
   */
  ghost predicate GoodChoiceFrom(cs: seq<GPConstraint>, regs0: seq<Option<Reg>>, asgn0: RegSet, ch: Choice) {
    && |regs0| == |cs|
    && WellChosen(cs, ch)
    && (forall k :: 0 <= k < |cs| && regs0[k].Some? ==> ch.regs[k] == regs0[k].value)
    && (forall k :: 0 <= k < |cs| && regs0[k].None? ==> !IsSet(asgn0, ch.regs[k]))
    && (forall q: Reg :: IsSet(asgn0, q) ==> IsSet(ch.asgn, q))
  }

  /** A register state holds at most one operand. */
  lemma HoldsOneOperand(st: RegState, a: Operand, b: Operand)
    requires Holds(st, a) && Holds(st, b)
    ensures a == b
  {
  }

  /** Spill slots may be filled in but never change once filled. */
  ghost predicate SpillsGrow(before: seq<SpillState>, after: seq<SpillState>) {
    && |after| == |before|
    && forall i :: 0 <= i < |before| && !before[i].Empty? ==> after[i] == before[i]
  }

  /** Does some input constraint read the value in state `st`? */
  ghost predicate WantedBy(cs: seq<GPConstraint>, st: RegState) {
    exists j :: 0 <= j < |cs| && HasOperand(cs[j]) && Holds(st, cs[j].op)
  }

  /** The first constraint assigned register `q`. */
  function FirstUsing(regs: seq<Reg>, q: Reg): (j: Option<nat>)
    ensures j.Some? ==> j.value < |regs| && regs[j.value] == q && forall k :: 0 <= k < j.value ==> regs[k] != q
    ensures j.None? ==> forall k :: 0 <= k < |regs| ==> regs[k] != q
  {
    if |regs| == 0 then None
    else if regs[0] == q then Some(0)
    else match FirstUsing(regs[1..], q)
      case Some(j) => Some(j + 1)
      case None => None
  }

  /** No constraint that matters shares constraint `k`'s register. */
  predicate SoleUser(cs: seq<GPConstraint>, regs: seq<Reg>, k: nat)
    requires |regs| == |cs| && k < |cs|
  {
    forall j :: 0 <= j < |cs| && j != k && !cs[j].Unconstrained? ==> regs[j] != regs[k]
  }

  /**
   * The state `assign_gp_regs` leaves constraint `k`'s register in: an input
   * holds its operand with its upper bits as asked, unless clobbered; an
   * output holds instruction `iidx`'s value with the promised extension; a
   * clobbered or temporary register is empty.
   */
  ghost predicate Settled(states: seq<RegState>, cs: seq<GPConstraint>, regs: seq<Reg>, iidx: nat, k: nat)
    requires |states| == 16 && |regs| == |cs| && k < |cs|
  {
    var st := states[regs[k]];
    match cs[k]
    case Input(op, inExt, _, clobber) => if clobber then st.Empty? else Holds(st, op) && Meets(st.ext, inExt)
    case InputOutput(_, _, outExt, _) => st == FromInst(iidx, outExt)
    case Output(outExt, _, _) => st == FromInst(iidx, outExt)
    case Clobber(_) => st.Empty?
    case Temporary => st.Empty?
    case Unconstrained => true
  }

  /**
   * Stage 1a of `assign_gp_regs`: give every forced constraint its register.
   * This fails (the source's assertion) exactly when a forced register is
   * reserved or forced twice.
   */
  method AssignForcedRegs(cs: seq<GPConstraint>) returns (ok: bool, regs: seq<Option<Reg>>, asgn: RegSet)
    ensures ok <==> ForcedDistinct(cs)
    ensures ok ==> |regs| == |cs| && forall i :: 0 <= i < |cs| ==> regs[i] == Forced(cs[i])
    ensures ok ==> forall q: Reg :: IsSet(asgn, q) <==>
                     IsGpReserved(q) || exists i :: 0 <= i < |cs| && Forced(cs[i]) == Some(q)
  {
    regs := seq(|cs|, _ => None);
    asgn := WithGpReserved();
    for i := 0 to |cs|
      invariant |regs| == |cs|
      invariant forall k :: 0 <= k < |cs| ==> regs[k] == (if k < i then Forced(cs[k]) else None)
      invariant forall q: Reg :: IsSet(asgn, q) <==>
                  IsGpReserved(q) || exists k :: 0 <= k < i && Forced(cs[k]) == Some(q)
      invariant ForcedDistinctBelow(cs, i)
    {
      var f := Forced(cs[i]);
      if f.Some? {
        if IsSet(asgn, f.value) {
          if !IsGpReserved(f.value) {
            var k :| 0 <= k < i && Forced(cs[k]) == f;
            assert Forced(cs[k]) == Forced(cs[i]);
          }
          return false, regs, asgn;
        }
        regs := regs[i := f];
        asgn := Set(asgn, f.value);
      }
    }
    ok := true;
  }

  /** `find_op_in_constraints`: does an input constraint read `query`? */
  method FindOpInConstraints(cs: seq<GPConstraint>, query: Operand) returns (b: bool)
    ensures b <==> exists i :: 0 <= i < |cs| && HasOperand(cs[i]) && cs[i].op == query
  {
    for i := 0 to |cs|
      invariant forall k :: 0 <= k < i && HasOperand(cs[k]) ==> cs[k].op != query
    {
      match cs[i] {
        case Input(op, _, _, _) =>
          if op == query {
            return true;
          }
        case InputOutput(op, _, _, _) =>
          if op == query {
            return true;
          }
        case _ =>
      }
    }
    return false;
  }

  // ---------------------------------------------------------------------
  // The allocator.
  // ---------------------------------------------------------------------

  class LSRegAlloc {
    const m: IrModule
    /** The liveness analysis; `reset` replaces it with the body's. */
    var ra: RevAnalyse
    /** Which general purpose registers are in use. */
    var gpRegset: RegSet
    const gpRegStates: array<RegState>
    /** Which floating point registers are in use. */
    var fpRegset: RegSet
    const fpRegStates: array<RegState>
    /** Where each instruction's value is spilled. */
    var spills: seq<SpillState>
    /** The size in bytes of the abstract stack. */
    var stackSize: nat

    /**
     * A register's bit is set exactly when its state is not `Empty`; RSP and
     * RBP, and only they, are `Reserved`; no floating point register is
     * reserved; registers only hold instructions of the module.
     */
    ghost predicate Valid()
      reads this, gpRegStates, fpRegStates
    {
      && gpRegStates.Length == 16 && fpRegStates.Length == 16
      && gpRegStates != fpRegStates
      && m.WellFormed() && |spills| == m.Len()
      && Agrees(gpRegset, gpRegStates[..])
      && Agrees(fpRegset, fpRegStates[..])
      && (forall r: Reg :: gpRegStates[r].Reserved? <==> IsGpReserved(r))
      && (forall r: Reg :: !fpRegStates[r].Reserved?)
      && (forall r: Reg :: gpRegStates[r].FromInst? ==> gpRegStates[r].iidx < |spills|)
      && (forall r: Reg :: fpRegStates[r].FromInst? ==> fpRegStates[r].iidx < |spills|)
    }

    /**
     * `new`: every register empty except the reserved RSP and RBP, nothing
     * spilled, and the stack as large as the interpreter's frame.
     */
    constructor(m: IrModule, ra: RevAnalyse, interpStackLen: nat)
      requires m.WellFormed()
      ensures Valid() && fresh(gpRegStates) && fresh(fpRegStates)
      ensures this.m == m && this.ra == ra
      ensures forall r: Reg :: gpRegStates[r] == (if IsGpReserved(r) then Reserved else RegState.Empty)
      ensures forall r: Reg :: fpRegStates[r] == RegState.Empty
      ensures forall r: Reg :: IsSet(gpRegset, r) <==> IsGpReserved(r)
      ensures spills == seq(m.Len(), _ => SpillState.Empty)
      ensures stackSize == interpStackLen
    {
      this.m := m;
      this.ra := ra;
      var gp := new RegState[16](_ => RegState.Empty);
      for i := 0 to |RESERVED_GP_REGS|
        invariant forall r: Reg :: gp[r] == (if r in RESERVED_GP_REGS[..i] then Reserved else RegState.Empty)
      {
        gp[RESERVED_GP_REGS[i]] := Reserved;
      }
      assert RESERVED_GP_REGS[..|RESERVED_GP_REGS|] == RESERVED_GP_REGS;
      var reserved := WithGpReserved();
      gpRegStates := gp;
      fpRegStates := new RegState[16](_ => RegState.Empty);
      gpRegset := reserved;
      fpRegset := Blank();
      spills := seq(m.Len(), _ => SpillState.Empty);
      stackSize := interpStackLen;
    }

    /**
     * `reset`, on moving from the trace header to its body: every register
     * empty except the reserved ones, with the analysis of the body in place.
     * Spills and the stack are kept.
     */
    method Reset(bodyAnalysis: RevAnalyse)
      requires Valid()
      modifies this, gpRegStates, fpRegStates
      ensures Valid()
      ensures forall r: Reg :: gpRegStates[r] == (if IsGpReserved(r) then Reserved else RegState.Empty)
      ensures forall r: Reg :: fpRegStates[r] == RegState.Empty
      ensures forall r: Reg :: IsSet(gpRegset, r) <==> IsGpReserved(r)
      ensures ra == bodyAnalysis
      ensures spills == old(spills) && stackSize == old(stackSize)
    {
      for i := 0 to 16
        modifies gpRegStates
        invariant forall r: Reg :: r < i ==> gpRegStates[r] == RegState.Empty
      {
        gpRegStates[i] := RegState.Empty;
      }
      for i := 0 to |RESERVED_GP_REGS|
        modifies gpRegStates
        invariant forall r: Reg :: gpRegStates[r] == (if r in RESERVED_GP_REGS[..i] then Reserved else RegState.Empty)
      {
        gpRegStates[RESERVED_GP_REGS[i]] := Reserved;
      }
      assert RESERVED_GP_REGS[..|RESERVED_GP_REGS|] == RESERVED_GP_REGS;
      gpRegset := WithGpReserved();
      for i := 0 to 16
        modifies fpRegStates
        invariant forall r: Reg :: r < i ==> fpRegStates[r] == RegState.Empty
      {
        fpRegStates[i] := RegState.Empty;
      }
      fpRegset := Blank();
      ra := bodyAnalysis;
    }

    /**
     * `expire_regs` before instruction `iidx`: constants are dropped from
     * registers and so are instruction values no longer used at `iidx`; the
     * register sets follow.
     */
    method ExpireRegs(iidx: nat)
      requires Valid()
      modifies this, gpRegStates, fpRegStates
      ensures Valid()
      ensures gpRegStates[..] == ExpiredStates(ra, iidx, old(gpRegStates[..]))
      ensures fpRegStates[..] == ExpiredStates(ra, iidx, old(fpRegStates[..]))
      ensures ra == old(ra) && spills == old(spills) && stackSize == old(stackSize)
    {
      ghost var gp0 := gpRegStates[..];
      ghost var fp0 := fpRegStates[..];
      for i := 0 to 16
        modifies this, gpRegStates
        invariant forall r: Reg :: gpRegStates[r] == (if r < i then Expired(ra, iidx, gp0[r]) else gp0[r])
        invariant Agrees(gpRegset, gpRegStates[..])
        invariant fpRegset == old(fpRegset)
        invariant ra == old(ra) && spills == old(spills) && stackSize == old(stackSize)
      {
        match gpRegStates[i]
        case Reserved =>
        case Empty =>
        case FromConst(_, _) =>
          gpRegset := Unset(gpRegset, i);
          gpRegStates[i] := RegState.Empty;
        case FromInst(q, _) =>
          if !ra.stillUsedAt(iidx, q) {
            gpRegset := Unset(gpRegset, i);
            gpRegStates[i] := RegState.Empty;
          }
      }
      assert gpRegStates[..] == ExpiredStates(ra, iidx, gp0);
      ghost var gpUsed := gpRegset;
      for i := 0 to 16
        modifies this, fpRegStates
        invariant forall r: Reg :: fpRegStates[r] == (if r < i then Expired(ra, iidx, fp0[r]) else fp0[r])
        invariant Agrees(fpRegset, fpRegStates[..])
        invariant gpRegset == gpUsed
        invariant ra == old(ra) && spills == old(spills) && stackSize == old(stackSize)
      {
        match fpRegStates[i]
        case Reserved =>
        case Empty =>
        case FromConst(_, _) =>
          fpRegset := Unset(fpRegset, i);
          fpRegStates[i] := RegState.Empty;
        case FromInst(q, _) =>
          if !ra.stillUsedAt(iidx, q) {
            fpRegset := Unset(fpRegset, i);
            fpRegStates[i] := RegState.Empty;
          }
      }
    }
  
    /** `find_op_in_gp_reg`: the lowest register holding `op`'s value. */
    function FindOpInGpReg(op: Operand): (r: Option<Reg>)
      requires Valid()
      reads this, gpRegStates, fpRegStates
      ensures r.None? <==> forall q: Reg :: !Holds(gpRegStates[q], op)
      ensures r.Some? ==> Holds(gpRegStates[r.value], op) && IsSet(gpRegset, r.value)
      ensures r.Some? ==> !IsGpReserved(r.value)
      ensures r.Some? ==> forall q: Reg :: q < r.value ==> !Holds(gpRegStates[q], op)
    {
      FirstHolding(gpRegStates[..], op)
    }

    /** `find_op_in_gp_reg_avoiding`: a register outside `avoid` holding `op`. */
    function FindOpInGpRegAvoiding(op: Operand, avoid: RegSet): (r: Option<Reg>)
      requires Valid()
      reads this, gpRegStates, fpRegStates
      ensures r.None? <==> forall q: Reg :: !IsSet(avoid, q) ==> !Holds(gpRegStates[q], op)
      ensures r.Some? ==> Holds(gpRegStates[r.value], op) && !IsSet(avoid, r.value)
      ensures r.Some? ==> IsSet(gpRegset, r.value) && !IsGpReserved(r.value)
    {
      FirstHoldingAvoiding(gpRegStates[..], op, avoid)
    }

    /** `is_input_in_gp_reg`: does `reg` hold `op`'s value? */
    function IsInputInGpReg(op: Operand, reg: Reg): (b: bool)
      requires Valid() && !IsGpReserved(reg)
      reads this, gpRegStates, fpRegStates
      ensures b ==> IsSet(gpRegset, reg) && FindOpInGpReg(op).Some?
      ensures b <==> Holds(gpRegStates[reg], op)
    {
      match gpRegStates[reg]
      case Empty => false
      case FromConst(c, _) => op.Const? && op.cidx == c
      case FromInst(i, _) => op.Var? && op.iidx == i
    }

    /**
     * `align_extensions`: bring `reg`'s extension in line with `next` and
     * return the extension it had before. When the extension needed is one
     * the source leaves `todo!` for the value's width, `ok` is false and
     * nothing changes.
     */
    method AlignExtensions(reg: Reg, next: RegExtension) returns (prev: RegExtension, ok: bool)
      requires Valid()
      requires gpRegStates[reg].FromConst? || gpRegStates[reg].FromInst?
      requires gpRegStates[reg].FromConst? ==>
                 gpRegStates[reg].cidx < |m.consts| && !m.consts[gpRegStates[reg].cidx].FloatVal?
      modifies gpRegStates
      ensures Valid()
      ensures prev == old(gpRegStates[reg]).ext
      ensures ok <==> AlignHandled(StateBitw(m, old(gpRegStates[reg])), prev, next)
      ensures ok ==> gpRegStates[..] == old(gpRegStates[..])[reg := WithExt(old(gpRegStates[reg]), Aligned(prev, next))]
      ensures ok ==> Meets(gpRegStates[reg].ext, next)
      ensures !ok ==> gpRegStates[..] == old(gpRegStates[..])
    {
      prev := gpRegStates[reg].ext;
      ok := AlignHandled(StateBitw(m, gpRegStates[reg]), prev, next);
      if !ok {
        return;
      }
      AlignedMeets(prev, next);
      gpRegStates[reg] := WithExt(gpRegStates[reg], Aligned(prev, next));
    }

    /** `copy_gp_reg`: `newReg` gets a copy of `oldReg`'s value and state. */
    method CopyGpReg(oldReg: Reg, newReg: Reg)
      requires Valid()
      requires oldReg != newReg
      requires gpRegStates[oldReg].FromConst? || gpRegStates[oldReg].FromInst?
      requires !IsGpReserved(newReg)
      modifies this, gpRegStates
      ensures Valid()
      ensures gpRegStates[..] == CopiedStates(old(gpRegStates[..]), oldReg, newReg)
      ensures gpRegset == Set(old(gpRegset), newReg)
      ensures ra == old(ra) && spills == old(spills) && stackSize == old(stackSize)
      ensures fpRegset == old(fpRegset)
    {
      RegisterOpsAgree(gpRegset, gpRegStates[..], oldReg, newReg);
      gpRegset := Set(gpRegset, newReg);
      gpRegStates[newReg] := gpRegStates[oldReg];
    }

    /** `move_gp_reg`: `newReg` takes over `oldReg`'s value; `oldReg` empties. */
    method MoveGpReg(oldReg: Reg, newReg: Reg)
      requires Valid()
      requires oldReg != newReg
      requires gpRegStates[oldReg].FromConst? || gpRegStates[oldReg].FromInst?
      requires !IsGpReserved(newReg)
      modifies this, gpRegStates
      ensures Valid()
      ensures gpRegStates[..] == MovedStates(old(gpRegStates[..]), oldReg, newReg)
      ensures gpRegset == Unset(Set(old(gpRegset), newReg), oldReg)
      ensures ra == old(ra) && spills == old(spills) && stackSize == old(stackSize)
      ensures fpRegset == old(fpRegset)
    {
      RegisterOpsAgree(gpRegset, gpRegStates[..], oldReg, newReg);
      gpRegset := Set(gpRegset, newReg);
      gpRegStates[newReg] := gpRegStates[oldReg];
      gpRegStates[oldReg] := RegState.Empty;
      gpRegset := Unset(gpRegset, oldReg);
    }

    /** `swap_gp_reg`: two registers in use exchange values and states. */
    method SwapGpReg(oldReg: Reg, newReg: Reg)
      requires Valid()
      requires IsSet(gpRegset, oldReg) && IsSet(gpRegset, newReg)
      requires !IsGpReserved(oldReg) && !IsGpReserved(newReg)
      modifies gpRegStates
      ensures Valid()
      ensures gpRegStates[..] == SwappedStates(old(gpRegStates[..]), oldReg, newReg)
    {
      RegisterOpsAgree(gpRegset, gpRegStates[..], oldReg, newReg);
      gpRegStates[oldReg], gpRegStates[newReg] := gpRegStates[newReg], gpRegStates[oldReg];
    }
  
    /**
     * `spill_gp_if_not_already`: if `reg` holds an instruction's value that is
     * used after `curIidx` and has not been spilled, give it a fresh stack
     * slot above the current stack. A spilled instruction is never given a
     * second slot. A value to spill whose width is not 1, 8, 16, 32 or 64
     * bits is `unreachable!` in the source: `ok` is false.
     */
    method SpillGpIfNotAlready(curIidx: nat, reg: Reg) returns (ok: bool)
      requires Valid() && !IsGpReserved(reg)
      modifies this, gpRegStates
      ensures Valid()
      ensures ra == old(ra) && gpRegset == old(gpRegset) && fpRegset == old(fpRegset)
      ensures forall i :: 0 <= i < |spills| && !old(spills[i]).Empty? ==> spills[i] == old(spills[i])
      ensures var st := old(gpRegStates[reg]);
              ok <==> !(st.FromInst? && ra.stillUsedAfter(curIidx, st.iidx) && old(spills[st.iidx]).Empty?)
                      || SpillableWidth(m.defBitw[st.iidx])
      ensures var st := old(gpRegStates[reg]);
              if ok && st.FromInst? && ra.stillUsedAfter(curIidx, st.iidx) && old(spills[st.iidx]).Empty? then
                && spills == old(spills)[st.iidx := Stack(stackSize)]
                && stackSize >= old(stackSize) + m.defByteSize[st.iidx]
                && gpRegStates[..] == old(gpRegStates[..])[reg :=
                     if m.defBitw[st.iidx] == 1 then WithExt(st, Aligned(Aligned(st.ext, ZeroExtended), st.ext))
                     else st]
              else
                && spills == old(spills) && stackSize == old(stackSize)
                && gpRegStates[..] == old(gpRegStates[..])
    {
      ok := true;
      match gpRegStates[reg]
      case Empty =>
      case FromConst(_, _) =>
      case FromInst(q, _) =>
        if ra.stillUsedAfter(curIidx, q) && spills[q].Empty? {
          if !SpillableWidth(m.defBitw[q]) {
            return false;
          }
          var bytew := m.defByteSize[q];
          stackSize := AlignUp(stackSize, bytew);
          stackSize := stackSize + bytew;
          var off := stackSize;
          if m.defBitw[q] == 1 {
            // A single bit is stored as a zero-extended byte.
            var prevExt, _ := AlignExtensions(reg, ZeroExtended);
            var _, _ := AlignExtensions(reg, prevExt);
          }
          spills := spills[q := Stack(off)];
        }
    }

    /**
     * `load_const_into_gp_reg`: `reg` holds constant `cidx`, zero-extended.
     * A float constant, or an integer of neither 1 to 32 nor 64 bits, is a
     * `todo!` of the source: `ok` is false and nothing changes.
     */
    method LoadConstIntoGpReg(cidx: nat, reg: Reg) returns (ok: bool)
      requires Valid() && !IsGpReserved(reg)
      requires cidx < |m.consts|
      modifies this, gpRegStates
      ensures Valid()
      ensures ok <==> ConstLoadable(m.consts[cidx])
      ensures ok ==> gpRegStates[..] == old(gpRegStates[..])[reg := FromConst(cidx, ZeroExtended)]
      ensures ok ==> gpRegset == Set(old(gpRegset), reg)
      ensures !ok ==> gpRegStates[..] == old(gpRegStates[..]) && gpRegset == old(gpRegset)
      ensures ra == old(ra) && spills == old(spills) && stackSize == old(stackSize)
      ensures fpRegset == old(fpRegset)
    {
      if !ConstLoadable(m.consts[cidx]) {
        return false;
      }
      ok := true;
      gpRegset := Set(gpRegset, reg);
      gpRegStates[reg] := FromConst(cidx, ZeroExtended);
    }

    /**
     * `force_gp_unspill`: load instruction `iidx`'s value into `reg`, from the
     * constant it is, from its spill slot, or from the register it is in.
     * It fails with `ValueNowhere` when the value is nowhere (the source's
     * `unwrap` panics), and with `UnhandledSize` when the load is a `todo!`
     * of the source (see `Loadable`).
     */
    method ForceGpUnspill(iidx: nat, reg: Reg) returns (fail: Option<AssignFailure>)
      requires Valid() && !IsGpReserved(reg)
      requires iidx < m.Len()
      modifies this, gpRegStates
      ensures Valid()
      ensures ra == old(ra) && spills == old(spills) && stackSize == old(stackSize)
      ensures fpRegset == old(fpRegset)
      ensures fail == Some(ValueNowhere) <==>
                !m.kinds[iidx].ConstInst? && old(spills[iidx]).Empty? && old(FindOpInGpReg(Var(iidx))).None?
      ensures fail == Some(UnhandledSize) <==> !Loadable(m, spills, Var(iidx))
      ensures fail.Some? ==> fail.value == ValueNowhere || fail.value == UnhandledSize
      ensures fail.None? && m.kinds[iidx].ConstInst? ==>
                gpRegStates[..] == old(gpRegStates[..])[reg := FromConst(m.kinds[iidx].cidx, ZeroExtended)]
      ensures fail.None? && !m.kinds[iidx].ConstInst? ==>
                gpRegStates[..] == old(gpRegStates[..])[reg := FromInst(iidx, ZeroExtended)]
      ensures fail.None? ==> gpRegset == Set(old(gpRegset), reg)
      ensures fail.Some? ==> gpRegStates[..] == old(gpRegStates[..]) && gpRegset == old(gpRegset)
    {
      if m.kinds[iidx].ConstInst? {
        var ok := LoadConstIntoGpReg(m.kinds[iidx].cidx, reg);
        return if ok then None else Some(UnhandledSize);
      }
      if spills[iidx].Empty? {
        var cur := FindOpInGpReg(Var(iidx));
        if cur.None? {
          return Some(ValueNowhere);
        }
        // The value is copied from `cur.value` into `reg` (no state change).
      } else if !SlotLoadable(spills[iidx], m.defByteSize[iidx]) {
        return Some(UnhandledSize);
      }
      fail := None;
      gpRegset := Set(gpRegset, reg);
      gpRegStates[reg] := FromInst(iidx, ZeroExtended);
    }

    /**
     * `put_input_in_gp_reg`: make `reg` hold `op`'s value with its upper bits
     * meeting `ext`, loading it if it is not already there. It fails with
     * `ValueNowhere` exactly when the value is nowhere to be loaded from, and
     * with `UnhandledSize` when loading it, or extending it as `ext` asks, is
     * a `todo!` of the source; on failure nothing changes.
     */
    method PutInputInGpReg(op: Operand, reg: Reg, ext: RegExtension) returns (fail: Option<AssignFailure>)
      requires Valid() && !IsGpReserved(reg)
      requires m.OperandInRange(op) && !m.OperandIsFloat(op)
      modifies this, gpRegStates
      ensures Valid()
      ensures ra == old(ra) && spills == old(spills) && stackSize == old(stackSize)
      ensures fpRegset == old(fpRegset)
      ensures fail == Some(ValueNowhere) <==>
                && op.Var? && !Holds(old(gpRegStates[reg]), op)
                && !m.kinds[op.iidx].ConstInst? && old(spills[op.iidx]).Empty?
                && old(FindOpInGpReg(op)).None?
      ensures fail == Some(UnhandledSize) <==>
                if Holds(old(gpRegStates[reg]), op) then
                  !AlignHandled(StateBitw(m, old(gpRegStates[reg])), old(gpRegStates[reg]).ext, ext)
                else
                  || !Loadable(m, spills, op)
                  || (fail != Some(ValueNowhere) && !AlignHandled(LoadedBitw(m, op), ZeroExtended, ext))
      ensures fail.Some? ==> fail.value == ValueNowhere || fail.value == UnhandledSize
      ensures fail.None? ==> Holds(gpRegStates[reg], op) && Meets(gpRegStates[reg].ext, ext)
      ensures fail.None? ==> gpRegset == Set(old(gpRegset), reg)
      ensures fail.None? ==> gpRegStates[..] == old(gpRegStates[..])[reg := gpRegStates[reg]]
      ensures fail.None? && !Holds(old(gpRegStates[reg]), op) ==>
                gpRegStates[reg] == (if op.Const? then FromConst(op.cidx, ext) else FromInst(op.iidx, ext))
      ensures fail.None? && Holds(old(gpRegStates[reg]), op) ==>
                gpRegStates[reg] == WithExt(old(gpRegStates[reg]), Aligned(old(gpRegStates[reg]).ext, ext))
      ensures fail.Some? ==> gpRegStates[..] == old(gpRegStates[..]) && gpRegset == old(gpRegset)
    {
      if IsInputInGpReg(op, reg) {
        var _, ok := AlignExtensions(reg, ext);
        assert Agrees(gpRegset, gpRegStates[..]);
        return if ok then None else Some(UnhandledSize);
      }
      var st0, set0 := gpRegStates[reg], gpRegset;
      var st: RegState;
      match op {
        case Const(c) =>
          var loaded := LoadConstIntoGpReg(c, reg);
          if !loaded {
            return Some(UnhandledSize);
          }
          st := FromConst(c, ext);
        case Var(i) =>
          fail := ForceGpUnspill(i, reg);
          if fail.Some? {
            return;
          }
          st := FromInst(i, ext);
      }
      var _, ok := AlignExtensions(reg, ext);
      if !ok {
        // The source panics here; the model gives the register back.
        gpRegStates[reg] := st0;
        gpRegset := set0;
        return Some(UnhandledSize);
      }
      fail := None;
      Occupy(reg, st);
    }

    /** General purpose register `reg` now holds `st`, and its bit is set. */
    method Occupy(reg: Reg, st: RegState)
      requires Valid() && !IsGpReserved(reg)
      requires (st.FromConst? || st.FromInst?) && (st.FromInst? ==> st.iidx < |spills|)
      modifies this, gpRegStates
      ensures Valid()
      ensures gpRegset == Set(old(gpRegset), reg) && gpRegStates[..] == old(gpRegStates[..])[reg := st]
      ensures ra == old(ra) && spills == old(spills) && stackSize == old(stackSize) && fpRegset == old(fpRegset)
    {
      gpRegset := Set(gpRegset, reg);
      gpRegStates[reg] := st;
    }

    /**
     * `var_location`: where instruction `iidx`'s value can be read. A general
     * purpose register holding it comes first, then a floating point one;
     * otherwise a constant instruction is its constant and any other
     * instruction is where it was spilled. `None` where the source panics: a
     * `Copy` instruction, an instruction never spilled, or a stack offset that
     * does not fit an unsigned frame offset.
     */
    function VarLocationOf(iidx: nat): (loc: Option<VarLocation>)
      requires Valid() && iidx < m.Len()
      reads this, gpRegStates, fpRegStates
      ensures FindOpInGpReg(Var(iidx)).Some? ==> loc == Some(InRegister(GP(FindOpInGpReg(Var(iidx)).value)))
      ensures loc.Some? && loc.value.InRegister? && loc.value.reg.FP? ==>
                FindOpInGpReg(Var(iidx)).None? && Holds(fpRegStates[loc.value.reg.fp], Var(iidx))
      ensures loc.Some? && !loc.value.InRegister? ==>
                forall q: Reg :: !Holds(gpRegStates[q], Var(iidx)) && !Holds(fpRegStates[q], Var(iidx))
      ensures loc.Some? && (loc.value.StackSlot? || loc.value.DirectSlot?) ==>
                && m.kinds[iidx].OtherInst?
                && loc.value.size == m.defByteSize[iidx]
                && spills[iidx] == (if loc.value.StackSlot? then Stack(loc.value.frameOff)
                                    else Direct(loc.value.directOff))
      ensures loc.None? <==>
                && (forall q: Reg :: !Holds(gpRegStates[q], Var(iidx)) && !Holds(fpRegStates[q], Var(iidx)))
                && (|| m.kinds[iidx].CopyInst?
                    || (m.kinds[iidx].OtherInst? && (spills[iidx].Empty? || (spills[iidx].Stack? && spills[iidx].off < 0))))
    {
      match FirstHolding(gpRegStates[..], Var(iidx))
      case Some(r) => Some(InRegister(GP(r)))
      case None =>
        match FirstHolding(fpRegStates[..], Var(iidx))
        case Some(r) => Some(InRegister(FP(r)))
        case None =>
          var size := m.defByteSize[iidx];
          match m.kinds[iidx]
          case CopyInst => None
          case ConstInst(c) =>
            (match m.consts[c]
             case FloatVal(f) => Some(ConstFloatLoc(f))
             case IntVal(bitw, v) => Some(ConstIntLoc(bitw, v))
             case PtrVal(p) => Some(ConstIntLoc(64, p)))
          case OtherInst =>
            match spills[iidx]
            case Empty => None
            case Stack(off) => if off < 0 then None else Some(StackSlot(off, size))
            case Direct(off) => Some(DirectSlot(off, size))
            case ConstInt(bits, v) => Some(ConstIntLoc(bits, v))
    }

    /**
     * The spill choice of `assign_gp_regs` when no register outside `asgn` is
     * free: one pass over the registers keeping the best candidate of each
     * rank.
     */
    method ChooseSpillReg(iidx: nat, asgn: RegSet) returns (r: Outcome<Reg>)
      requires Valid()
      requires forall q: Reg :: IsSet(gpRegset, q) || IsSet(asgn, q)
      requires forall q: Reg :: IsGpReserved(q) ==> IsSet(asgn, q)
      ensures r == SpillChoice(gpRegStates[..], spills, ra, iidx, asgn)
      ensures r.Done? ==> !IsSet(asgn, r.value) && !IsGpReserved(r.value)
    {
      var states := gpRegStates[..];
      SpillChoiceSpec(states, spills, ra, iidx, asgn);
      var cndConst: Option<Reg> := None;
      var cndSpill: Option<Candidate> := None;
      var cndFurthest: Option<Candidate> := None;
      for q := 0 to 16
        invariant forall p: Reg :: p < q && !IsSet(asgn, p) ==> !states[p].FromConst?
        invariant cndConst == FirstReg(CandidatesOf(states, spills, asgn, q, 0))
        invariant cndSpill == Furthest(ra, iidx, CandidatesOf(states, spills, asgn, q, 1))
        invariant cndFurthest == Furthest(ra, iidx, CandidatesOf(states, spills, asgn, q, 2))
      {
        var panic;
        panic, cndConst, cndSpill, cndFurthest := ConsiderForSpill(states, spills, ra, iidx, asgn, q,
                                                                   cndConst, cndSpill, cndFurthest);
        if panic {
          return Panicked(ConstInRegister);
        }
      }
      FurthestIsFurthest(ra, iidx, CandidatesOf(states, spills, asgn, 16, 1));
      FurthestIsFurthest(ra, iidx, CandidatesOf(states, spills, asgn, 16, 2));
      if cndConst.Some? {
        r := Done(cndConst.value);
      } else if cndSpill.Some? {
        r := Done(cndSpill.value.reg);
      } else if cndFurthest.Some? {
        r := Done(cndFurthest.value.reg);
      } else {
        r := Panicked(NoRegistersLeft);
      }
    }

    /**
     * Stage 1b of `assign_gp_regs`: an output constraint that is not forced
     * gets the analysis's register hint for the instruction, if no one has
     * claimed it.
     */
    method AssignHintedReg(iidx: nat, cs: seq<GPConstraint>, regs0: seq<Option<Reg>>, asgn0: RegSet)
      returns (regs: seq<Option<Reg>>, asgn: RegSet)
      requires OutputCount(cs) <= 1
      requires |regs0| == |cs| && forall i :: 0 <= i < |cs| ==> regs0[i] == Forced(cs[i])
      requires ForcedDistinct(cs)
      requires forall q: Reg :: IsSet(asgn0, q) <==>
                 IsGpReserved(q) || exists i :: 0 <= i < |cs| && Forced(cs[i]) == Some(q)
      ensures |regs| == |cs|
      ensures forall i :: 0 <= i < |cs| ==>
                regs[i] == if IsOutput(cs[i]) && Forced(cs[i]).None? then HintedReg(cs, ra.regHint(iidx)) else Forced(cs[i])
      ensures forall q: Reg :: IsSet(asgn, q) <==> IsClaimed(cs, ra.regHint(iidx), q)
      ensures forall i :: 0 <= i < |cs| && regs[i].Some? ==> IsSet(asgn, regs[i].value) && !IsGpReserved(regs[i].value)
      ensures forall k, l :: 0 <= k < l < |cs| && regs[k].Some? ==> regs[k] != regs[l]
    {
      regs, asgn := regs0, asgn0;
      var hint := ra.regHint(iidx);
      for i := 0 to |cs|
        invariant |regs| == |cs|
        invariant forall k :: 0 <= k < |cs| ==>
                    regs[k] == if k < i && IsOutput(cs[k]) && Forced(cs[k]).None? then HintedReg(cs, hint) else Forced(cs[k])
        invariant forall q: Reg :: IsSet(asgn, q) <==>
                    (|| IsSet(asgn0, q)
                     || (HintedReg(cs, hint) == Some(q) && exists k :: 0 <= k < i && IsOutput(cs[k]) && Forced(cs[k]).None?))
      {
        if regs[i].Some? {
          continue;
        }
        if IsOutput(cs[i]) && hint.Some? {
          if !IsSet(asgn, hint.value) {
            regs := regs[i := hint];
            asgn := Set(asgn, hint.value);
          } else if !IsSet(asgn0, hint.value) {
            // The hint went to an earlier output: there is only one.
            ghost var k :| 0 <= k < i && IsOutput(cs[k]) && Forced(cs[k]).None?;
            TwoOutputs(cs, k, i);
            assert false;
          }
        }
      }
      forall k, l | 0 <= k < l < |cs| && regs[k].Some?
        ensures regs[k] != regs[l]
      {
        if IsOutput(cs[k]) && Forced(cs[k]).None? && IsOutput(cs[l]) && Forced(cs[l]).None? {
          TwoOutputs(cs, k, l);
        }
      }
    }

    /**
     * The register an input constraint not yet assigned can reuse: the
     * lowest register already holding its operand, unless claimed. An
     * `Unconstrained` constraint gets RAX, which it ignores.
     */
    function ReusedReg(c: GPConstraint, asgn: RegSet): Option<Reg>
      requires Valid()
      reads this, gpRegStates, fpRegStates
    {
      if c.Unconstrained? then Some(RAX)
      else if HasOperand(c) then
        match FindOpInGpReg(c.op)
        case Some(q) => if IsSet(asgn, q) then None else Some(q)
        case None => None
      else None
    }

    /**
     * Stage 1c of `assign_gp_regs`: inputs already in an unclaimed register
     * stay there (several inputs of one operand share it); the registers so
     * used are claimed afterwards.
     */
    method ReuseInputRegs(cs: seq<GPConstraint>, regs0: seq<Option<Reg>>, asgn0: RegSet)
      returns (regs: seq<Option<Reg>>, asgn: RegSet)
      requires Valid() && |regs0| == |cs|
      requires forall q: Reg :: IsGpReserved(q) ==> IsSet(asgn0, q)
      requires forall k :: 0 <= k < |cs| && regs0[k].Some? ==>
                 IsSet(asgn0, regs0[k].value) && !IsGpReserved(regs0[k].value) && !cs[k].Unconstrained?
      requires forall k, l :: 0 <= k < l < |cs| && regs0[k].Some? ==> regs0[k] != regs0[l]
      ensures |regs| == |cs|
      ensures forall i :: 0 <= i < |cs| ==> regs[i] == if regs0[i].Some? then regs0[i] else ReusedReg(cs[i], asgn0)
      ensures forall q: Reg :: IsSet(asgn, q) <==>
                IsSet(asgn0, q) || exists i :: 0 <= i < |cs| && regs0[i].None? && HasOperand(cs[i]) && regs[i] == Some(q)
      ensures forall k :: 0 <= k < |cs| && regs[k].Some? ==> !IsGpReserved(regs[k].value)
      ensures forall k :: 0 <= k < |cs| && regs[k].Some? && !cs[k].Unconstrained? ==> IsSet(asgn, regs[k].value)
      ensures forall k :: 0 <= k < |cs| && regs[k].None? ==> !cs[k].Unconstrained?
      ensures SharesOnlyInputs(cs, regs)
    {
      regs := regs0;
      var inputRegs := Blank();
      for i := 0 to |cs|
        invariant |regs| == |cs|
        invariant forall k :: 0 <= k < |cs| ==>
                    regs[k] == if k < i && regs0[k].None? then ReusedReg(cs[k], asgn0) else regs0[k]
        invariant forall q: Reg :: IsSet(inputRegs, q) <==>
                    exists k :: 0 <= k < i && regs0[k].None? && HasOperand(cs[k]) && regs[k] == Some(q)
      {
        if regs[i].Some? {
          continue;
        }
        match cs[i] {
          case Input(op, _, _, _) =>
            var r := FindOpInGpReg(op);
            if r.Some? && !IsSet(asgn0, r.value) {
              inputRegs := Set(inputRegs, r.value);
              regs := regs[i := r];
            }
          case InputOutput(op, _, _, _) =>
            var r := FindOpInGpReg(op);
            if r.Some? && !IsSet(asgn0, r.value) {
              inputRegs := Set(inputRegs, r.value);
              regs := regs[i := r];
            }
          case Unconstrained =>
            regs := regs[i := Some(RAX)];
          case _ =>
        }
      }
      asgn := Union(asgn0, inputRegs);
      forall k, l | 0 <= k < l < |regs| && regs[k].Some? && regs[k] == regs[l]
        ensures || cs[k].Unconstrained? || cs[l].Unconstrained?
                || (HasOperand(cs[k]) && HasOperand(cs[l]) && cs[k].op == cs[l].op)
      {
        if regs0[k].None? && regs0[l].None? && HasOperand(cs[k]) && HasOperand(cs[l]) {
          HoldsOneOperand(gpRegStates[regs[k].value], cs[k].op, cs[l].op);
        }
      }
    }

    /**
     * Stage 1d of `assign_gp_regs`: every constraint still without a register
     * gets a free one not yet claimed or, failing that, one whose value is
     * spilled (`ChooseSpillReg`).
     */
    method AssignRemainingRegs(iidx: nat, cs: seq<GPConstraint>, regs0: seq<Option<Reg>>, asgn0: RegSet)
      returns (r: Outcome<Choice>)
      requires Valid() && |regs0| == |cs|
      requires forall q: Reg :: IsGpReserved(q) ==> IsSet(asgn0, q)
      requires forall k :: 0 <= k < |cs| && regs0[k].Some? ==> !IsGpReserved(regs0[k].value)
      requires forall k :: 0 <= k < |cs| && regs0[k].Some? && !cs[k].Unconstrained? ==> IsSet(asgn0, regs0[k].value)
      requires forall k :: 0 <= k < |cs| && regs0[k].None? ==> !cs[k].Unconstrained?
      requires SharesOnlyInputs(cs, regs0)
      ensures r.Done? ==> GoodChoiceFrom(cs, regs0, asgn0, r.value)
      ensures r.Panicked? ==> r.why == ConstInRegister || r.why == NoRegistersLeft
    {
      var regs := regs0;
      var asgn := asgn0;
      for i := 0 to |cs|
        invariant |regs| == |cs|
        invariant forall k :: 0 <= k < |cs| && (k >= i || regs0[k].Some?) ==> regs[k] == regs0[k]
        invariant forall k :: 0 <= k < i ==> regs[k].Some?
        invariant forall k :: 0 <= k < |cs| && regs[k].Some? ==> !IsGpReserved(regs[k].value)
        invariant forall k :: 0 <= k < |cs| && regs[k].Some? && !cs[k].Unconstrained? ==> IsSet(asgn, regs[k].value)
        invariant forall k :: 0 <= k < |cs| && regs0[k].None? && regs[k].Some? ==> !IsSet(asgn0, regs[k].value)
        invariant forall q: Reg :: IsSet(asgn0, q) ==> IsSet(asgn, q)
        invariant SharesOnlyInputs(cs, regs)
      {
        if regs[i].Some? {
          continue;
        }
        var reg: Reg;
        match FindEmptyAvoiding(gpRegset, asgn) {
          case Some(q) =>
            reg := q;
          case None =>
            var spill := ChooseSpillReg(iidx, asgn);
            match spill {
              case Done(q) =>
                reg := q;
              case Panicked(why) =>
                return Panicked(why);
            }
        }
        regs := regs[i := Some(reg)];
        asgn := Set(asgn, reg);
      }
      r := Done(Choice(Unwrapped(regs), asgn));
    }

    /**
     * Stage 1 of `assign_gp_regs`: choose a register for every constraint
     * without changing the allocator. Float operands, more than one output
     * and a register forced twice (or a reserved one forced) are errors.
     * An output not forced gets the register hint when it is unclaimed; an
     * input not forced whose operand's lowest register is unclaimed reuses
     * that register.
     */
    method ChooseRegs(iidx: nat, cs: seq<GPConstraint>) returns (r: Outcome<Choice>)
      requires Valid() && OperandsInRange(m, cs)
      ensures !NoFloatOperands(m, cs) ==> r == Panicked(FloatOperand)
      ensures NoFloatOperands(m, cs) && OutputCount(cs) > 1 ==> r == Panicked(TooManyOutputs)
      ensures NoFloatOperands(m, cs) && OutputCount(cs) <= 1 && !ForcedDistinct(cs) ==> r == Panicked(ForcedTwice)
      ensures r.Done? ==> NoFloatOperands(m, cs) && OutputCount(cs) <= 1 && ForcedDistinct(cs)
      ensures r.Done? ==> GoodChoice(cs, r.value)
      ensures r.Done? ==> forall i ::
                            (0 <= i < |cs| && IsOutput(cs[i]) && Forced(cs[i]).None? &&
                             HintedReg(cs, ra.regHint(iidx)).Some?) ==>
                            r.value.regs[i] == HintedReg(cs, ra.regHint(iidx)).value
      ensures r.Done? ==> forall i ::
                            (0 <= i < |cs| && HasOperand(cs[i]) && Forced(cs[i]).None? &&
                             !(IsOutput(cs[i]) && HintedReg(cs, ra.regHint(iidx)).Some?) &&
                             FindOpInGpReg(cs[i].op).Some? &&
                             !IsClaimed(cs, ra.regHint(iidx), FindOpInGpReg(cs[i].op).value)) ==>
                            r.value.regs[i] == FindOpInGpReg(cs[i].op).value
    {
      if !NoFloatOperands(m, cs) {
        return Panicked(FloatOperand);
      }
      if OutputCount(cs) > 1 {
        return Panicked(TooManyOutputs);
      }
      var ok, regsA, asgnA := AssignForcedRegs(cs);
      if !ok {
        return Panicked(ForcedTwice);
      }
      var regsB, asgnB := AssignHintedReg(iidx, cs, regsA, asgnA);
      var regsC, asgnC := ReuseInputRegs(cs, regsB, asgnB);
      r := AssignRemainingRegs(iidx, cs, regsC, asgnC);
    }

    /**
     * Stage 2 of `assign_gp_regs`, first step: a chosen register whose value
     * no input constraint reads is emptied, its instruction's value spilled
     * first if still needed. A spill of a width the source cannot store fails.
     */
    method SpillUnwanted(iidx: nat, cs: seq<GPConstraint>, regs: seq<Reg>) returns (fail: Option<AssignFailure>)
      requires Valid() && forall k :: 0 <= k < |regs| ==> !IsGpReserved(regs[k])
      modifies this, gpRegStates
      ensures Valid() && ra == old(ra) && fpRegset == old(fpRegset)
      ensures SpillsGrow(old(spills), spills) && stackSize >= old(stackSize)
      ensures fail.Some? ==> fail.value == UnhandledSize
      ensures fail.None? ==> forall k :: 0 <= k < |regs| ==> gpRegStates[regs[k]].Empty? || WantedBy(cs, gpRegStates[regs[k]])
    {
      for k := 0 to |regs|
        invariant Valid() && ra == old(ra) && fpRegset == old(fpRegset)
        invariant SpillsGrow(old(spills), spills) && stackSize >= old(stackSize)
        invariant forall j :: 0 <= j < k ==> gpRegStates[regs[j]].Empty? || WantedBy(cs, gpRegStates[regs[j]])
      {
        var reg := regs[k];
        match gpRegStates[reg] {
          case Reserved =>
          case Empty =>
          case FromConst(c, _) =>
            var wanted := FindOpInConstraints(cs, Const(c));
            if !wanted {
              gpRegStates[reg] := RegState.Empty;
              gpRegset := Unset(gpRegset, reg);
            }
          case FromInst(q, _) =>
            var wanted := FindOpInConstraints(cs, Var(q));
            if !wanted {
              var ok := SpillGpIfNotAlready(iidx, reg);
              if !ok {
                return Some(UnhandledSize);
              }
              gpRegStates[reg] := RegState.Empty;
              gpRegset := Unset(gpRegset, reg);
            }
        }
      }
      fail := None;
    }

    /**
     * One pass of the shuffle: an input whose register is empty gets a copy
     * of its operand from a register no constraint claimed.
     */
    method CopyInputsIntoPlace(cs: seq<GPConstraint>, ch: Choice) returns (changed: bool)
      requires Valid() && WellChosen(cs, ch)
      modifies this, gpRegStates
      ensures Valid() && ra == old(ra) && fpRegset == old(fpRegset)
      ensures spills == old(spills) && stackSize == old(stackSize)
    {
      changed := false;
      for i := 0 to |cs|
        invariant Valid() && ra == old(ra) && fpRegset == old(fpRegset)
        invariant spills == old(spills) && stackSize == old(stackSize)
      {
        var reg := ch.regs[i];
        if gpRegStates[reg].Empty? && HasOperand(cs[i]) {
          var op := cs[i].op;
          if !IsInputInGpReg(op, reg) {
            var oldReg := FindOpInGpRegAvoiding(op, ch.asgn);
            if oldReg.Some? {
              changed := true;
              CopyGpReg(oldReg.value, reg);
            }
          }
        }
      }
    }

    /**
     * One pass of the shuffle: an input whose operand sits in another
     * constraint's register is copied, moved or swapped into its own. The
     * source's branch for an empty source register cannot be taken, since
     * that register holds the operand.
     */
    method ShuffleConstraintRegs(cs: seq<GPConstraint>, ch: Choice) returns (changed: bool)
      requires Valid() && WellChosen(cs, ch)
      modifies this, gpRegStates
      ensures Valid() && ra == old(ra) && fpRegset == old(fpRegset)
      ensures spills == old(spills) && stackSize == old(stackSize)
    {
      changed := false;
      for i := 0 to |cs|
        invariant Valid() && ra == old(ra) && fpRegset == old(fpRegset)
        invariant spills == old(spills) && stackSize == old(stackSize)
      {
        var reg := ch.regs[i];
        if HasOperand(cs[i]) {
          var op := cs[i].op;
          if !IsInputInGpReg(op, reg) {
            var oldReg := FindOpInGpReg(op);
            if oldReg.Some? {
              var other := FirstUsing(ch.regs, oldReg.value);
              if other.Some? {
                var oc := cs[other.value];
                if HasOperand(oc) {
                  if gpRegStates[reg].Empty? {
                    if op == oc.op {
                      CopyGpReg(oldReg.value, reg);
                    } else {
                      MoveGpReg(oldReg.value, reg);
                    }
                  } else if gpRegStates[oldReg.value].Empty? {
                    assert false;
                  } else {
                    SwapGpReg(reg, oldReg.value);
                  }
                  changed := true;
                } else if oc.Output? || oc.Clobber? || oc.Temporary? {
                  if gpRegStates[reg].Empty? {
                    MoveGpReg(oldReg.value, reg);
                  } else if gpRegStates[oldReg.value].Empty? {
                    assert false;
                  } else {
                    SwapGpReg(reg, oldReg.value);
                  }
                  changed := true;
                }
              }
            }
          }
        }
      }
    }

    /**
     * Stage 2, third step: every input is put in its register with the
     * extension asked for; a register about to be overwritten has its value
     * spilled if still needed. Fails when an input's value is nowhere.
     */
    method PutInputs(iidx: nat, cs: seq<GPConstraint>, regs: seq<Reg>) returns (fail: Option<AssignFailure>)
      requires Valid() && OperandsInRange(m, cs) && NoFloatOperands(m, cs)
      requires |regs| == |cs| && forall k :: 0 <= k < |regs| ==> !IsGpReserved(regs[k])
      modifies this, gpRegStates
      ensures Valid() && ra == old(ra) && fpRegset == old(fpRegset)
      ensures SpillsGrow(old(spills), spills) && stackSize >= old(stackSize)
      ensures fail.Some? ==> fail.value == ValueNowhere || fail.value == UnhandledSize
      ensures fail.None? ==> forall k :: 0 <= k < |cs| && SoleUser(cs, regs, k) && cs[k].Input? && !cs[k].clobberReg ==>
                Settled(gpRegStates[..], cs, regs, iidx, k)
    {
      for i := 0 to |cs|
        invariant Valid() && ra == old(ra) && fpRegset == old(fpRegset)
        invariant SpillsGrow(old(spills), spills) && stackSize >= old(stackSize)
        invariant forall k :: 0 <= k < i && SoleUser(cs, regs, k) && cs[k].Input? && !cs[k].clobberReg ==>
                    Settled(gpRegStates[..], cs, regs, iidx, k)
      {
        var reg := regs[i];
        var spill := false;
        match cs[i] {
          case Input(op, inExt, _, clobber) =>
            fail := PutInputInGpReg(op, reg, inExt);
            if fail.Some? {
              return;
            }
            spill := clobber;
          case InputOutput(op, inExt, _, _) =>
            fail := PutInputInGpReg(op, reg, inExt);
            if fail.Some? {
              return;
            }
            spill := true;
          case Output(_, _, _) =>
            spill := true;
          case Clobber(_) =>
            spill := true;
          case Temporary =>
            spill := true;
          case Unconstrained =>
        }
        if spill {
          var ok := SpillGpIfNotAlready(iidx, reg);
          if !ok {
            return Some(UnhandledSize);
          }
        }
      }
      fail := None;
    }

    /**
     * The state one constraint leaves its register in: a clobbered input,
     * a clobber or a temporary empties it, an output holds the instruction's
     * value (an input-output one must already be in its register), and any
     * other constraint leaves it alone.
     */
    method SetOutputState(iidx: nat, c: GPConstraint, reg: Reg) returns (fail: Option<AssignFailure>)
      requires Valid() && iidx < m.Len() && !IsGpReserved(reg)
      modifies this, gpRegStates
      ensures Valid() && ra == old(ra) && fpRegset == old(fpRegset)
      ensures spills == old(spills) && stackSize == old(stackSize)
      ensures fail.Some? ==> fail.value == OutputNotInRegister && c.InputOutput?
      ensures forall r: Reg :: r != reg ==> gpRegStates[r] == old(gpRegStates[r])
      ensures (c.Input? && !c.clobberReg) || c.Unconstrained? ==> gpRegStates[..] == old(gpRegStates[..])
      ensures fail.None? && !(c.Input? && !c.clobberReg) ==> Settled(gpRegStates[..], [c], [reg], iidx, 0)
    {
      match c {
        case Input(_, _, _, clobber) =>
          if clobber {
            gpRegset := Unset(gpRegset, reg);
            gpRegStates[reg] := RegState.Empty;
          }
        case InputOutput(_, _, outExt, _) =>
          if !IsSet(gpRegset, reg) {
            return Some(OutputNotInRegister);
          }
          gpRegStates[reg] := FromInst(iidx, outExt);
        case Output(outExt, _, _) =>
          gpRegset := Set(gpRegset, reg);
          gpRegStates[reg] := FromInst(iidx, outExt);
        case Clobber(_) =>
          gpRegset := Unset(gpRegset, reg);
          gpRegStates[reg] := RegState.Empty;
        case Temporary =>
          gpRegset := Unset(gpRegset, reg);
          gpRegStates[reg] := RegState.Empty;
        case Unconstrained =>
      }
      fail := None;
    }

    /**
     * Stage 2, last step: outputs now hold instruction `iidx`'s value;
     * clobbered and temporary registers are empty. An input-output whose
     * register an earlier clobbering input emptied fails the source's
     * assertion.
     */
    method SetOutputStates(iidx: nat, cs: seq<GPConstraint>, regs: seq<Reg>) returns (fail: Option<AssignFailure>)
      requires Valid() && iidx < m.Len()
      requires |regs| == |cs| && forall k :: 0 <= k < |regs| ==> !IsGpReserved(regs[k])
      requires forall k :: 0 <= k < |cs| && SoleUser(cs, regs, k) && cs[k].Input? && !cs[k].clobberReg ==>
                 Settled(gpRegStates[..], cs, regs, iidx, k)
      modifies this, gpRegStates
      ensures Valid() && ra == old(ra) && fpRegset == old(fpRegset)
      ensures spills == old(spills) && stackSize == old(stackSize)
      ensures fail.Some? ==> fail.value == OutputNotInRegister
      ensures fail.None? ==> forall k :: 0 <= k < |cs| && SoleUser(cs, regs, k) ==> Settled(gpRegStates[..], cs, regs, iidx, k)
    {
      for i := 0 to |cs|
        invariant Valid() && ra == old(ra) && fpRegset == old(fpRegset)
        invariant spills == old(spills) && stackSize == old(stackSize)
        invariant forall k :: 0 <= k < |cs| && SoleUser(cs, regs, k) && (k < i || (cs[k].Input? && !cs[k].clobberReg)) ==>
                    Settled(gpRegStates[..], cs, regs, iidx, k)
      {
        ghost var before := gpRegStates[..];
        fail := SetOutputState(iidx, cs[i], regs[i]);
        if fail.Some? {
          return;
        }
        forall k | 0 <= k < |cs| && SoleUser(cs, regs, k) && (k < i + 1 || (cs[k].Input? && !cs[k].clobberReg))
          ensures Settled(gpRegStates[..], cs, regs, iidx, k)
        {
          if k == i && !(cs[i].Input? && !cs[i].clobberReg) {
            assert Settled(gpRegStates[..], [cs[i]], [regs[i]], iidx, 0);
          } else if k == i {
            assert gpRegStates[..] == before;
          } else if regs[k] == regs[i] {
            assert cs[i].Unconstrained?;
            assert gpRegStates[..] == before;
          } else {
            assert gpRegStates[..][regs[k]] == before[regs[k]];
          }
        }
      }
      fail := None;
    }

    /**
     * Stage 2 of `assign_gp_regs`: spill what is unwanted, shuffle until
     * nothing changes (at most `fuel` rounds), put inputs in place and set the
     * outputs' states.
     */
    method ApplyChoice(iidx: nat, cs: seq<GPConstraint>, ch: Choice, fuel: nat) returns (fail: Option<AssignFailure>)
      requires Valid() && iidx < m.Len()
      requires OperandsInRange(m, cs) && NoFloatOperands(m, cs)
      requires WellChosen(cs, ch)
      modifies this, gpRegStates
      ensures Valid() && ra == old(ra) && fpRegset == old(fpRegset)
      ensures SpillsGrow(old(spills), spills) && stackSize >= old(stackSize)
      ensures fail.Some? ==> fail.value in {OutOfFuel, ValueNowhere, UnhandledSize, OutputNotInRegister}
      ensures fail.None? ==> forall k :: 0 <= k < |cs| && SoleUser(cs, ch.regs, k) ==>
                Settled(gpRegStates[..], cs, ch.regs, iidx, k)
    {
      fail := SpillUnwanted(iidx, cs, ch.regs);
      if fail.Some? {
        return;
      }
      var fuelLeft := fuel;
      while true
        invariant Valid() && ra == old(ra) && fpRegset == old(fpRegset)
        invariant SpillsGrow(old(spills), spills) && stackSize >= old(stackSize)
        decreases fuelLeft
      {
        if fuelLeft == 0 {
          return Some(OutOfFuel);
        }
        fuelLeft := fuelLeft - 1;
        var copied := CopyInputsIntoPlace(cs, ch);
        var shuffled := ShuffleConstraintRegs(cs, ch);
        if !copied && !shuffled {
          break;
        }
      }
      fail := PutInputs(iidx, cs, ch.regs);
      if fail.Some? {
        return;
      }
      fail := SetOutputStates(iidx, cs, ch.regs);
    }

    /**
     * `assign_gp_regs`: choose a register for every constraint of
     * instruction `iidx`, then move values so that each input is in its
     * register and each output's register is ready for `iidx`'s value.
     */
    method AssignGpRegs(iidx: nat, cs: seq<GPConstraint>, fuel: nat) returns (r: Outcome<seq<Reg>>)
      requires Valid() && iidx < m.Len() && OperandsInRange(m, cs)
      modifies this, gpRegStates
      ensures Valid() && ra == old(ra) && fpRegset == old(fpRegset)
      ensures SpillsGrow(old(spills), spills) && stackSize >= old(stackSize)
      ensures !NoFloatOperands(m, cs) ==> r == Panicked(FloatOperand)
      ensures NoFloatOperands(m, cs) && OutputCount(cs) > 1 ==> r == Panicked(TooManyOutputs)
      ensures NoFloatOperands(m, cs) && OutputCount(cs) <= 1 && !ForcedDistinct(cs) ==> r == Panicked(ForcedTwice)
      ensures r.Done? ==> |r.value| == |cs|
      ensures r.Done? ==> forall i :: 0 <= i < |cs| ==> !IsGpReserved(r.value[i])
      ensures r.Done? ==> forall i :: 0 <= i < |cs| && Forced(cs[i]).Some? ==> r.value[i] == Forced(cs[i]).value
      ensures r.Done? ==> forall i :: 0 <= i < |cs| && SoleUser(cs, r.value, i) ==>
                Settled(gpRegStates[..], cs, r.value, iidx, i)
    {
      var choice := ChooseRegs(iidx, cs);
      match choice {
        case Panicked(why) =>
          return Panicked(why);
        case Done(ch) =>
          var fail := ApplyChoice(iidx, cs, ch, fuel);
          if fail.Some? {
            return Panicked(fail.value);
          }
          r := Done(ch.regs);
      }
    }

    /**
     * `force_assign_and_spill_inst_gp_reg`: store `reg` into a fresh stack
     * slot above the stack and record it as instruction `iidx`'s spill. Only
     * the widths 1, 8, 16, 32 and 64 are handled, and a one-bit value demands
     * that `reg` be empty; otherwise `ok` is false (the source panics).
     */
    method ForceAssignAndSpillInstGpReg(iidx: nat, reg: Reg) returns (ok: bool)
      requires Valid() && iidx < m.Len() && spills[iidx].Empty?
      modifies this
      ensures Valid() && ra == old(ra) && gpRegset == old(gpRegset) && fpRegset == old(fpRegset)
      ensures ok <==> m.defBitw[iidx] in {8, 16, 32, 64} || (m.defBitw[iidx] == 1 && gpRegStates[reg].Empty?)
      ensures stackSize >= old(stackSize) + m.defByteSize[iidx]
      ensures ok ==> spills == old(spills)[iidx := Stack(stackSize)]
      ensures !ok ==> spills == old(spills)
    {
      var bytew := m.defByteSize[iidx];
      stackSize := AlignUp(stackSize, bytew);
      stackSize := stackSize + bytew;
      var off := stackSize;
      var bitw := m.defBitw[iidx];
      if bitw == 1 {
        if !gpRegStates[reg].Empty? {
          return false;
        }
        // The bit is zero-extended and stored as a byte.
      } else if !(bitw == 8 || bitw == 16 || bitw == 32 || bitw == 64) {
        return false;
      }
      spills := spills[iidx := Stack(off)];
      ok := true;
    }

    /**
     * `force_assign_inst_gp_reg`: make `reg` hold instruction `iidx`'s value.
     * A free register simply takes it, with undefined upper bits; an occupied
     * one is spilled to the stack instead. Since an occupied register is
     * never empty, a one-bit value is never accepted on that path.
     */
    method ForceAssignInstGpReg(iidx: nat, reg: Reg) returns (ok: bool)
      requires Valid() && iidx < m.Len()
      requires IsSet(gpRegset, reg) ==> spills[iidx].Empty?
      modifies this, gpRegStates
      ensures Valid() && ra == old(ra) && fpRegset == old(fpRegset)
      ensures !IsSet(old(gpRegset), reg) ==>
                && ok
                && gpRegStates[..] == old(gpRegStates[..])[reg := FromInst(iidx, Undefined)]
                && gpRegset == Set(old(gpRegset), reg)
                && spills == old(spills) && stackSize == old(stackSize)
      ensures IsSet(old(gpRegset), reg) ==>
                && gpRegStates[..] == old(gpRegStates[..]) && gpRegset == old(gpRegset)
                && (ok <==> m.defBitw[iidx] in {8, 16, 32, 64})
                && (ok ==> spills == old(spills)[iidx := Stack(stackSize)])
    {
      if IsSet(gpRegset, reg) {
        ok := ForceAssignAndSpillInstGpReg(iidx, reg);
      } else {
        gpRegset := Set(gpRegset, reg);
        gpRegStates[reg] := FromInst(iidx, Undefined);
        ok := true;
      }
    }

    /** `force_assign_inst_direct`: instruction `iidx` lives at `frameOff`. */
    method ForceAssignInstDirect(iidx: nat, frameOff: int)
      requires Valid() && iidx < m.Len() && spills[iidx].Empty?
      modifies this
      ensures Valid() && ra == old(ra) && gpRegset == old(gpRegset) && fpRegset == old(fpRegset)
      ensures spills == old(spills)[iidx := Direct(frameOff)] && stackSize == old(stackSize)
    {
      spills := spills[iidx := Direct(frameOff)];
    }

    /** `force_assign_inst_indirect`: instruction `iidx` is spilled at `frameOff`. */
    method ForceAssignInstIndirect(iidx: nat, frameOff: int)
      requires Valid() && iidx < m.Len() && spills[iidx].Empty?
      modifies this
      ensures Valid() && ra == old(ra) && gpRegset == old(gpRegset) && fpRegset == old(fpRegset)
      ensures spills == old(spills)[iidx := Stack(frameOff)] && stackSize == old(stackSize)
    {
      spills := spills[iidx := Stack(frameOff)];
    }

    /**
     * `assign_const`: instruction `iidx` is the constant `v` of `bits` bits.
     * Unlike the other forced assignments, this overwrites any spill state.
     */
    method AssignConst(iidx: nat, bits: nat, v: nat)
      requires Valid() && iidx < m.Len()
      modifies this
      ensures Valid() && ra == old(ra) && gpRegset == old(gpRegset) && fpRegset == old(fpRegset)
      ensures spills == old(spills)[iidx := ConstInt(bits, v)] && stackSize == old(stackSize)
    {
      spills := spills[iidx := ConstInt(bits, v)];
    }
  }
}
