/**
 * The register bookkeeping of the older TIR trace compiler
 * (ykcompile/src/lib.rs).
 *
 * Every trace local gets a location the first time it is asked for: a free
 * register from a small pool if its type allows it, else a slot on the
 * stack. The answer is remembered, and a `StorageDead` statement frees the
 * register again.
 *
 * Type identifiers are resolved to the type they name, so a `Ty` here holds
 * its element type directly. The stack builder is not part of this model:
 * its `alloc` is taken to round the stack size up to the alignment, grow it
 * by the size, and hand out the slot just below the frame base at the new
 * size.
 */
module TraceCompiler {
  import opened Wrappers

  /** A trace local (`Local(u32)`), by its index. */
  type Local = nat

  /** x86-64 register codes used here. */
  const RCX: nat := 1
  const RDX: nat := 2
  const RBP: nat := 5
  const RDI: nat := 7
  const R8: nat := 8
  const R9: nat := 9
  const R10: nat := 10

  /** The registers locals may be allocated to; they do not overlap R11, the temporary. */
  const LOCAL_REGS: seq<nat> := [R10, R9, R8, RDX, RCX]

  datatype IntTy = I8 | I16 | I32 | I64 | ISize | I128

  /** The SIR types the compiler distinguishes. */
  datatype Ty =
    | UnsignedInt(uw: IntTy)
    | SignedInt(sw: IntTy)
    | Array(elem: Ty)
    | Slice(elem: Ty)
    | Ref
    | Bool
    | Struct
    | Tuple
    | Unimplemented

  /** A local's declaration: its type, whether it is referenced, its size and alignment. */
  datatype LocalDecl = LocalDecl(ty: Ty, referenced: bool, size: nat, align: nat)

  datatype Location =
    | Register(reg: nat)
    | Mem(base: nat, offs: int)
    | Const(cidx: nat, tyid: nat)
    | NotLive

  /** What a local register holds. */
  datatype RegAlloc = Holds(l: Local) | Free

  /** An integer type that fits a 64-bit register. */
  predicate IsNarrowInt(t: Ty) {
    (t.UnsignedInt? && t.uw != I128) || (t.SignedInt? && t.sw != I128)
  }

  /**
   * `can_live_in_register`: a local may be kept in a register when it is not
   * referenced and is an integer of at most 64 bits, a reference or a bool.
   * `None` for an unimplemented type (the source's `todo!`).
   */
  function CanLiveInRegister(decl: LocalDecl): (r: Option<bool>)
    ensures r == Some(true) <==>
              !decl.referenced && (IsNarrowInt(decl.ty) || decl.ty.Ref? || decl.ty.Bool?)
    ensures r.None? <==> !decl.referenced && decl.ty.Unimplemented?
  {
    if decl.referenced then Some(false)
    else
      match decl.ty
      case UnsignedInt(w) => Some(w != I128)
      case SignedInt(w) => Some(w != I128)
      case Array(_) => Some(false)
      case Slice(_) => Some(false)
      case Ref => Some(true)
      case Bool => Some(true)
      case Struct => Some(false)
      case Tuple => Some(false)
      case Unimplemented => None
  }

  /** The innermost element type of `t` under any arrays and slices. */
  function Innermost(t: Ty): Ty {
    if t.Array? || t.Slice? then Innermost(t.elem) else t
  }

  /**
   * `is_copyable`: whether a value of the type is copied when dereferenced.
   * An array or slice is copyable when its elements are; structs and tuples
   * are not. `None` for an unimplemented type. So a type is copyable exactly
   * when its innermost element is an integer of at most 64 bits, a reference
   * or a bool, and unimplemented exactly when that element is.
   */
  function IsCopyable(t: Ty): (r: Option<bool>)
    ensures r == Some(true) <==>
              IsNarrowInt(Innermost(t)) || Innermost(t).Ref? || Innermost(t).Bool?
    ensures r.None? <==> Innermost(t).Unimplemented?
  {
    match t
    case UnsignedInt(w) => Some(w != I128)
    case SignedInt(w) => Some(w != I128)
    case Array(e) => IsCopyable(e)
    case Slice(e) => IsCopyable(e)
    case Ref => Some(true)
    case Bool => Some(true)
    case Struct => Some(false)
    case Tuple => Some(false)
    case Unimplemented => None
  }

  /** `t` wrapped in `n` array or slice layers, `slices[i]` choosing layer `i`'s kind. */
  function Nested(t: Ty, slices: seq<bool>): Ty {
    if |slices| == 0 then t
    else
      var inner := Nested(t, slices[1..]);
      if slices[0] then Slice(inner) else Array(inner)
  }

  /**
   * However deeply arrays and slices nest, a type is copyable exactly when
   * its innermost element type is.
   */
  lemma {:induction false} NestedCopyable(t: Ty, slices: seq<bool>)
    ensures IsCopyable(Nested(t, slices)) == IsCopyable(t)
  {
    if |slices| > 0 {
      NestedCopyable(t, slices[1..]);
    }
  }

  /** A local that can live in a register is copyable. */
  lemma RegisterLocalsAreCopyable(decl: LocalDecl)
    requires CanLiveInRegister(decl) == Some(true)
    ensures IsCopyable(decl.ty) == Some(true)
  {
  }

  /** The names of the sixteen general purpose registers, by code. */
  const REG_NAMES: seq<string> :=
    ["rax", "rcx", "rdx", "rbx", "rsp", "rbp", "rsi", "rdi",
     "r8", "r9", "r10", "r11", "r12", "r13", "r14", "r15"]

  /**
   * `local_to_reg_name`: a register location's name, "" for any other
   * location; `None` for a register code above 15 (`unimplemented!`).
   */
  function LocalToRegName(loc: Location): (r: Option<string>)
    ensures r.None? <==> loc.Register? && loc.reg >= 16
    ensures loc.Register? && r.Some? ==> r.value == REG_NAMES[loc.reg]
    ensures !loc.Register? ==> r == Some("")
  {
    match loc
    case Register(r) =>
      (match r
       case 0 => Some("rax")
       case 1 => Some("rcx")
       case 2 => Some("rdx")
       case 3 => Some("rbx")
       case 4 => Some("rsp")
       case 5 => Some("rbp")
       case 6 => Some("rsi")
       case 7 => Some("rdi")
       case 8 => Some("r8")
       case 9 => Some("r9")
       case 10 => Some("r10")
       case 11 => Some("r11")
       case 12 => Some("r12")
       case 13 => Some("r13")
       case 14 => Some("r14")
       case 15 => Some("r15")
       case _ => None)
    case _ => Some("")
  }

  /**
   * Each of the sixteen registers gets its own non-empty name, the one in
   * the x86-64 numbering; other codes have none, and locations that are not
   * registers are named "".
   */
  lemma RegNames()
    ensures forall r :: 0 <= r < 16 ==> LocalToRegName(Register(r)) == Some(REG_NAMES[r])
    ensures forall r :: 0 <= r < 16 ==> |REG_NAMES[r]| > 0
    ensures forall r, q :: 0 <= r < q < 16 ==> REG_NAMES[r] != REG_NAMES[q]
    ensures forall r :: r >= 16 ==> LocalToRegName(Register(r)).None?
    ensures forall loc: Location :: !loc.Register? ==> LocalToRegName(loc) == Some("")
  {
    forall r, q | 0 <= r < q < 16
      ensures REG_NAMES[r] != REG_NAMES[q]
    {
      assert REG_NAMES[r][|REG_NAMES[r]| - 1] != REG_NAMES[q][|REG_NAMES[q]| - 1]
          || REG_NAMES[r][1] != REG_NAMES[q][1] || |REG_NAMES[r]| != |REG_NAMES[q]|;
    }
  }

  /** `StackBuilder::alloc`: the stack size after allocating `size` bytes at `align`. */
  function StackAfterAlloc(stackSize: nat, size: nat, align: nat): (r: nat)
    requires align >= 1
    ensures r >= stackSize + size
  {
    (if stackSize % align == 0 then stackSize else stackSize + (align - stackSize % align)) + size
  }

  /** Two stack slots, at offsets `o1` and `o2` and of `s1` and `s2` bytes, share no byte. */
  predicate SlotsDisjoint(o1: int, s1: nat, o2: int, s2: nat) {
    o1 + s1 <= o2 || o2 + s2 <= o1
  }

  /**
   * A compiler's state, as its maps and stack size: the pool is exactly the local registers; a register holding a local and
   * that local's location agree both ways; a stack slot holds a declared
   * local and lies in the stack handed out, below the frame base; and no
   * two stack slots share a byte (a zero-sized local's slot may share its
   * address with another slot, as the stack builder hands it out).
   */
  ghost predicate Placement(decls: map<Local, LocalDecl>, rcm: map<nat, RegAlloc>, vlm: map<Local, Location>,
                            stack: nat, arg: Local)
  {
    && (forall l :: l in decls ==> decls[l].align >= 1)
    && (forall r :: r in rcm <==> r in LOCAL_REGS)
    && arg !in vlm
    && (forall l :: l in vlm && vlm[l].Register? ==>
          && vlm[l].reg in rcm
          && rcm[vlm[l].reg] == Holds(l))
    && (forall r :: r in rcm && rcm[r].Holds? ==>
          && rcm[r].l in vlm
          && vlm[rcm[r].l] == Register(r))
    && (forall l :: l in vlm ==>
          || vlm[l].Register? || vlm[l].NotLive?
          || (vlm[l].Mem? && vlm[l].base == RBP && l in decls
              && -(stack as int) <= vlm[l].offs
              && vlm[l].offs + decls[l].size <= 0))
    && (forall l1, l2 ::
          (l1 in vlm && l2 in vlm && l1 != l2
           && vlm[l1].Mem? && vlm[l2].Mem?) ==>
            SlotsDisjoint(vlm[l1].offs, decls[l1].size,
                          vlm[l2].offs, decls[l2].size))
  }

  /** A local placed in a new stack slot, below every slot handed out before, keeps the placement. */
  lemma PlaceOnStack(decls: map<Local, LocalDecl>, rcm: map<nat, RegAlloc>, vlm: map<Local, Location>,
                     stack: nat, arg: Local, l: Local, newStack: nat)
    requires Placement(decls, rcm, vlm, stack, arg)
    requires l != arg && l !in vlm && l in decls && newStack >= stack + decls[l].size
    ensures Placement(decls, rcm, vlm[l := Mem(RBP, -(newStack as int))], newStack, arg)
  {
    var vlm' := vlm[l := Mem(RBP, -(newStack as int))];
    forall l1, l2 | l1 in vlm' && l2 in vlm' && l1 != l2 && vlm'[l1].Mem? && vlm'[l2].Mem?
      ensures SlotsDisjoint(vlm'[l1].offs, decls[l1].size, vlm'[l2].offs, decls[l2].size)
    {
      if l1 == l {
        assert vlm'[l1].offs + decls[l1].size <= -(stack as int) <= vlm'[l2].offs;
      } else if l2 == l {
        assert vlm'[l2].offs + decls[l2].size <= -(stack as int) <= vlm'[l1].offs;
      }
    }
  }

  /** A local put in a free register keeps the placement. */
  lemma PlaceInRegister(decls: map<Local, LocalDecl>, rcm: map<nat, RegAlloc>, vlm: map<Local, Location>,
                        stack: nat, arg: Local, l: Local, r: nat)
    requires Placement(decls, rcm, vlm, stack, arg)
    requires l != arg && l !in vlm && r in rcm && rcm[r].Free?
    ensures Placement(decls, rcm[r := Holds(l)], vlm[l := Register(r)], stack, arg)
  {
  }

  class TraceCompilerState {
    /** The local `interp_step`'s argument is passed in; it is not part of these files. */
    const interpStepArg: Local
    const localDecls: map<Local, LocalDecl>
    /** What each local register holds. */
    var registerContentMap: map<nat, RegAlloc>
    /** Where each local has been put. */
    var variableLocationMap: map<Local, Location>
    /** The size of the stack the stack builder has handed out. */
    var stackSize: nat

    ghost predicate Valid()
      reads this
    {
      Placement(localDecls, registerContentMap, variableLocationMap, stackSize, interpStepArg)
    }

    /** The registers of the pool that are free. */
    ghost function FreeRegs(): set<nat>
      reads this
    {
      set r | r in registerContentMap && registerContentMap[r].Free?
    }

    /**
     * A new compiler: every local register free, no local placed, an empty
     * stack. Every declared local has an alignment, as a Rust `Layout` does;
     * its size may be zero.
     */
    constructor(interpStepArg: Local, localDecls: map<Local, LocalDecl>)
      requires forall l :: l in localDecls ==> localDecls[l].align >= 1
      ensures Valid()
      ensures this.interpStepArg == interpStepArg && this.localDecls == localDecls
      ensures variableLocationMap == map[] && stackSize == 0
      ensures FreeRegs() == set r | r in LOCAL_REGS
    {
      this.interpStepArg := interpStepArg;
      this.localDecls := localDecls;
      registerContentMap := map r | r in LOCAL_REGS :: Free;
      variableLocationMap := map[];
      stackSize := 0;
    }

    /**
     * Placed locals never share a register, their stack slots share no byte,
     * and two stack slots of locals that are not zero-sized are distinct.
     */
    lemma LiveLocationsDistinct()
      requires Valid()
      ensures forall l1, l2 ::
                (l1 in variableLocationMap && l2 in variableLocationMap && l1 != l2
                 && variableLocationMap[l1].Register?) ==> variableLocationMap[l1] != variableLocationMap[l2]
      ensures forall l1, l2 ::
                (l1 in variableLocationMap && l2 in variableLocationMap && l1 != l2
                 && variableLocationMap[l1].Mem? && variableLocationMap[l2].Mem?) ==>
                  && l1 in localDecls && l2 in localDecls
                  && SlotsDisjoint(variableLocationMap[l1].offs, localDecls[l1].size,
                                   variableLocationMap[l2].offs, localDecls[l2].size)
      ensures forall l1, l2 ::
                (l1 in variableLocationMap && l2 in variableLocationMap && l1 != l2
                 && variableLocationMap[l1].Mem? && variableLocationMap[l2].Mem?
                 && localDecls[l1].size >= 1 && localDecls[l2].size >= 1) ==>
                  variableLocationMap[l1] != variableLocationMap[l2]
    {
      forall l1, l2 | l1 in variableLocationMap && l2 in variableLocationMap && l1 != l2
                      && variableLocationMap[l1].Register?
        ensures variableLocationMap[l1] != variableLocationMap[l2]
      {
      }
    }

    /** `get_free_register`: some free register of the pool, `None` when all hold locals. */
    method GetFreeRegister() returns (r: Option<nat>)
      requires Valid()
      ensures r.Some? ==> r.value in FreeRegs()
      ensures r.None? <==> FreeRegs() == {}
    {
      for i := 0 to |LOCAL_REGS|
        invariant forall j :: 0 <= j < i ==> LOCAL_REGS[j] !in FreeRegs()
      {
        var reg := LOCAL_REGS[i];
        if registerContentMap[reg].Free? {
          return Some(reg);
        }
      }
      r := None;
    }

    /** `StackBuilder::alloc` for `size` bytes at `align`: the new slot. */
    method StackAlloc(size: nat, align: nat) returns (loc: Location)
      requires align >= 1
      modifies this
      ensures stackSize == StackAfterAlloc(old(stackSize), size, align)
      ensures loc == Mem(RBP, -(stackSize as int))
      ensures registerContentMap == old(registerContentMap)
      ensures variableLocationMap == old(variableLocationMap)
    {
      stackSize := StackAfterAlloc(stackSize, size, align);
      loc := Mem(RBP, -(stackSize as int));
    }

    /**
     * `local_to_location`: the location of local `l`, placing it on first
     * use. `interp_step`'s argument is always the memory RDI points to. A
     * placed local keeps its location and nothing changes. Otherwise a local
     * that can live in a register takes a free one, or a new stack slot when
     * none is free; any other local gets a stack slot. `None` where the
     * source panics: an undeclared local or an unimplemented type.
     */
    method LocalToLocation(l: Local) returns (loc: Option<Location>)
      requires Valid()
      modifies this
      ensures Valid()
      ensures l == interpStepArg || l in old(variableLocationMap) || loc.None? ==>
                && registerContentMap == old(registerContentMap)
                && variableLocationMap == old(variableLocationMap)
                && stackSize == old(stackSize)
      ensures l == interpStepArg ==> loc == Some(Mem(RDI, 0))
      ensures l != interpStepArg && l in old(variableLocationMap) ==> loc == Some(old(variableLocationMap)[l])
      ensures l != interpStepArg && l !in old(variableLocationMap) ==>
                (loc.None? <==> l !in localDecls || CanLiveInRegister(localDecls[l]).None?)
      ensures l != interpStepArg && l !in old(variableLocationMap) && loc.Some? ==>
                && variableLocationMap == old(variableLocationMap)[l := loc.value]
                && !loc.value.NotLive?
      ensures l != interpStepArg && l !in old(variableLocationMap) && loc.Some? && loc.value.Register? ==>
                && CanLiveInRegister(localDecls[l]) == Some(true)
                && loc.value.reg in old(FreeRegs())
                && registerContentMap == old(registerContentMap)[loc.value.reg := Holds(l)]
                && stackSize == old(stackSize)
      ensures l != interpStepArg && l !in old(variableLocationMap) && loc.Some? && !loc.value.Register? ==>
                && (CanLiveInRegister(localDecls[l]) == Some(false) || old(FreeRegs()) == {})
                && registerContentMap == old(registerContentMap)
                && stackSize == StackAfterAlloc(old(stackSize), localDecls[l].size, localDecls[l].align)
                && loc.value == Mem(RBP, -(stackSize as int))
    {
      if l == interpStepArg {
        return Some(Mem(RDI, 0));
      }
      if l in variableLocationMap {
        return Some(variableLocationMap[l]);
      }
      if l !in localDecls {
        return None;
      }
      var canLive := CanLiveInRegister(localDecls[l]);
      if canLive.None? {
        return None;
      }
      var place := Place(l, canLive.value);
      loc := Some(place);
    }

    /**
     * The placing half of `local_to_location`, for a declared local not yet
     * placed whose type is implemented: a free register when the local can
     * live in one and one is free, a new stack slot otherwise.
     */
    method Place(l: Local, inRegister: bool) returns (place: Location)
      requires Valid()
      requires l != interpStepArg && l !in variableLocationMap && l in localDecls
      modifies this
      ensures Valid()
      ensures variableLocationMap == old(variableLocationMap)[l := place] && !place.NotLive?
      ensures place.Register? ==>
                && inRegister
                && place.reg in old(FreeRegs())
                && registerContentMap == old(registerContentMap)[place.reg := Holds(l)]
                && stackSize == old(stackSize)
      ensures !place.Register? ==>
                && (!inRegister || old(FreeRegs()) == {})
                && registerContentMap == old(registerContentMap)
                && stackSize == StackAfterAlloc(old(stackSize), localDecls[l].size, localDecls[l].align)
                && place == Mem(RBP, -(stackSize as int))
    {
      var reg := None;
      if inRegister {
        reg := GetFreeRegister();
      }
      if reg.Some? {
        PlaceInRegister(localDecls, registerContentMap, variableLocationMap, stackSize, interpStepArg, l, reg.value);
        registerContentMap := registerContentMap[reg.value := Holds(l)];
        place := Register(reg.value);
        variableLocationMap := variableLocationMap[l := place];
      } else {
        // The local cannot live in a register, or every register is taken.
        place := PlaceInStackSlot(l);
      }
    }

    /** A declared local not yet placed gets a new stack slot. */
    method PlaceInStackSlot(l: Local) returns (place: Location)
      requires Valid()
      requires l != interpStepArg && l !in variableLocationMap && l in localDecls
      modifies this
      ensures Valid()
      ensures variableLocationMap == old(variableLocationMap)[l := place]
      ensures registerContentMap == old(registerContentMap)
      ensures stackSize == StackAfterAlloc(old(stackSize), localDecls[l].size, localDecls[l].align)
      ensures place == Mem(RBP, -(stackSize as int))
    {
      var decls, rcm, vlm, stack := localDecls, registerContentMap, variableLocationMap, stackSize;
      place := StackAlloc(decls[l].size, decls[l].align);
      PlaceOnStack(decls, rcm, vlm, stack, interpStepArg, l, stackSize);
      variableLocationMap := vlm[l := place];
    }

    /**
     * `free_register`: local `l` is dead. A register it held returns to the
     * pool; a stack slot is simply abandoned; either way `l` is no longer
     * live. `false` where the source panics: `l` was never placed, or it is
     * already dead.
     */
    method FreeRegister(l: Local) returns (ok: bool)
      requires Valid()
      modifies this
      ensures Valid() && stackSize == old(stackSize)
      ensures ok <==> l in old(variableLocationMap) &&
                      (old(variableLocationMap)[l].Register? || old(variableLocationMap)[l].Mem?)
      ensures ok ==> variableLocationMap == old(variableLocationMap)[l := NotLive]
      ensures ok && old(variableLocationMap)[l].Register? ==>
                registerContentMap == old(registerContentMap)[old(variableLocationMap)[l].reg := Free]
      ensures !ok || !old(variableLocationMap)[l].Register? ==> registerContentMap == old(registerContentMap)
      ensures !ok ==> variableLocationMap == old(variableLocationMap)
    {
      if l !in variableLocationMap {
        return false;
      }
      match variableLocationMap[l] {
        case Register(reg) =>
          registerContentMap := registerContentMap[reg := Free];
        case Mem(_, _) =>
        case NotLive =>
          return false;
        case Const(_, _) =>
          return false;
      }
      variableLocationMap := variableLocationMap[l := NotLive];
      ok := true;
    }
  }

  /**
   * Asking twice for the same local gives the same location and the second
   * request changes nothing: no register or stack is used up.
   */
  method LocalToLocationMemoised(tc: TraceCompilerState, l: Local) returns (first: Option<Location>, second: Option<Location>)
    requires tc.Valid()
    modifies tc
    ensures tc.Valid()
    ensures first == second
  {
    first := tc.LocalToLocation(l);
    ghost var regs := tc.registerContentMap;
    ghost var stack := tc.stackSize;
    second := tc.LocalToLocation(l);
    assert first.Some? ==> tc.registerContentMap == regs && tc.stackSize == stack;
  }
}
