/**
 * Alpha-renaming of inlined functions' locals while a TIR trace is built
 * (`VarRenamer` in yktrace/src/tir.rs).
 *
 * Every function inlined into a trace numbers its locals from 0. To keep
 * them apart, each inlined call's locals are shifted by an offset: the
 * running total of locals handed out so far (the accumulator). Offsets of
 * the calls still active are kept on a stack so that leaving a call
 * restores the caller's offset.
 */
module VarRenaming {
  import opened Wrappers
  import opened TirOps

  /** `p` with its local, if it has one, shifted by `offset`; everything else kept. */
  function ShiftPlace(p: IPlace, offset: int): IPlace
    requires PlaceLocal(p).Some? ==> PlaceLocal(p).value + offset >= 0
  {
    match p
    case Val(l, offs, ty) => Val(l + offset, offs, ty)
    case Deref(l, offs, postOffs, ty) => Deref(l + offset, offs, postOffs, ty)
    case _ => p
  }

  /**
   * Renaming changes only the local: the place's kind, offsets and type
   * stay, constants and unimplemented places are untouched, and shifting
   * back undoes it.
   */
  lemma ShiftPlaceKeeps(p: IPlace, offset: nat)
    ensures PlaceTy(ShiftPlace(p, offset)) == PlaceTy(p)
    ensures PlaceLocal(p).Some? ==> PlaceLocal(ShiftPlace(p, offset)) == Some(PlaceLocal(p).value + offset)
    ensures PlaceLocal(p).None? ==> ShiftPlace(p, offset) == p
    ensures p.Val? ==> ShiftPlace(p, offset).Val? && ShiftPlace(p, offset).offs == p.offs
    ensures p.Deref? ==> ShiftPlace(p, offset).Deref? && ShiftPlace(p, offset).offs == p.offs
                         && ShiftPlace(p, offset).postOffs == p.postOffs
    ensures ShiftPlace(ShiftPlace(p, offset), -(offset as int)) == p
  {
  }

  /** Places are renamed apart: different places stay different under one offset. */
  lemma ShiftPlaceInjective(p: IPlace, q: IPlace, offset: nat)
    requires p != q
    ensures ShiftPlace(p, offset) != ShiftPlace(q, offset)
  {
    ShiftPlaceKeeps(p, offset);
    ShiftPlaceKeeps(q, offset);
  }

  /** Whether a place with a local names one of the `n` locals of its function. */
  predicate InRange(p: IPlace, n: nat) {
    PlaceLocal(p).Some? ==> PlaceLocal(p).value < n
  }

  predicate PlacesInRange(ps: seq<IPlace>, n: nat) {
    forall i :: 0 <= i < |ps| ==> InRange(ps[i], n)
  }

  /**
   * The declarations recorded while renaming `args` in order, starting from
   * `ld`: each argument with a local `l` records `decls[l]` under the renamed
   * local `l + offset`. Renaming stops at the first argument naming no local
   * of `decls`.
   */
  function RecordedDecls(ld: map<Local, LocalDecl>, args: seq<IPlace>, decls: seq<LocalDecl>, offset: nat): map<Local, LocalDecl>
    decreases args
  {
    if args == [] || !InRange(args[0], |decls|) then ld
    else
      var ld' := if PlaceLocal(args[0]).Some? then ld[args[0].local + offset := decls[args[0].local]] else ld;
      RecordedDecls(ld', args[1..], decls, offset)
  }

  class VarRenamer {
    /** The offsets of the calls still active, outermost first. */
    var stack: seq<nat>
    /** The offset locals are currently shifted by. */
    var offset: nat
    /** The number of locals handed out so far; unset until the first body is seen. */
    var acc: Option<nat>
    /** The renamed return local of each active inlined call. */
    var retLocals: seq<Local>
    /** The declaration of each renamed local. */
    var localDecls: map<Local, LocalDecl>

    /**
     * The outermost frame has offset 0; the current offset is the top of
     * the stack; offsets never decrease towards the top and never exceed
     * the accumulator; nothing has been entered before the accumulator is
     * set; each active inlined call's return local is its offset.
     */
    ghost predicate Valid()
      reads this
    {
      && |stack| >= 1 && stack[0] == 0
      && offset == stack[|stack| - 1]
      && (forall i, j :: 0 <= i <= j < |stack| ==> stack[i] <= stack[j])
      && (acc.None? ==> stack == [0])
      && (acc.Some? ==> offset <= acc.value)
      && |retLocals| == |stack| - 1
      && (forall i :: 0 <= i < |retLocals| ==> retLocals[i] == stack[i + 1])
    }

    /** `VarRenamer::new`: offset 0, no accumulator, nothing renamed. */
    constructor()
      ensures Valid()
      ensures stack == [0] && offset == 0 && acc.None? && retLocals == [] && localDecls == map[]
    {
      stack := [0];
      offset := 0;
      acc := None;
      retLocals := [];
      localDecls := map[];
    }

    /** `init_acc`: the accumulator is set from the first body seen only. */
    method InitAcc(numLocals: nat)
      requires Valid()
      modifies this
      ensures Valid()
      ensures acc == (if old(acc).None? then Some(numLocals) else old(acc))
      ensures stack == old(stack) && offset == old(offset) && retLocals == old(retLocals)
      ensures localDecls == old(localDecls)
    {
      if acc.None? {
        acc := Some(numLocals);
      }
    }

    /**
     * `enter`: an inlined call with `numLocals` locals starts. Its locals
     * are shifted past every local handed out so far; the accumulator grows
     * by its size. `false` where the source panics: the accumulator is
     * unset.
     */
    method Enter(numLocals: nat) returns (ok: bool)
      requires Valid()
      modifies this
      ensures Valid()
      ensures ok <==> old(acc).Some?
      ensures ok ==> && offset == old(acc).value
                     && acc == Some(old(acc).value + numLocals)
                     && stack == old(stack) + [offset]
                     && retLocals == old(retLocals) + [offset]
                     && offset >= old(offset)
      ensures !ok ==> stack == old(stack) && offset == old(offset) && acc == old(acc) && retLocals == old(retLocals)
      ensures localDecls == old(localDecls)
    {
      if acc.None? {
        return false;
      }
      offset := acc.value;
      stack := stack + [offset];
      acc := Some(acc.value + numLocals);
      retLocals := retLocals + [offset];
      ok := true;
    }

    /**
     * `leave`: the innermost inlined call ends and its caller's offset is
     * restored. `false` where the source panics: no inlined call is active.
     */
    method Leave() returns (ok: bool)
      requires Valid()
      modifies this
      ensures ok <==> |old(stack)| >= 2
      ensures ok ==> && Valid()
                     && stack == old(stack)[..|old(stack)| - 1]
                     && retLocals == old(retLocals)[..|old(retLocals)| - 1]
                     && offset == stack[|stack| - 1]
      ensures acc == old(acc) && localDecls == old(localDecls)
    {
      if |stack| < 2 {
        // Popping the outermost offset leaves nothing to restore.
        stack := [];
        retLocals := [];
        return false;
      }
      stack := stack[..|stack| - 1];
      retLocals := retLocals[..|retLocals| - 1];
      offset := stack[|stack| - 1];
      ok := true;
    }

    /**
     * `rename_local`: local `l` of the current function becomes `l + offset`
     * and gets `l`'s declaration. `None` where the source panics: `l` is not
     * a local of the function.
     */
    method RenameLocal(l: Local, decls: seq<LocalDecl>) returns (r: Option<Local>)
      requires Valid()
      modifies this
      ensures Valid()
      ensures r.Some? <==> l < |decls|
      ensures r.Some? ==> r.value == l + offset && localDecls == old(localDecls)[r.value := decls[l]]
      ensures r.None? ==> localDecls == old(localDecls)
      ensures stack == old(stack) && offset == old(offset) && acc == old(acc) && retLocals == old(retLocals)
    {
      if l >= |decls| {
        return None;
      }
      var renamed := l + offset;
      localDecls := localDecls[renamed := decls[l]];
      r := Some(renamed);
    }

    /**
     * `rename_iplace`: the place with its local renamed, offsets and type
     * kept; constants and unimplemented places are returned unchanged.
     */
    method RenameIPlace(ip: IPlace, decls: seq<LocalDecl>) returns (r: Option<IPlace>)
      requires Valid()
      modifies this
      ensures Valid()
      ensures r.Some? <==> InRange(ip, |decls|)
      ensures r.Some? ==> r.value == ShiftPlace(ip, offset)
      ensures r.Some? && PlaceLocal(ip).Some? ==>
                localDecls == old(localDecls)[ip.local + offset := decls[ip.local]]
      ensures r.None? || PlaceLocal(ip).None? ==> localDecls == old(localDecls)
      ensures stack == old(stack) && offset == old(offset) && acc == old(acc) && retLocals == old(retLocals)
    {
      match ip {
        case Val(l, offs, ty) =>
          var nl := RenameLocal(l, decls);
          if nl.None? { return None; }
          r := Some(Val(nl.value, offs, ty));
        case Deref(l, offs, postOffs, ty) =>
          var nl := RenameLocal(l, decls);
          if nl.None? { return None; }
          r := Some(Deref(nl.value, offs, postOffs, ty));
        case ConstPlace(_, _) =>
          r := Some(ip);
        case UnimplementedPlace(_) =>
          r := Some(ip);
      }
    }

    /** `rename_args`: each argument renamed in order. */
    method RenameArgs(args: seq<IPlace>, decls: seq<LocalDecl>) returns (r: Option<seq<IPlace>>)
      requires Valid()
      modifies this
      ensures Valid()
      ensures r.Some? <==> PlacesInRange(args, |decls|)
      ensures r.Some? ==> |r.value| == |args|
      ensures r.Some? ==> forall i :: 0 <= i < |args| ==> r.value[i] == ShiftPlace(args[i], offset)
      ensures localDecls == RecordedDecls(old(localDecls), args, decls, offset)
      ensures stack == old(stack) && offset == old(offset) && acc == old(acc) && retLocals == old(retLocals)
    {
      var out: seq<IPlace> := [];
      for i := 0 to |args|
        invariant Valid()
        invariant stack == old(stack) && offset == old(offset) && acc == old(acc) && retLocals == old(retLocals)
        invariant forall k :: 0 <= k < i ==> InRange(args[k], |decls|)
        invariant |out| == i && forall k :: 0 <= k < i ==> out[k] == ShiftPlace(args[k], offset)
        invariant RecordedDecls(localDecls, args[i..], decls, offset) == RecordedDecls(old(localDecls), args, decls, offset)
      {
        assert args[i..][1..] == args[i + 1..];
        var p := RenameIPlace(args[i], decls);
        if p.None? {
          return None;
        }
        out := out + [p.value];
      }
      r := Some(out);
    }
  }

  /** An inlined call entered and left again leaves the caller's renaming as it was. */
  method EnterThenLeave(rnm: VarRenamer, numLocals: nat) returns (ok: bool)
    requires rnm.Valid() && rnm.acc.Some?
    modifies rnm
    ensures ok && rnm.Valid()
    ensures rnm.stack == old(rnm.stack) && rnm.offset == old(rnm.offset) && rnm.retLocals == old(rnm.retLocals)
    ensures rnm.acc == Some(old(rnm.acc).value + numLocals)
  {
    ok := rnm.Enter(numLocals);
    ok := rnm.Leave();
    assert rnm.stack == old(rnm.stack);
  }
}
