/**
 * The memory of a deoptimisation interpreter's stack frame (`LocalMem`,
 * identical in internal_ws/yksg/src/lib.rs and internal_ws/ykbh/src/lib.rs)
 * and what both interpreters share: the SIR types and bodies they look up,
 * and the ways interpretation stops early.
 *
 * A frame's memory is a block of bytes in which every local lives at a
 * fixed offset. It is modelled as a map from offsets to the bytes known to
 * be there; memory never written since it was allocated is absent. Each
 * frame owns its memory exclusively (it frees it when dropped), so a
 * frame's memory is a value held by the frame and a write replaces it.
 * Pointer values (what `Indirect` places follow and `MkRef` stores) are not
 * modelled: following one is `NotModelled`, storing one leaves its bytes
 * unknown.
 */
module FrameMem {
  import opened Wrappers
  import opened Bytes
  import opened TirOps

  /** One more than the largest `usize` (and pointer) on x86-64. */
  const USIZE_LIMIT: nat := 0x1_0000_0000_0000_0000

  /** One more than the largest `u32`: block indices are stored as `u32`. */
  const U32_LIMIT: nat := 0x1_0000_0000

  /** The kinds of type the interpreters tell apart. */
  datatype TyKind =
    | U8Ty
    | UsizeTy
    | OtherUnsignedTy
    | SignedTy
    | BoolTy
    | TupleTy(fieldOffsets: seq<nat>)
    | OtherTy

  /** A SIR type: its size in bytes and its kind. */
  datatype Ty = Ty(size: nat, kind: TyKind)

  /** A function's SIR body: its blocks and the offset of each local in its frame. */
  datatype SirBody = SirBody(blocks: seq<Block>, offsets: seq<nat>)

  /** The program's SIR: function bodies by symbol and types by identifier. */
  datatype Sir = Sir(bodies: map<string, SirBody>, types: map<TypeId, Ty>)

  /**
   * Why interpretation stops early: `Unsupported` where the source reaches
   * `todo!`; `Panic` where it panics otherwise (`unwrap` of nothing, an
   * index out of range, `unreachable!`); `NotModelled` where it follows a
   * pointer, which this model does not.
   */
  datatype Fault = Unsupported | Panic | NotModelled

  datatype Outcome<T> = Done(value: T) | Failed(fault: Fault)

  /** How a run of an interpreter ends: the last frame returned, a fault, or the fuel ran out at `frames`. */
  datatype RunOutcome<F> = Returned | Faulted(fault: Fault) | OutOfFuel(frames: seq<F>)

  /**
   * An interpreter's main loop (`while let Some(frame) = frames.last()`):
   * `step` applied until no frame is left or a step fails, for at most
   * `fuel` steps (the source's loop is unbounded).
   */
  function RunSteps<F>(step: seq<F> -> Outcome<seq<F>>, frames: seq<F>, fuel: nat): RunOutcome<F>
    decreases fuel
  {
    if |frames| == 0 then Returned
    else if fuel == 0 then OutOfFuel(frames)
    else
      match step(frames)
      case Failed(f) => Faulted(f)
      case Done(next) => RunSteps(step, next, fuel - 1)
  }

  /** A run that ended before its fuel ran out ends the same way with more fuel. */
  lemma {:induction false} RunMoreFuel<F>(step: seq<F> -> Outcome<seq<F>>, frames: seq<F>, fuel: nat, extra: nat)
    requires !RunSteps(step, frames, fuel).OutOfFuel?
    ensures RunSteps(step, frames, fuel + extra) == RunSteps(step, frames, fuel)
    decreases fuel
  {
    if |frames| > 0 && fuel > 0 && step(frames).Done? {
      RunMoreFuel(step, step(frames).value, fuel - 1, extra);
    }
  }

  /**
   * Running `a + b` steps is running `a` steps and then, if the run has
   * not ended, `b` more from where it stopped.
   */
  lemma {:induction false} RunSplit<F>(step: seq<F> -> Outcome<seq<F>>, frames: seq<F>, a: nat, b: nat)
    ensures RunSteps(step, frames, a + b) ==
      match RunSteps(step, frames, a)
      case OutOfFuel(mid) => RunSteps(step, mid, b)
      case r => r
    decreases a
  {
    if |frames| > 0 && a > 0 && step(frames).Done? {
      RunSplit(step, step(frames).value, a - 1, b);
      assert RunSteps(step, frames, a + b) == RunSteps(step, step(frames).value, (a - 1) + b);
    }
  }

  /** A frame's bytes, by offset from the start of its memory. */
  type Memory = map<nat, byte>

  /** A frame's memory: where each local lives and the bytes known to be there. */
  datatype LocalMem = LocalMem(offsets: seq<nat>, bytes: Memory)

  /** Bytes whose values are known. */
  function Known(bs: seq<byte>): seq<Option<byte>> {
    seq(|bs|, i requires 0 <= i < |bs| => Some(bs[i]))
  }

  /** `n` bytes from `addr` on, `None` for each byte never written. */
  function ReadBytes(m: Memory, addr: nat, n: nat): seq<Option<byte>> {
    seq(n, i requires 0 <= i < n => if addr + i in m then Some(m[addr + i]) else None)
  }

  /**
   * `m` with `bs` written from `addr` on (`ptr::copy`: the bytes are taken
   * before any is written, so overlapping copies are exact); writing an
   * unknown byte makes that address unknown.
   */
  function WriteBytes(m: Memory, addr: nat, bs: seq<Option<byte>>): Memory
    decreases |bs|
  {
    if |bs| == 0 then m
    else
      var rest := WriteBytes(m, addr + 1, bs[1..]);
      if bs[0].Some? then rest[addr := bs[0].value] else rest - {addr}
  }

  /** What an address holds after a write: the written byte inside the range, the old one outside it. */
  lemma {:induction false} WriteBytesAt(m: Memory, addr: nat, bs: seq<Option<byte>>, a: nat)
    ensures var r := WriteBytes(m, addr, bs);
      if addr <= a < addr + |bs| then
        (a in r <==> bs[a - addr].Some?) && (a in r ==> r[a] == bs[a - addr].value)
      else
        (a in r <==> a in m) && (a in m ==> r[a] == m[a])
    decreases |bs|
  {
    if |bs| > 0 {
      WriteBytesAt(m, addr + 1, bs[1..], a);
    }
  }

  /** Reading back what was just written gives exactly the written bytes. */
  lemma ReadBackWritten(m: Memory, addr: nat, bs: seq<Option<byte>>)
    ensures ReadBytes(WriteBytes(m, addr, bs), addr, |bs|) == bs
  {
    forall i | 0 <= i < |bs|
      ensures ReadBytes(WriteBytes(m, addr, bs), addr, |bs|)[i] == bs[i]
    {
      WriteBytesAt(m, addr, bs, addr + i);
    }
  }

  /** A write leaves every range it does not overlap as it was. */
  lemma WriteLeavesOthers(m: Memory, addr: nat, bs: seq<Option<byte>>, b: nat, n: nat)
    requires b + n <= addr || addr + |bs| <= b
    ensures ReadBytes(WriteBytes(m, addr, bs), b, n) == ReadBytes(m, b, n)
  {
    forall i | 0 <= i < n
      ensures ReadBytes(WriteBytes(m, addr, bs), b, n)[i] == ReadBytes(m, b, n)[i]
    {
      WriteBytesAt(m, addr, bs, b + i);
    }
  }

  /** A write leaves every range it does not overlap as it was, for all ranges at once. */
  lemma WriteLeavesRest(m: Memory, addr: nat, bs: seq<Option<byte>>)
    ensures forall b: nat, n: nat :: b + n <= addr || addr + |bs| <= b ==>
              ReadBytes(WriteBytes(m, addr, bs), b, n) == ReadBytes(m, b, n)
  {
    forall b: nat, n: nat | b + n <= addr || addr + |bs| <= b
      ensures ReadBytes(WriteBytes(m, addr, bs), b, n) == ReadBytes(m, b, n)
    {
      WriteLeavesOthers(m, addr, bs, b, n);
    }
  }

  /**
   * `write_const`: the bytes of constant `c` of type `ty` — one byte for
   * a `u8` or a `bool`, eight little-endian bytes for a `usize`, none for
   * a zero-sized tuple; any other constant is `todo!`. A constant that does
   * not fit its type is malformed SIR and panics here.
   */
  function ConstBytes(c: int, ty: Ty): Outcome<seq<byte>> {
    match ty.kind
    case U8Ty => if 0 <= c < 256 then Done([c as byte]) else Failed(Panic)
    case UsizeTy => if 0 <= c < USIZE_LIMIT then Done(LeBytes(c, 8)) else Failed(Panic)
    case BoolTy => if c == 0 || c == 1 then Done([c as byte]) else Failed(Panic)
    case TupleTy(_) => if ty.size == 0 then Done([]) else Failed(Unsupported)
    case _ => Failed(Unsupported)
  }

  /**
   * The bytes written for a constant decode to the constant: one byte for a
   * `u8` or `bool`, eight for a `usize`, nothing for a zero-sized tuple.
   */
  lemma ConstBytesDecode(c: int, ty: Ty)
    requires ConstBytes(c, ty).Done?
    ensures var bs := ConstBytes(c, ty).value;
      && (ty.kind.TupleTy? ==> bs == [] && ty.size == 0)
      && (!ty.kind.TupleTy? ==> FromLe(bs) == c && |bs| == (if ty.kind.UsizeTy? then 8 else 1))
      && (ty.kind.U8Ty? || ty.kind.BoolTy? || ty.kind.UsizeTy? || ty.kind.TupleTy?)
  {
    if ty.kind.UsizeTy? {
      assert Pow256(8) == USIZE_LIMIT;
      LeBytesRoundTrip(c, 8);
    } else if !ty.kind.TupleTy? {
      var bs := ConstBytes(c, ty).value;
      assert bs[1..] == [];
    }
  }

  /** `local_ptr`: where local `l` starts; a panic when the frame has no such local. */
  function LocalPtr(mem: LocalMem, l: Local): Outcome<nat> {
    if l < |mem.offsets| then Done(mem.offsets[l]) else Failed(Panic)
  }

  /**
   * `iplace_to_ptr`: where a place starts in its frame. A `Val` is its
   * local's offset plus its own; an offset `usize::try_from` rejects
   * panics; an `Indirect` place follows a pointer; a constant or an
   * unimplemented place is `unreachable!`.
   */
  function PlacePtr(mem: LocalMem, p: IPlace): (r: Outcome<nat>)
    ensures r.Done? ==> p.Val?
  {
    match p
    case Val(l, off, _) =>
      (match LocalPtr(mem, l)
       case Failed(f) => Failed(f)
       case Done(a) => if off < 0 then Failed(Panic) else Done(a + off))
    case _ => Failed(NonValFault(mem, p))
  }

  /** Why a place that is not a `Val` has no address in this model. */
  function NonValFault(mem: LocalMem, p: IPlace): Fault {
    if p.Deref? && p.local < |mem.offsets| then NotModelled else Panic
  }

  /**
   * The bytes a place stands for: for a place in memory, the size of its
   * type read from where it starts; for a constant, its bytes as
   * `write_const` writes them. A type missing from SIR panics.
   */
  function PlaceBytes(mem: LocalMem, p: IPlace, types: map<TypeId, Ty>): Outcome<seq<Option<byte>>> {
    match p
    case ConstPlace(c, ty) =>
      if ty !in types then Failed(Panic)
      else
        (match ConstBytes(c, types[ty])
         case Failed(f) => Failed(f)
         case Done(bs) => Done(Known(bs)))
    case Val(_, _, ty) =>
      (match PlacePtr(mem, p)
       case Failed(f) => Failed(f)
       case Done(a) => if ty !in types then Failed(Panic) else Done(ReadBytes(mem.bytes, a, types[ty].size)))
    case _ => Failed(NonValFault(mem, p))
  }

  /** `write_val`: `bs` copied to `dst`. */
  function WriteVal(mem: LocalMem, dst: nat, bs: seq<Option<byte>>): LocalMem {
    mem.(bytes := WriteBytes(mem.bytes, dst, bs))
  }

  /**
   * `LocalMem::store`: the bytes `src` stands for written where `dest`
   * starts. It succeeds exactly when both places can be resolved; reading
   * `dest` back then gives those bytes. Storing from an unimplemented place
   * is `todo!`.
   */
  function Store(mem: LocalMem, dest: IPlace, src: IPlace, types: map<TypeId, Ty>): (r: Outcome<LocalMem>)
    ensures r.Done? <==> PlaceBytes(mem, src, types).Done? && PlacePtr(mem, dest).Done?
    ensures r.Done? ==> r.value == WriteVal(mem, PlacePtr(mem, dest).value, PlaceBytes(mem, src, types).value)
    ensures r.Done? ==> var v := PlaceBytes(mem, src, types).value;
      ReadBytes(r.value.bytes, PlacePtr(mem, dest).value, |v|) == v
  {
    match src
    case UnimplementedPlace(_) => Failed(Unsupported)
    case ConstPlace(c, ty) =>
      (match PlacePtr(mem, dest)
       case Failed(f) => Failed(f)
       case Done(dst) =>
         if ty !in types then Failed(Panic)
         else
           (match ConstBytes(c, types[ty])
            case Failed(f) => Failed(f)
            case Done(bs) =>
              ReadBackWritten(mem.bytes, dst, Known(bs));
              Done(WriteVal(mem, dst, Known(bs)))))
    case Deref(_, _, _, _) => Failed(NonValFault(mem, src))
    case Val(_, _, ty) =>
      (match PlacePtr(mem, src)
       case Failed(f) => Failed(f)
       case Done(s) =>
         (match PlacePtr(mem, dest)
          case Failed(f) => Failed(f)
          case Done(dst) =>
            if ty !in types then Failed(Panic)
            else
              var v := ReadBytes(mem.bytes, s, types[ty].size);
              ReadBackWritten(mem.bytes, dst, v);
              Done(WriteVal(mem, dst, v))))
  }

  /**
   * `mkref`: the address of `src` stored at `dest`. The destination must
   * be a place in memory (otherwise `unreachable!`); both places must
   * resolve. The stored pointer's value is not modelled: its eight bytes
   * become unknown and the rest of the frame keeps its bytes.
   */
  function MakeRef(mem: LocalMem, dest: IPlace, src: IPlace): (r: Outcome<LocalMem>)
    ensures r.Done? <==> (dest.Val? || dest.Deref?) && PlacePtr(mem, src).Done? && PlacePtr(mem, dest).Done?
    ensures r.Done? ==> r.value.offsets == mem.offsets
    ensures r.Done? ==> ReadBytes(r.value.bytes, PlacePtr(mem, dest).value, 8) == ReadBytes(map[], 0, 8)
    ensures r.Done? ==> forall b: nat, n: nat :: b + n <= PlacePtr(mem, dest).value || PlacePtr(mem, dest).value + 8 <= b ==>
                          ReadBytes(r.value.bytes, b, n) == ReadBytes(mem.bytes, b, n)
  {
    if !(dest.Val? || dest.Deref?) then Failed(Panic)
    else
      match PlacePtr(mem, src)
      case Failed(f) => Failed(f)
      case Done(_) =>
        (match PlacePtr(mem, dest)
         case Failed(f) => Failed(f)
         case Done(dst) =>
           var unknown := ReadBytes(map[], 0, 8);
           ReadBackWritten(mem.bytes, dst, unknown);
           WriteLeavesRest(mem.bytes, dst, unknown);
           Done(WriteVal(mem, dst, unknown)))
  }

  /**
   * What `Return` writes into the caller: the callee's return value (its
   * local 0, as many bytes as the destination's type takes) copied to the
   * destination place; the rest of the caller's frame keeps its bytes.
   */
  function ReturnInto(caller: LocalMem, callee: LocalMem, dest: IPlace, types: map<TypeId, Ty>): (r: Outcome<LocalMem>)
    ensures r.Done? <==> |callee.offsets| > 0 && PlacePtr(caller, dest).Done? && dest.ty in types
    ensures r.Done? ==> r.value.offsets == caller.offsets
    ensures r.Done? ==> var dst, size := PlacePtr(caller, dest).value, types[dest.ty].size;
      && ReadBytes(r.value.bytes, dst, size) == ReadBytes(callee.bytes, callee.offsets[0], size)
      && forall b: nat, n: nat :: b + n <= dst || dst + size <= b ==> ReadBytes(r.value.bytes, b, n) == ReadBytes(caller.bytes, b, n)
  {
    match LocalPtr(callee, 0)
    case Failed(f) => Failed(f)
    case Done(ret) =>
      (match PlacePtr(caller, dest)
       case Failed(f) => Failed(f)
       case Done(dst) =>
         if dest.ty !in types then Failed(Panic)
         else
           var v := ReadBytes(callee.bytes, ret, types[dest.ty].size);
           ReadBackWritten(caller.bytes, dst, v);
           WriteLeavesRest(caller.bytes, dst, v);
           Done(WriteVal(caller, dst, v)))
  }

  /** A method's fault, or the value it leaves behind when it has none. */
  function Settled<T>(f: Option<Fault>, v: T): Outcome<T> {
    if f.None? then Done(v) else Failed(f.value)
  }

  /**
   * Writing a pointer value (`set_interp_ctx`, `set_trace_inputs`): its
   * eight little-endian bytes stored at local `l`, which must exist.
   * Reading them back gives the pointer.
   */
  function WritePointer(mem: LocalMem, l: Local, ptr: nat): (r: Outcome<LocalMem>)
    requires ptr < USIZE_LIMIT
    ensures r.Done? <==> l < |mem.offsets|
    ensures r.Done? ==> r.value.offsets == mem.offsets
    ensures r.Done? ==> var bs := ReadBytes(r.value.bytes, mem.offsets[l], 8);
      (forall i :: 0 <= i < 8 ==> bs[i].Some?) && FromLe(seq(8, i requires 0 <= i < 8 => bs[i].value)) == ptr
  {
    match LocalPtr(mem, l)
    case Failed(f) => Failed(f)
    case Done(a) =>
      var bs := LeBytes(ptr, 8);
      ReadBackWritten(mem.bytes, a, Known(bs));
      assert Pow256(8) == USIZE_LIMIT;
      LeBytesRoundTrip(ptr, 8);
      assert seq(8, i requires 0 <= i < 8 => Known(bs)[i].value) == bs;
      Done(WriteVal(mem, a, Known(bs)))
  }

  /**
   * Argument `i` written to local `i + 1` of a fresh frame (one step of
   * `copy_args`): a place in the caller's frame is copied, a constant is
   * written out; an unimplemented argument is `unreachable!`.
   */
  function ArgWritten(mem: LocalMem, i: nat, arg: IPlace, caller: LocalMem, types: map<TypeId, Ty>): (r: Outcome<LocalMem>)
    ensures r.Done? ==> r.value.offsets == mem.offsets
  {
    match LocalPtr(mem, i + 1)
    case Failed(f) => Failed(f)
    case Done(dst) =>
      (match PlaceBytes(caller, arg, types)
       case Failed(f) => Failed(f)
       case Done(v) => Done(WriteVal(mem, dst, v)))
  }

  /** The frame after `copy_args` wrote every argument of `args`, in order. */
  function ArgsWritten(mem: LocalMem, args: seq<IPlace>, caller: LocalMem, types: map<TypeId, Ty>): (r: Outcome<LocalMem>)
    ensures r.Done? ==> r.value.offsets == mem.offsets
    decreases |args|
  {
    if |args| == 0 then Done(mem)
    else
      match ArgsWritten(mem, args[..|args| - 1], caller, types)
      case Failed(f) => Failed(f)
      case Done(m) => ArgWritten(m, |args| - 1, args[|args| - 1], caller, types)
  }

  /** Once writing the arguments has failed, writing more of them fails the same way. */
  lemma {:induction false} ArgsFailurePersists(mem: LocalMem, args: seq<IPlace>, caller: LocalMem, types: map<TypeId, Ty>, j: nat)
    requires j <= |args| && ArgsWritten(mem, args[..j], caller, types).Failed?
    ensures ArgsWritten(mem, args, caller, types) == ArgsWritten(mem, args[..j], caller, types)
    decreases |args| - j
  {
    if j < |args| {
      assert args[..j + 1][..j] == args[..j];
      ArgsFailurePersists(mem, args, caller, types, j + 1);
    } else {
      assert args[..j] == args;
    }
  }

  /**
   * `copy_args`: arguments `args`, valued in the caller's frame, copied
   * into locals 1, 2, ... of a new frame, in order.
   */
  method CopyArgs(mem: LocalMem, args: seq<IPlace>, caller: LocalMem, types: map<TypeId, Ty>)
    returns (r: Outcome<LocalMem>)
    ensures r == ArgsWritten(mem, args, caller, types)
  {
    var cur := mem;
    for i := 0 to |args|
      invariant ArgsWritten(mem, args[..i], caller, types) == Done(cur)
    {
      assert args[..i + 1][..i] == args[..i];
      var step := ArgWritten(cur, i, args[i], caller, types);
      if step.Failed? {
        ArgsFailurePersists(mem, args, caller, types, i + 1);
        return step;
      }
      cur := step.value;
    }
    assert args[..|args|] == args;
    r := Done(cur);
  }

  /** The size of an argument's value, 0 for an argument without one. */
  function ArgSize(caller: LocalMem, arg: IPlace, types: map<TypeId, Ty>): nat {
    match PlaceBytes(caller, arg, types)
    case Done(v) => |v|
    case Failed(_) => 0
  }

  /** Whether the locals receiving arguments `i` and `j` occupy disjoint bytes. */
  predicate ArgsApart(offsets: seq<nat>, args: seq<IPlace>, caller: LocalMem, types: map<TypeId, Ty>, i: nat, j: nat)
    requires i < |args| && j < |args| && |args| < |offsets|
  {
    || offsets[i + 1] + ArgSize(caller, args[i], types) <= offsets[j + 1]
    || offsets[j + 1] + ArgSize(caller, args[j], types) <= offsets[i + 1]
  }

  /**
   * `copy_args` succeeds exactly when the callee has a local for every
   * argument and every argument has a value in the caller's frame.
   */
  lemma {:induction false} ArgsWrittenDefined(mem: LocalMem, args: seq<IPlace>, caller: LocalMem, types: map<TypeId, Ty>)
    ensures ArgsWritten(mem, args, caller, types).Done? <==>
      && (|args| == 0 || |args| < |mem.offsets|)
      && forall i :: 0 <= i < |args| ==> PlaceBytes(caller, args[i], types).Done?
    decreases |args|
  {
    if |args| > 0 {
      var init := args[..|args| - 1];
      ArgsWrittenDefined(mem, init, caller, types);
      assert forall i :: 0 <= i < |init| ==> init[i] == args[i];
    }
  }

  /**
   * What `copy_args` promises the callee: when the receiving locals do not
   * overlap, local `k + 1` holds exactly the value of argument `k`.
   */
  lemma {:induction false} ArgsLand(mem: LocalMem, args: seq<IPlace>, caller: LocalMem, types: map<TypeId, Ty>, k: nat)
    requires ArgsWritten(mem, args, caller, types).Done?
    requires k < |args| < |mem.offsets|
    requires forall i, j :: 0 <= i < j < |args| ==> ArgsApart(mem.offsets, args, caller, types, i, j)
    ensures PlaceBytes(caller, args[k], types).Done?
    ensures var v := PlaceBytes(caller, args[k], types).value;
      ReadBytes(ArgsWritten(mem, args, caller, types).value.bytes, mem.offsets[k + 1], |v|) == v
    decreases |args|
  {
    var n := |args| - 1;
    var init := args[..n];
    var m := ArgsWritten(mem, init, caller, types).value;
    var last := PlaceBytes(caller, args[n], types).value;
    if k == n {
      ReadBackWritten(m.bytes, mem.offsets[n + 1], last);
    } else {
      assert init[k] == args[k];
      assert forall i, j :: 0 <= i < j < |init| ==> init[i] == args[i] && init[j] == args[j];
      assert forall i, j :: 0 <= i < j < |init| ==> ArgsApart(mem.offsets, init, caller, types, i, j) by {
        forall i, j | 0 <= i < j < |init|
          ensures ArgsApart(mem.offsets, init, caller, types, i, j)
        {
          assert ArgsApart(mem.offsets, args, caller, types, i, j);
        }
      }
      ArgsLand(mem, init, caller, types, k);
      var v := PlaceBytes(caller, args[k], types).value;
      assert ArgsApart(mem.offsets, args, caller, types, k, n);
      WriteLeavesOthers(m.bytes, mem.offsets[n + 1], last, mem.offsets[k + 1], |v|);
    }
  }

  /** A byte read as an integer; reading a byte never written is not modelled. */
  function ReadByte(m: Memory, a: nat): Outcome<nat> {
    if a in m then Done(m[a] as nat) else Failed(NotModelled)
  }

  /**
   * `read_int` of a place in memory: a `u8` or a `bool` is read as one
   * byte; any other unsigned integer is `todo!`; anything else is
   * `unreachable!`.
   */
  function ReadStoredInt(mem: LocalMem, src: IPlace, types: map<TypeId, Ty>): (r: Outcome<nat>)
    ensures r.Done? ==> && PlacePtr(mem, src).Done? && src.ty in types
                        && (types[src.ty].kind.U8Ty? || types[src.ty].kind.BoolTy?)
                        && r.value < 256
                        && ReadBytes(mem.bytes, PlacePtr(mem, src).value, 1) == [Some(r.value as byte)]
  {
    match PlacePtr(mem, src)
    case Failed(f) => Failed(f)
    case Done(a) =>
      if src.ty !in types then Failed(Panic)
      else
        match types[src.ty].kind
        case U8Ty => ReadByte(mem.bytes, a)
        case BoolTy => ReadByte(mem.bytes, a)
        case UsizeTy => Failed(Unsupported)
        case OtherUnsignedTy => Failed(Unsupported)
        case _ => Failed(Panic)
  }

  /** A `u8` or `bool` place whose byte is known reads as that byte. */
  lemma ReadStoredByte(mem: LocalMem, src: IPlace, types: map<TypeId, Ty>)
    requires PlacePtr(mem, src).Done? && src.ty in types
    requires types[src.ty].kind.U8Ty? || types[src.ty].kind.BoolTy?
    requires PlacePtr(mem, src).value in mem.bytes
    ensures ReadStoredInt(mem, src, types) == Done(mem.bytes[PlacePtr(mem, src).value] as nat)
  {
  }

  /**
   * `write_const` and `read_int` agree: storing a `u8` or `bool` constant
   * into a place of the same one-byte kind and reading the place back as
   * an integer gives the constant.
   */
  lemma StoreThenReadInt(mem: LocalMem, dest: IPlace, c: int, cty: TypeId, types: map<TypeId, Ty>)
    requires Store(mem, dest, ConstPlace(c, cty), types).Done?
    requires dest.Val? && dest.ty in types && cty in types
    requires types[dest.ty].kind == types[cty].kind && (types[cty].kind.U8Ty? || types[cty].kind.BoolTy?)
    ensures ReadStoredInt(Store(mem, dest, ConstPlace(c, cty), types).value, dest, types) == Done(c)
  {
    var m := Store(mem, dest, ConstPlace(c, cty), types).value;
    var a := PlacePtr(mem, dest).value;
    var bs := ConstBytes(c, types[cty]).value;
    assert ReadBytes(m.bytes, a, 1) == Known(bs);
    assert PlacePtr(m, dest) == Done(a);
    assert a in m.bytes && m.bytes[a] == bs[0];
  }
}
