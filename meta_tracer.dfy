/**
 * The meta-tracer's per-location state machine (ykrt/src/mt.rs).
 *
 * Every interpreter loop header is a `Location`. It counts how often it is
 * reached; once hot it owns a `HotLocation` whose kind moves through
 * Counting(n) -> Tracing -> Compiling -> Compiled <-> SideTracing, or to
 * DontTrace. Every thread keeps a stack of what it is doing (interpreting,
 * recording a trace, executing a compiled trace).
 *
 * The model is single-threaded: locks are taken trivially and the spinning
 * try-lock fallback is not modelled. Whether the thread that started tracing
 * a location has since died (the source's `Arc::strong_count(&hl) == 2`
 * test) is the input `orphaned`. Trace recorders, compile jobs and the
 * compiled traces themselves are outside the model: a compiled trace is
 * identified by its `TraceId`, the result of starting a recorder is an
 * input, and the outcome of a root compile job is applied by
 * `MT.RootCompileOutcome`.
 */
module MetaTracer {
  import opened Wrappers
  import opened Bytes

  const U16_MAX: nat := 0xFFFF
  const U32_MAX: nat := 0xFFFF_FFFF
  const U64_MAX: nat := 0xFFFF_FFFF_FFFF_FFFF
  const TWO_32: nat := 0x1_0000_0000
  const TWO_64: nat := 0x1_0000_0000_0000_0000

  const DEFAULT_HOT_THRESHOLD: nat := 131
  const DEFAULT_SIDETRACE_THRESHOLD: nat := 5
  const DEFAULT_TRACECOMPILATION_ERROR_THRESHOLD: nat := 5

  /** A `CompiledTraceId`; a compiled trace is known by its identifier. */
  type TraceId = nat

  datatype HotLocationKind =
    | Compiled(ctr: TraceId)
    | Compiling
    | Counting(count: nat)
    | DontTrace
    | Tracing
    | SideTracing(root: TraceId, gidx: nat, parent: TraceId)

  /** `TraceFailed`; `GiveUp` is the source's `TraceFailed::DontTrace`. */
  datatype TraceFailed = KeepTrying | GiveUp

  /** Why tracing was aborted. */
  datatype AbortKind = BackIntoExecution | EncounteredCompiledTrace | OutOfFrame | Unrolled

  /**
   * What the caller of the control-point transition must do. The hot
   * location carried by the source's `StartTracing` is always the one of the
   * location passed in, so it is dropped here.
   */
  datatype ControlPointAction =
    | NoAction
    | AbortTracing(why: AbortKind)
    | Execute(ctr: TraceId)
    | StartTracing
    | StopTracing(startCpIdx: nat)
    | StopSideTracing(gidx: nat, parent: TraceId, root: TraceId)

  /** What the caller of the guard-failure transition must do. */
  datatype GuardFailureAction = NoSideTrace | StartSideTracing

  /** The value of a hot location: its kind and its count of trace/compile failures. */
  datatype HotState = HotState(kind: HotLocationKind, errors: nat)

  /**
   * How the current thread relates to a hot location, as the transition sees
   * it: not tracing at all (`Idle`); tracing, but the top of its stack is not
   * a trace recording (`Nested`); or recording a trace that ends at this
   * location (`TracingThis`) or at another one (`TracingOther`).
   */
  datatype ThreadView = Idle | Nested | TracingThis | TracingOther

  // ---------------------------------------------------------------------------
  // The transitions of one hot location, on values.

  /**
   * The verdict of `tracecompilation_error` once the failure counter has
   * reached `errors`: keep trying while the counter does not exceed the
   * threshold.
   */
  function FailureVerdict(errors: nat, threshold: nat): TraceFailed
  {
    if errors <= threshold then KeepTrying else GiveUp
  }

  /**
   * A trace of a location is abandoned (tracing aborted, or deoptimisation
   * went back into a trace being recorded). `None` is a panic: only locations
   * being traced or side-traced can be abandoned.
   */
  function Abandoned(s: HotState, threshold: nat): (r: Option<HotState>)
    ensures r.Some? <==> s.kind.Tracing? || s.kind.SideTracing?
    ensures r.Some? ==> !r.value.kind.Tracing? && !r.value.kind.SideTracing?
    ensures s.kind.SideTracing? ==> r == Some(HotState(Compiled(s.kind.root), s.errors))
    ensures s.kind.Tracing? ==>
      r.value.errors == s.errors + 1
      && (r.value.kind == DontTrace <==> s.errors >= threshold)
      && (r.value.kind != DontTrace ==> r.value.kind == Counting(0))
  {
    match s.kind
    case Tracing =>
      var e := s.errors + 1;
      Some(HotState(if FailureVerdict(e, threshold) == KeepTrying then Counting(0) else DontTrace, e))
    case SideTracing(root, _, _) => Some(HotState(Compiled(root), s.errors))
    case _ => None
  }

  /**
   * One control-point visit to a hot location, after the inner-loop check has
   * let it through. `None` is a panic.
   */
  function HotStep(s: HotState, view: ThreadView, orphaned: bool, hot: nat, threshold: nat)
    : (r: Option<(HotState, ControlPointAction)>)
    ensures r.None? <==> s.kind.SideTracing? && view == Nested
    ensures r.Some? && r.value.1.Execute? ==> view == Idle
    ensures r.Some? && r.value.1.AbortTracing? ==> view != Idle
    ensures r.Some? && (r.value.1.StopTracing? || r.value.1.StopSideTracing?) ==> view == TracingThis
    ensures r.Some? && r.value.1 == StartTracing ==>
      r.value.0.kind == Tracing && view != TracingThis && view != TracingOther
    ensures r.Some? && r.value.0.errors != s.errors ==>
      s.kind == Tracing && orphaned && r.value.0.errors == s.errors + 1
    ensures s.kind == Compiling || s.kind == DontTrace ==> r == Some((s, NoAction))
  {
    match s.kind
    case Compiled(ctr) =>
      if view == Idle then Some((s, Execute(ctr)))
      else Some((s, AbortTracing(EncounteredCompiledTrace)))
    case Compiling => Some((s, NoAction))
    case Counting(c) =>
      if view != Idle then Some((s, NoAction))
      else if c < hot then Some((s.(kind := Counting(c + 1)), NoAction))
      else Some((s.(kind := Tracing), StartTracing))
    case Tracing =>
      (match view
       case TracingThis => Some((s.(kind := Compiling), StopTracing(0)))
       case TracingOther => Some((s, NoAction))
       case _ =>
         if !orphaned then Some((s, NoAction))
         else if FailureVerdict(s.errors + 1, threshold) == KeepTrying then
           Some((HotState(Tracing, s.errors + 1), StartTracing))
         else Some((HotState(DontTrace, s.errors + 1), NoAction)))
    case SideTracing(root, gidx, parent) =>
      (match view
       case TracingThis => Some((s.(kind := Compiled(root)), StopSideTracing(gidx, parent, root)))
       case TracingOther => Some((s, NoAction))
       case Idle => Some((s, Execute(root)))
       case Nested => None)
    case DontTrace => Some((s, NoAction))
  }

  /** A compiled location runs its trace when the thread is not tracing, and aborts tracing otherwise. */
  lemma CompiledExecutesIffIdle(ctr: TraceId, errors: nat, view: ThreadView, orphaned: bool, hot: nat, threshold: nat)
    ensures var s := HotState(Compiled(ctr), errors);
      HotStep(s, view, orphaned, hot, threshold)
      == Some((s, if view == Idle then Execute(ctr) else AbortTracing(EncounteredCompiledTrace)))
  {
  }

  /**
   * A location being traced: reaching it in the thread that traces it stops
   * tracing and starts compiling; reaching it while tracing something else
   * does nothing.
   */
  lemma TracingLocationStops(errors: nat, orphaned: bool, hot: nat, threshold: nat)
    ensures HotStep(HotState(Tracing, errors), TracingThis, orphaned, hot, threshold)
      == Some((HotState(Compiling, errors), StopTracing(0)))
    ensures HotStep(HotState(Tracing, errors), TracingOther, orphaned, hot, threshold)
      == Some((HotState(Tracing, errors), NoAction))
  {
  }

  /** `n` successive visits by a thread that is not tracing (`None` if one of them panics). */
  function IdleRun(s: HotState, n: nat, orphaned: bool, hot: nat, threshold: nat)
    : Option<(HotState, seq<ControlPointAction>)>
    decreases n
  {
    if n == 0 then Some((s, []))
    else
      match HotStep(s, Idle, orphaned, hot, threshold)
      case None => None
      case Some(step) =>
        match IdleRun(step.0, n - 1, orphaned, hot, threshold)
        case None => None
        case Some(rest) => Some((rest.0, [step.1] + rest.1))
  }

  function Repeat<T>(x: T, n: nat): (r: seq<T>)
    ensures |r| == n && forall i :: 0 <= i < n ==> r[i] == x
  {
    if n == 0 then [] else [x] + Repeat(x, n - 1)
  }

  /**
   * A counting hot location below the hot threshold counts one up per visit
   * and asks for nothing; once the count reaches the threshold the next visit
   * starts tracing.
   */
  lemma {:induction false} CountingLocationHeatsUp(c: nat, n: nat, errors: nat, hot: nat, threshold: nat)
    requires c + n <= hot
    ensures IdleRun(HotState(Counting(c), errors), n, false, hot, threshold)
      == Some((HotState(Counting(c + n), errors), Repeat(NoAction, n)))
    ensures HotStep(HotState(Counting(c + n), errors), Idle, false, hot, threshold)
      == (if c + n < hot then Some((HotState(Counting(c + n + 1), errors), NoAction))
          else Some((HotState(Tracing, errors), StartTracing)))
    decreases n
  {
    if n > 0 {
      CountingLocationHeatsUp(c + 1, n - 1, errors, hot, threshold);
      assert Repeat(NoAction, n) == [NoAction] + Repeat(NoAction, n - 1);
    }
  }

  /**
   * A location whose tracing thread keeps dying is restarted while its failure
   * counter stays within the threshold, and is then never traced again.
   */
  lemma {:induction false} OrphanedTracingGivesUp(e: nat, n: nat, hot: nat, threshold: nat)
    requires e + n <= threshold
    ensures IdleRun(HotState(Tracing, e), n, true, hot, threshold)
      == Some((HotState(Tracing, e + n), Repeat(StartTracing, n)))
    ensures e + n == threshold ==>
      HotStep(HotState(Tracing, e + n), Idle, true, hot, threshold)
      == Some((HotState(DontTrace, e + n + 1), NoAction))
    decreases n
  {
    if n > 0 {
      OrphanedTracingGivesUp(e + 1, n - 1, hot, threshold);
      assert Repeat(StartTracing, n) == [StartTracing] + Repeat(StartTracing, n - 1);
    }
  }

  /**
   * Before a location owns a hot location it only counts visits; `true` says
   * the visit makes it hot and starts tracing.
   */
  function ColdStep(count: nat, hot: nat): (nat, bool)
  {
    var x := count + 1;
    (x, !(x < hot + 1))
  }

  /** `n` successive visits to a cold location; `true` if one of them started tracing. */
  function ColdRun(count: nat, n: nat, hot: nat): (nat, bool)
    decreases n
  {
    if n == 0 then (count, false)
    else
      var step := ColdStep(count, hot);
      if step.1 then (step.0, true) else ColdRun(step.0, n - 1, hot)
  }

  /**
   * A fresh location needs exactly `hot` visits that ask for nothing, after
   * which its count is `hot`; the next visit starts tracing.
   */
  lemma {:induction false} ColdLocationHeatsUp(count: nat, n: nat, hot: nat)
    requires count + n <= hot
    ensures ColdRun(count, n, hot) == (count + n, false)
    ensures ColdStep(count + n, hot) == (count + n + 1, count + n == hot)
    decreases n
  {
    if n > 0 {
      ColdLocationHeatsUp(count + 1, n - 1, hot);
    }
  }

  /** A guard failure that is hot enough turns a compiled location into a side-traced one. */
  function GuardFailureStep(kind: HotLocationKind, gidx: nat, parent: TraceId)
    : (r: (HotLocationKind, GuardFailureAction))
    ensures r.1 == StartSideTracing <==> kind.Compiled?
    ensures r.1 == NoSideTrace ==> r.0 == kind
  {
    match kind
    case Compiled(root) => (SideTracing(root, gidx, parent), StartSideTracing)
    case _ => (kind, NoSideTrace)
  }

  /**
   * Side tracing round trip: a guard failure moves `Compiled(root)` to
   * `SideTracing`, and reaching the location again while side-tracing it
   * restores `Compiled(root)` and stops side tracing.
   */
  lemma SideTraceRoundTrip(root: TraceId, gidx: nat, parent: TraceId, errors: nat, orphaned: bool, hot: nat, threshold: nat)
    ensures var g := GuardFailureStep(Compiled(root), gidx, parent);
      g.1 == StartSideTracing
      && HotStep(HotState(g.0, errors), TracingThis, orphaned, hot, threshold)
         == Some((HotState(Compiled(root), errors), StopSideTracing(gidx, parent, root)))
  {
  }

  /** The outcome of a root compile job: the new trace, or a compile error. */
  function RootCompileStep(s: HotState, outcome: Option<TraceId>, threshold: nat): (r: HotState)
    ensures outcome.Some? ==> r == HotState(Compiled(outcome.value), s.errors)
    ensures outcome.None? ==>
      r.errors == s.errors + 1
      && (r.kind == DontTrace <==> s.errors >= threshold)
      && (r.kind != DontTrace ==> r.kind == Counting(0))
  {
    match outcome
    case Some(ctr) => s.(kind := Compiled(ctr))
    case None =>
      var e := s.errors + 1;
      HotState(if FailureVerdict(e, threshold) == KeepTrying then Counting(0) else DontTrace, e)
  }

  /** `n` successive failures, starting from a failure counter of `e`. */
  function Failures(e: nat, n: nat, threshold: nat): (r: seq<TraceFailed>)
    ensures |r| == n
    decreases n
  {
    if n == 0 then [] else [FailureVerdict(e + 1, threshold)] + Failures(e + 1, n - 1, threshold)
  }

  /**
   * A location can fail `threshold` times and still be retried; the next
   * failure gives up on it.
   */
  lemma {:induction false} FailuresUpToThreshold(e: nat, n: nat, threshold: nat)
    requires e + n <= threshold
    ensures Failures(e, n, threshold) == Repeat(KeepTrying, n)
    ensures e + n == threshold ==> Failures(e, n + 1, threshold)[n] == GiveUp
    decreases n
  {
    if n > 0 {
      FailuresUpToThreshold(e + 1, n - 1, threshold);
      assert Repeat(KeepTrying, n) == [KeepTrying] + Repeat(KeepTrying, n - 1);
    } else if e == threshold {
      assert Failures(e, 1, threshold) == [GiveUp];
    }
  }

  // ---------------------------------------------------------------------------
  // Inner-loop detection while tracing.

  /**
   * When a thread recording a trace reaches a hot location, it checks whether
   * the trace has already passed that location (an inner loop) and whether
   * the interpreter frame is still the one tracing started in.
   */
  datatype InnerLoopVerdict = SwitchToInnerLoop(startCpIdx: nat) | AbortTrace(why: AbortKind) | KeepTracing

  /**
   * The check as mt.rs:616-680 performs it: an inner loop whose location is
   * still counting is switched to even when the frame has changed.
   */
  function InnerLoopVerdictAsWritten(sameFrame: bool, seenAt: Option<nat>, isCounting: bool)
    : (r: InnerLoopVerdict)
    ensures r == KeepTracing <==> sameFrame && seenAt.None?
  {
    if seenAt.Some? && isCounting then SwitchToInnerLoop(seenAt.value)
    else if seenAt.Some? then AbortTrace(Unrolled)
    else if !sameFrame then AbortTrace(OutOfFrame)
    else KeepTracing
  }

  /**
   * The as-written check stops tracing at an inner loop reached from another
   * frame, and the caller then fails the assertion that a stopped trace ends
   * in the frame it started in (mt.rs:517).
   */
  lemma InnerLoopAsWrittenIgnoresFrame()
    ensures InnerLoopVerdictAsWritten(false, Some(0), true) == SwitchToInnerLoop(0)
  {
  }

  /**
   * The check as the model performs it: a trace is only ever stopped in the
   * frame it started in; otherwise it is aborted as out of frame.
   */
  function InnerLoopVerdictChecked(sameFrame: bool, seenAt: Option<nat>, isCounting: bool)
    : (r: InnerLoopVerdict)
    ensures r.SwitchToInnerLoop? ==> sameFrame && seenAt == Some(r.startCpIdx) && isCounting
    ensures !sameFrame ==> r.AbortTrace?
    ensures r == KeepTracing <==> sameFrame && seenAt.None?
    ensures sameFrame ==> r == InnerLoopVerdictAsWritten(sameFrame, seenAt, isCounting)
  {
    if seenAt.Some? && isCounting && sameFrame then SwitchToInnerLoop(seenAt.value)
    else if seenAt.Some? && !isCounting then AbortTrace(Unrolled)
    else if !sameFrame then AbortTrace(OutOfFrame)
    else KeepTracing
  }

  // ---------------------------------------------------------------------------
  // Promotion bytes.

  /** A signed integer of `width` bits, as the unsigned number with the same bits. */
  function TwosComplement(v: int, modulus: nat): nat
    requires modulus > 0 && -(modulus as int) <= v < modulus
  {
    if v < 0 then (v + modulus) as nat else v as nat
  }

  /** The signed value of a `width`-bit unsigned number. */
  function FromTwosComplement(u: nat, modulus: nat): int
  {
    if u >= modulus / 2 then u - modulus else u
  }

  /** `val.to_ne_bytes()` for an `i32`. */
  function I32Bytes(v: int): (r: seq<byte>)
    requires -0x8000_0000 <= v < 0x8000_0000
    ensures |r| == 4
  {
    LeBytes(TwosComplement(v, TWO_32), 4)
  }

  /** `val.to_ne_bytes()` for an `i64`. */
  function I64Bytes(v: int): (r: seq<byte>)
    requires -0x8000_0000_0000_0000 <= v < 0x8000_0000_0000_0000
    ensures |r| == 8
  {
    LeBytes(TwosComplement(v, TWO_64), 8)
  }

  /** The bytes recorded for a promoted `i32` decode to that value. */
  lemma I32BytesRoundTrip(v: int)
    requires -0x8000_0000 <= v < 0x8000_0000
    ensures FromTwosComplement(FromLe(I32Bytes(v)), TWO_32) == v
  {
    assert Pow256(4) == TWO_32;
    LeBytesRoundTrip(TwosComplement(v, TWO_32), 4);
  }

  /** The bytes recorded for a promoted `i64` decode to that value. */
  lemma I64BytesRoundTrip(v: int)
    requires -0x8000_0000_0000_0000 <= v < 0x8000_0000_0000_0000
    ensures FromTwosComplement(FromLe(I64Bytes(v)), TWO_64) == v
  {
    assert Pow256(8) == TWO_64;
    LeBytesRoundTrip(TwosComplement(v, TWO_64), 8);
  }

  /** The bytes recorded for a promoted `u32` or `usize` (64-bit) decode to that value. */
  lemma UnsignedBytesRoundTrip(v: nat)
    ensures v < TWO_32 ==> FromLe(LeBytes(v, 4)) == v
    ensures v < TWO_64 ==> FromLe(LeBytes(v, 8)) == v
  {
    assert Pow256(4) == TWO_32;
    assert Pow256(8) == TWO_64;
    if v < TWO_32 { LeBytesRoundTrip(v, 4); }
    if v < TWO_64 { LeBytesRoundTrip(v, 8); }
  }

  // ---------------------------------------------------------------------------
  // Hot locations and locations.

  class HotLocation {
    var kind: HotLocationKind
    /** `tracecompilation_errors`: how often tracing or compiling this location failed. */
    var errors: nat

    constructor (kind: HotLocationKind)
      ensures this.kind == kind && errors == 0
    {
      this.kind := kind;
      errors := 0;
    }

    function State(): HotState
      reads this
    {
      HotState(kind, errors)
    }

    /**
     * `tracecompilation_error`: count one more failure and say whether the
     * location is still worth trying.
     */
    method TracecompilationError(threshold: nat) returns (r: TraceFailed)
      modifies this
      ensures kind == old(kind) && errors == old(errors) + 1
      ensures r == KeepTrying <==> errors <= threshold
    {
      errors := errors + 1;
      r := FailureVerdict(errors, threshold);
    }

    /** Give up a trace of this location (`None`: the source panics). */
    method Abandon(threshold: nat) returns (ok: bool)
      modifies this
      ensures ok <==> Abandoned(old(State()), threshold).Some?
      ensures ok ==> Some(State()) == Abandoned(old(State()), threshold)
      ensures !ok ==> State() == old(State())
    {
      match kind
      case Tracing =>
        var verdict := TracecompilationError(threshold);
        if verdict == KeepTrying {
          kind := Counting(0);
        } else {
          kind := DontTrace;
        }
        ok := true;
      case SideTracing(root, _, _) =>
        kind := Compiled(root);
        ok := true;
      case _ =>
        ok := false;
    }
  }

  /** A loop header: a visit count until it becomes hot, then its hot location. */
  class Location {
    var hl: HotLocation?
    var count: nat

    constructor ()
      ensures hl == null && count == 0
    {
      hl := null;
      count := 0;
    }
  }

  // ---------------------------------------------------------------------------
  // Per-thread state.

  /** `MTThreadState`; `Recording` is the source's `Tracing` state (a trace being recorded). */
  datatype ThreadState =
    | Interpreting
    | Recording(hl: HotLocation, promotions: seq<byte>, debugStrs: seq<string>, frameaddr: nat,
              seenHls: map<HotLocation, nat>, cpIdx: nat)
    | Executing(ctr: TraceId)

  /** `is_tracing`: some element of the stack is recording a trace. */
  function AnyTracing(s: seq<ThreadState>): (r: bool)
    ensures r <==> exists i :: 0 <= i < |s| && s[i].Recording?
  {
    if s == [] then false
    else if s[|s| - 1].Recording? then true
    else
      var rest := AnyTracing(s[..|s| - 1]);
      assert forall i :: 0 <= i < |s| - 1 ==> s[..|s| - 1][i] == s[i];
      rest
  }

  /** `s` with its last element replaced by `st`. */
  function WithTop(s: seq<ThreadState>, st: ThreadState): (r: seq<ThreadState>)
    requires |s| > 0
    ensures |r| == |s| && r[..|r| - 1] == s[..|s| - 1] && r[|r| - 1] == st
  {
    s[..|s| - 1] + [st]
  }

  /** The stack after recording `bytes` as promoted data: only a trace recording keeps them. */
  function WithPromotion(s: seq<ThreadState>, bytes: seq<byte>): (r: seq<ThreadState>)
    requires |s| > 0
    ensures |r| == |s| && r[..|r| - 1] == s[..|s| - 1]
    ensures !s[|s| - 1].Recording? ==> r == s
    ensures s[|s| - 1].Recording? ==>
      r[|r| - 1] == s[|s| - 1].(promotions := s[|s| - 1].promotions + bytes)
  {
    var top := s[|s| - 1];
    if top.Recording? then WithTop(s, top.(promotions := top.promotions + bytes)) else s
  }

  /**
   * What deoptimisation unwinds: the index of the topmost `Executing` entry,
   * provided every entry above it is a trace recording; `None` when an
   * `Interpreting` entry comes first (the source panics there).
   */
  function DeoptTarget(s: seq<ThreadState>): (r: Option<nat>)
    ensures r.Some? ==>
      && r.value < |s| && s[r.value].Executing?
      && forall i :: r.value < i < |s| ==> s[i].Recording?
  {
    if s == [] then None
    else
      var top := s[|s| - 1];
      if top.Executing? then Some(|s| - 1)
      else if top.Interpreting? then None
      else DeoptTarget(s[..|s| - 1])
  }

  /** The hot locations some entry of `s` records a trace for. */
  function Traced(s: seq<ThreadState>): set<HotLocation>
  {
    set i | 0 <= i < |s| && s[i].Recording? :: s[i].hl
  }

  /**
   * The hot locations deoptimisation abandons, in the order it pops them:
   * those of the recordings above entry `t`, topmost first.
   */
  function RecordedAbove(s: seq<ThreadState>, t: nat): (r: seq<HotLocation>)
    requires t < |s| && forall i :: t < i < |s| ==> s[i].Recording?
    ensures |r| == |s| - 1 - t
    ensures forall k :: 0 <= k < |r| ==> r[k] == s[|s| - 1 - k].hl && r[k] in Traced(s)
    decreases |s| - t
  {
    if |s| - 1 == t then []
    else
      var rest := RecordedAbove(s[..|s| - 1], t);
      assert forall k :: 0 <= k < |rest| ==> rest[k] == s[|s| - 2 - k].hl;
      [s[|s| - 1].hl] + rest
  }

  /**
   * Abandoning the traces of `hls` one after another, from the hot-location
   * states `states`: `None` (a panic) as soon as one cannot be abandoned.
   */
  function AbandonAll(hls: seq<HotLocation>, states: map<HotLocation, HotState>, threshold: nat)
    : (r: Option<map<HotLocation, HotState>>)
    requires forall h :: h in hls ==> h in states
    ensures r.Some? ==> r.value.Keys == states.Keys
    ensures r.Some? ==> forall h :: h in states && h !in hls ==> r.value[h] == states[h]
  {
    if hls == [] then Some(states)
    else
      match Abandoned(states[hls[0]], threshold)
      case None => None
      case Some(st) => AbandonAll(hls[1..], states[hls[0] := st], threshold)
  }

  /**
   * Popping one recording above `t`: abandoning everything above `t` is
   * abandoning the popped entry's hot location first, then the rest.
   */
  lemma AbandonAllPop(s: seq<ThreadState>, t: nat, states: map<HotLocation, HotState>, threshold: nat)
    requires t < |s| - 1 && forall i :: t < i < |s| ==> s[i].Recording?
    requires Traced(s) <= states.Keys
    ensures Traced(s[..|s| - 1]) <= Traced(s) && s[|s| - 1].hl in Traced(s)
    ensures AbandonAll(RecordedAbove(s, t), states, threshold) ==
      match Abandoned(states[s[|s| - 1].hl], threshold)
      case None => None
      case Some(st) => AbandonAll(RecordedAbove(s[..|s| - 1], t), states[s[|s| - 1].hl := st], threshold)
  {
    var n := |s| - 1;
    assert RecordedAbove(s, t) == [s[n].hl] + RecordedAbove(s[..n], t);
    forall h | h in Traced(s[..n]) ensures h in Traced(s) {
      var i :| 0 <= i < n && s[..n][i].Recording? && s[..n][i].hl == h;
      assert s[i] == s[..n][i];
    }
    assert ([s[n].hl] + RecordedAbove(s[..n], t))[1..] == RecordedAbove(s[..n], t);
  }

  /** Popping an entry keeps only hot locations already traced. */
  lemma TracedPop(s: seq<ThreadState>)
    requires |s| >= 1
    ensures Traced(s[..|s| - 1]) <= Traced(s)
    ensures s[|s| - 1].Recording? ==> s[|s| - 1].hl in Traced(s)
  {
    var n := |s| - 1;
    forall h | h in Traced(s[..n]) ensures h in Traced(s) {
      var i :| 0 <= i < n && s[..n][i].Recording? && s[..n][i].hl == h;
      assert s[i] == s[..n][i];
    }
  }

  /**
   * Deoptimisation as the source's loop performs it, one popped entry at a
   * time: stop after an `Executing` entry, abandon a recording's trace and
   * go on, and panic (`None`) at an `Interpreting` entry, at the bottom
   * entry, or at a trace that cannot be abandoned. The result is the stack
   * left and the new states of the hot locations.
   */
  function DeoptSpec(s: seq<ThreadState>, states: map<HotLocation, HotState>, threshold: nat)
    : (r: Option<(seq<ThreadState>, map<HotLocation, HotState>)>)
    requires Traced(s) <= states.Keys
    ensures r.Some? ==> r.value.1.Keys == states.Keys && |r.value.0| < |s|
    decreases |s|
  {
    if |s| <= 1 then None
    else
      var n := |s| - 1;
      TracedPop(s);
      match s[n]
      case Interpreting => None
      case Executing(_) => Some((s[..n], states))
      case Recording(hl, _, _, _, _, _) =>
        match Abandoned(states[hl], threshold)
        case None => None
        case Some(st) => DeoptSpec(s[..n], states[hl := st], threshold)
  }

  /**
   * The loop's result, stated without the loop: on a stack whose bottom is
   * `Interpreting`, deoptimisation succeeds iff there is an `Executing`
   * entry with only recordings above it and every one of their traces can
   * be abandoned in turn; it then leaves the stack below that entry and
   * the states abandoning those traces gives.
   */
  lemma {:induction false} DeoptSpecAbandons(s: seq<ThreadState>, states: map<HotLocation, HotState>, threshold: nat)
    requires |s| >= 1 && s[0] == Interpreting && Traced(s) <= states.Keys
    ensures DeoptTarget(s).None? ==> DeoptSpec(s, states, threshold).None?
    ensures DeoptTarget(s).Some? ==>
      var t := DeoptTarget(s).value;
      var after := AbandonAll(RecordedAbove(s, t), states, threshold);
      && (DeoptSpec(s, states, threshold).Some? <==> after.Some?)
      && (after.Some? ==> DeoptSpec(s, states, threshold).value == (s[..t], after.value))
    decreases |s|
  {
    var n := |s| - 1;
    if n > 0 && s[n].Recording? {
      TracedPop(s);
      assert s[..n][0] == s[0];
      assert DeoptTarget(s) == DeoptTarget(s[..n]);
      var hl := s[n].hl;
      if DeoptTarget(s).Some? {
        AbandonAllPop(s, DeoptTarget(s).value, states, threshold);
      }
      match Abandoned(states[hl], threshold)
      case None =>
      case Some(st) =>
        DeoptSpecAbandons(s[..n], states[hl := st], threshold);
        if DeoptTarget(s).Some? {
          assert s[..n][..DeoptTarget(s).value] == s[..DeoptTarget(s).value];
        }
    }
  }

  /**
   * When the abandoned traces belong to distinct hot locations, abandoning
   * them all succeeds iff each one can be abandoned, and each location ends
   * in the state abandoning it alone gives.
   */
  lemma {:induction false} AbandonAllDistinct(hls: seq<HotLocation>, states: map<HotLocation, HotState>, threshold: nat)
    requires forall h :: h in hls ==> h in states
    requires forall i, j :: 0 <= i < j < |hls| ==> hls[i] != hls[j]
    ensures AbandonAll(hls, states, threshold).Some? <==> forall h :: h in hls ==> Abandoned(states[h], threshold).Some?
    ensures AbandonAll(hls, states, threshold).Some? ==>
      forall h :: h in hls ==> AbandonAll(hls, states, threshold).value[h] == Abandoned(states[h], threshold).value
  {
    if hls != [] {
      var h0, rest := hls[0], hls[1..];
      assert forall h :: h in rest ==> h != h0 by {
        forall h | h in rest ensures h != h0 {
          var j :| 0 <= j < |rest| && rest[j] == h;
          assert hls[j + 1] == h;
        }
      }
      assert forall i, j :: 0 <= i < j < |rest| ==> rest[i] != rest[j] by {
        forall i, j | 0 <= i < j < |rest| ensures rest[i] != rest[j] {
          assert rest[i] == hls[i + 1] && rest[j] == hls[j + 1];
        }
      }
      match Abandoned(states[h0], threshold)
      case None =>
      case Some(st) =>
        AbandonAllDistinct(rest, states[h0 := st], threshold);
    }
  }

  /** Abandoning a location that is neither traced nor side-traced anywhere in `hls` panics. */
  lemma {:induction false} AbandonAllStuck(hls: seq<HotLocation>, states: map<HotLocation, HotState>, threshold: nat, h: HotLocation)
    requires forall g :: g in hls ==> g in states
    requires h in hls && Abandoned(states[h], threshold).None?
    ensures AbandonAll(hls, states, threshold).None?
  {
    if hls[0] != h {
      match Abandoned(states[hls[0]], threshold)
      case None =>
      case Some(st) =>
        AbandonAllStuck(hls[1..], states[hls[0] := st], threshold, h);
    }
  }

  /**
   * A hot location whose trace is recorded twice above the executing trace
   * cannot be abandoned the second time: deoptimisation panics.
   */
  lemma {:induction false} AbandonTwiceFails(hls: seq<HotLocation>, states: map<HotLocation, HotState>, threshold: nat, i: nat, j: nat)
    requires forall g :: g in hls ==> g in states
    requires i < j < |hls| && hls[i] == hls[j]
    ensures AbandonAll(hls, states, threshold).None?
  {
    match Abandoned(states[hls[0]], threshold)
    case None =>
    case Some(st) =>
      if i == 0 {
        assert hls[1..][j - 1] == hls[0];
        AbandonAllStuck(hls[1..], states[hls[0] := st], threshold, hls[0]);
      } else {
        AbandonTwiceFails(hls[1..], states[hls[0] := st], threshold, i - 1, j - 1);
      }
  }

  class MTThread {
    /** The stack of what this thread is doing; the bottom is always `Interpreting`. */
    var tstate: seq<ThreadState>

    predicate Valid()
      reads this
    {
      |tstate| >= 1 && tstate[0] == Interpreting
    }

    constructor ()
      ensures Valid() && tstate == [Interpreting]
    {
      tstate := [Interpreting];
    }

    function IsTracing(): bool
      reads this
    {
      AnyTracing(tstate)
    }

    function Top(): ThreadState
      reads this
      requires |tstate| > 0
    {
      tstate[|tstate| - 1]
    }

    /** Whether some entry of this thread records a trace ending at `hl`. */
    predicate Traces(hl: HotLocation)
      reads this
    {
      exists i :: 0 <= i < |tstate| && tstate[i].Recording? && tstate[i].hl == hl
    }

    function View(hl: HotLocation): ThreadView
      reads this
      requires Valid()
    {
      if !IsTracing() then Idle
      else if !Top().Recording? then Nested
      else if Top().hl == hl then TracingThis
      else TracingOther
    }

    /** The hot location the top entry records a trace for, if any. */
    function TopTraced(): set<HotLocation>
      reads this
      requires Valid()
    {
      if Top().Recording? then {Top().hl} else {}
    }

    /** Every hot location some entry records a trace for. */
    function AllTraced(): set<HotLocation>
      reads this
    {
      Traced(tstate)
    }

    /** The states of the hot locations this thread records traces for. */
    function TracedStates(): map<HotLocation, HotState>
      reads this, AllTraced()
    {
      map h | h in AllTraced() :: h.State()
    }

    /** `inc_cp_idx`: one more control point seen by the trace being recorded. */
    method IncCpIdx()
      requires Valid()
      modifies this
      ensures Valid()
      ensures old(Top()).Recording? ==> tstate == WithTop(old(tstate), old(Top()).(cpIdx := old(Top()).cpIdx + 1))
      ensures !old(Top()).Recording? ==> tstate == old(tstate)
    {
      var top := Top();
      if top.Recording? {
        tstate := WithTop(tstate, top.(cpIdx := top.cpIdx + 1));
      }
    }

    /** `pop_tstate`: the bottom entry is never popped. */
    method PopTstate() returns (st: ThreadState)
      requires Valid() && |tstate| > 1
      modifies this
      ensures Valid()
      ensures st == old(Top()) && tstate == old(tstate[..|tstate| - 1])
    {
      st := Top();
      tstate := tstate[..|tstate| - 1];
    }

    method PushTstate(st: ThreadState)
      requires Valid()
      modifies this
      ensures Valid()
      ensures tstate == old(tstate) + [st]
    {
      tstate := tstate + [st];
    }

    method Promote(bytes: seq<byte>) returns (ok: bool)
      requires Valid()
      modifies this
      ensures Valid() && ok
      ensures tstate == WithPromotion(old(tstate), bytes)
    {
      tstate := WithPromotion(tstate, bytes);
      ok := true;
    }

    /** `promote_i32`: record the value's bytes if a trace is being recorded; always succeeds. */
    method PromoteI32(v: int) returns (ok: bool)
      requires Valid() && -0x8000_0000 <= v < 0x8000_0000
      modifies this
      ensures Valid() && ok
      ensures tstate == WithPromotion(old(tstate), I32Bytes(v))
    {
      ok := Promote(I32Bytes(v));
    }

    /** `promote_u32`. */
    method PromoteU32(v: nat) returns (ok: bool)
      requires Valid() && v < TWO_32
      modifies this
      ensures Valid() && ok
      ensures tstate == WithPromotion(old(tstate), LeBytes(v, 4))
    {
      ok := Promote(LeBytes(v, 4));
    }

    /** `promote_i64`. */
    method PromoteI64(v: int) returns (ok: bool)
      requires Valid() && -0x8000_0000_0000_0000 <= v < 0x8000_0000_0000_0000
      modifies this
      ensures Valid() && ok
      ensures tstate == WithPromotion(old(tstate), I64Bytes(v))
    {
      ok := Promote(I64Bytes(v));
    }

    /** `promote_usize` (64-bit). */
    method PromoteUsize(v: nat) returns (ok: bool)
      requires Valid() && v < TWO_64
      modifies this
      ensures Valid() && ok
      ensures tstate == WithPromotion(old(tstate), LeBytes(v, 8))
    {
      ok := Promote(LeBytes(v, 8));
    }

    /** `insert_debug_str`: only a trace recording keeps the string; always succeeds. */
    method InsertDebugStr(msg: string) returns (ok: bool)
      requires Valid()
      modifies this
      ensures Valid() && ok
      ensures old(Top()).Recording? ==>
        tstate == WithTop(old(tstate), old(Top()).(debugStrs := old(Top()).debugStrs + [msg]))
      ensures !old(Top()).Recording? ==> tstate == old(tstate)
    {
      var top := Top();
      if top.Recording? {
        tstate := WithTop(tstate, top.(debugStrs := top.debugStrs + [msg]));
      }
      ok := true;
    }
  }

  // ---------------------------------------------------------------------------
  // The meta-tracer.

  /** The inner-loop check a control-point visit to `hl` performs; `None` when the top entry records no trace. */
  function InnerLoopCheck(hl: HotLocation, mtt: MTThread, frameaddr: nat): Option<InnerLoopVerdict>
    reads hl, mtt
    requires mtt.Valid()
  {
    if !mtt.IsTracing() || !mtt.Top().Recording? then None
    else
      var top := mtt.Top();
      var seenAt := if hl in top.seenHls then Some(top.seenHls[hl]) else None;
      Some(InnerLoopVerdictChecked(frameaddr == top.frameaddr, seenAt, hl.kind.Counting?))
  }

  /** The result of starting a trace recorder (recorders are outside the model). */
  datatype RecorderStart = Started | TemporaryFailure | OtherFailure

  class MT {
    var hotThreshold: nat
    var sidetraceThreshold: nat
    var traceFailureThreshold: nat
    /** The next compiled-trace identifier to hand out (an `AtomicU64`). */
    var compiledTraceId: nat

    predicate Valid()
      reads this
    {
      hotThreshold <= U32_MAX && sidetraceThreshold <= U32_MAX
      && 1 <= traceFailureThreshold <= U16_MAX && compiledTraceId <= U64_MAX
    }

    /** `MT::new`; `envHotThreshold` is the parsed `YK_HOT_THRESHOLD`, if set. */
    constructor (envHotThreshold: Option<nat>)
      requires envHotThreshold.Some? ==> envHotThreshold.value <= U32_MAX
      ensures Valid()
      ensures hotThreshold == (if envHotThreshold.Some? then envHotThreshold.value else DEFAULT_HOT_THRESHOLD)
      ensures sidetraceThreshold == DEFAULT_SIDETRACE_THRESHOLD
      ensures traceFailureThreshold == DEFAULT_TRACECOMPILATION_ERROR_THRESHOLD
      ensures compiledTraceId == 0
    {
      hotThreshold := if envHotThreshold.Some? then envHotThreshold.value else DEFAULT_HOT_THRESHOLD;
      sidetraceThreshold := DEFAULT_SIDETRACE_THRESHOLD;
      traceFailureThreshold := DEFAULT_TRACECOMPILATION_ERROR_THRESHOLD;
      compiledTraceId := 0;
    }

    method SetHotThreshold(t: nat)
      requires Valid() && t <= U32_MAX
      modifies this
      ensures Valid() && hotThreshold == t
      ensures sidetraceThreshold == old(sidetraceThreshold) && traceFailureThreshold == old(traceFailureThreshold)
      ensures compiledTraceId == old(compiledTraceId)
    {
      hotThreshold := t;
    }

    method SetSidetraceThreshold(t: nat)
      requires Valid() && t <= U32_MAX
      modifies this
      ensures Valid() && sidetraceThreshold == t
      ensures hotThreshold == old(hotThreshold) && traceFailureThreshold == old(traceFailureThreshold)
      ensures compiledTraceId == old(compiledTraceId)
    {
      sidetraceThreshold := t;
    }

    /** `set_trace_failure_threshold`: a threshold of 0 is refused with a panic. */
    method SetTraceFailureThreshold(t: nat) returns (panicked: bool)
      requires Valid() && t <= U16_MAX
      modifies this
      ensures Valid()
      ensures panicked <==> t < 1
      ensures traceFailureThreshold == (if panicked then old(traceFailureThreshold) else t)
      ensures hotThreshold == old(hotThreshold) && sidetraceThreshold == old(sidetraceThreshold)
      ensures compiledTraceId == old(compiledTraceId)
    {
      if t < 1 {
        return true;
      }
      traceFailureThreshold := t;
      panicked := false;
    }

    /**
     * `next_compiled_trace_id`: a wrapping fetch-and-add; handing out the
     * last value, `u64::MAX`, panics instead.
     */
    method NextCompiledTraceId() returns (r: Option<TraceId>)
      requires Valid()
      modifies this
      ensures Valid()
      ensures compiledTraceId == (old(compiledTraceId) + 1) % TWO_64
      ensures r.None? <==> old(compiledTraceId) == U64_MAX
      ensures r.Some? ==> r.value == old(compiledTraceId) && r.value < compiledTraceId
      ensures hotThreshold == old(hotThreshold) && sidetraceThreshold == old(sidetraceThreshold)
      ensures traceFailureThreshold == old(traceFailureThreshold)
    {
      var id := compiledTraceId;
      compiledTraceId := (compiledTraceId + 1) % TWO_64;
      if id == U64_MAX {
        return None;
      }
      r := Some(id);
    }

    /**
     * What a finished root compile job does to its location: `Some(ctr)` is
     * a successful compilation, `None` a compile error.
     */
    method RootCompileOutcome(hl: HotLocation, outcome: Option<TraceId>)
      requires Valid() && hl.kind == Compiling
      modifies hl
      ensures hl.State() == RootCompileStep(old(hl.State()), outcome, traceFailureThreshold)
    {
      match outcome
      case Some(ctr) =>
        hl.kind := Compiled(ctr);
      case None =>
        var verdict := hl.TracecompilationError(traceFailureThreshold);
        if verdict == GiveUp {
          hl.kind := DontTrace;
        } else {
          hl.kind := Counting(0);
        }
    }

    /** The kind-driven part of a control-point visit to a hot location (mt.rs:728-828). */
    method HotTransition(hl: HotLocation, mtt: MTThread, orphaned: bool) returns (r: Option<ControlPointAction>)
      requires Valid() && mtt.Valid()
      modifies hl
      ensures var out := HotStep(old(hl.State()), mtt.View(hl), orphaned, hotThreshold, traceFailureThreshold);
        (out.None? ==> r.None? && hl.State() == old(hl.State()))
        && (out.Some? ==> r == Some(out.value.1) && hl.State() == out.value.0)
    {
      var view := mtt.View(hl);
      match hl.kind
      case Compiled(ctr) =>
        if view == Idle {
          r := Some(Execute(ctr));
        } else {
          r := Some(AbortTracing(EncounteredCompiledTrace));
        }
      case Compiling =>
        r := Some(NoAction);
      case Counting(c) =>
        if view != Idle {
          r := Some(NoAction);
        } else if c < hotThreshold {
          hl.kind := Counting(c + 1);
          r := Some(NoAction);
        } else {
          hl.kind := Tracing;
          r := Some(StartTracing);
        }
      case Tracing =>
        if view == TracingThis {
          hl.kind := Compiling;
          r := Some(StopTracing(0));
        } else if view == TracingOther || !orphaned {
          r := Some(NoAction);
        } else {
          var verdict := hl.TracecompilationError(traceFailureThreshold);
          if verdict == KeepTrying {
            hl.kind := Tracing;
            r := Some(StartTracing);
          } else {
            hl.kind := DontTrace;
            r := Some(NoAction);
          }
        }
      case SideTracing(root, gidx, parent) =>
        if view == TracingThis {
          hl.kind := Compiled(root);
          r := Some(StopSideTracing(gidx, parent, root));
        } else if view == TracingOther {
          r := Some(NoAction);
        } else if view == Nested {
          r := None;
        } else {
          r := Some(Execute(root));
        }
      case DontTrace =>
        r := Some(NoAction);
    }

    /** A control-point visit to a location that is not hot yet (mt.rs:830-874). */
    method ColdTransition(loc: Location, mtt: MTThread, frameaddr: nat) returns (r: Option<ControlPointAction>)
      requires Valid() && mtt.Valid() && loc.hl == null
      modifies loc, mtt
      ensures mtt.Valid() && loc.count == old(loc.count) + 1
      ensures !old(mtt.IsTracing()) ==>
        && mtt.tstate == old(mtt.tstate)
        && (hotThreshold >= U32_MAX ==> r.None? && loc.hl == null)
        && (hotThreshold < U32_MAX && !ColdStep(old(loc.count), hotThreshold).1 ==>
              r == Some(NoAction) && loc.hl == null)
        && (hotThreshold < U32_MAX && ColdStep(old(loc.count), hotThreshold).1 ==>
              r == Some(StartTracing) && loc.hl != null && fresh(loc.hl) && loc.hl.State() == HotState(Tracing, 0))
      ensures old(mtt.IsTracing()) ==>
        && loc.hl != null && fresh(loc.hl) && loc.hl.State() == HotState(Counting(loc.count), 0)
        && (!old(mtt.Top()).Recording? ==> r.None? && mtt.tstate == old(mtt.tstate))
        && (old(mtt.Top()).Recording? && frameaddr != old(mtt.Top()).frameaddr ==>
              r == Some(AbortTracing(OutOfFrame)) && mtt.tstate == old(mtt.tstate))
        && (old(mtt.Top()).Recording? && frameaddr == old(mtt.Top()).frameaddr ==>
              r == Some(NoAction)
              && mtt.tstate == WithTop(old(mtt.tstate),
                   old(mtt.Top()).(seenHls := old(mtt.Top()).seenHls[loc.hl := old(mtt.Top()).cpIdx])))
    {
      var isTracing := mtt.IsTracing();
      loc.count := loc.count + 1;
      if isTracing {
        var hl := new HotLocation(Counting(loc.count));
        loc.hl := hl;
        var top := mtt.Top();
        if !top.Recording? {
          return None;
        }
        if frameaddr != top.frameaddr {
          return Some(AbortTracing(OutOfFrame));
        }
        // A freshly made hot location cannot have been seen by this trace.
        mtt.tstate := WithTop(mtt.tstate, top.(seenHls := top.seenHls[hl := top.cpIdx]));
        return Some(NoAction);
      }
      if hotThreshold >= U32_MAX {
        return None;
      }
      if loc.count < hotThreshold + 1 {
        r := Some(NoAction);
      } else {
        var hl := new HotLocation(Tracing);
        loc.hl := hl;
        r := Some(StartTracing);
      }
    }

    /**
     * `transition_control_point`: the next step of `loc`'s state machine
     * when the interpreter reaches its control point. `None` is a panic.
     */
    method TransitionControlPoint(loc: Location, mtt: MTThread, frameaddr: nat, orphaned: bool)
      returns (r: Option<ControlPointAction>)
      requires Valid() && mtt.Valid()
      requires orphaned ==> loc.hl != null && !mtt.Traces(loc.hl)
      modifies loc, loc.hl, mtt, mtt.TopTraced()
      ensures mtt.Valid() && |mtt.tstate| == |old(mtt.tstate)|
      ensures mtt.tstate[..|mtt.tstate| - 1] == old(mtt.tstate[..|mtt.tstate| - 1])
      ensures mtt.Top().Recording? <==> old(mtt.Top()).Recording?
      ensures old(mtt.Top()).Recording? ==> mtt.Top().frameaddr == old(mtt.Top()).frameaddr
      ensures old(loc.hl) != null ==> loc.hl == old(loc.hl) && loc.count == old(loc.count)
      ensures old(loc.hl) == null ==> loc.count == old(loc.count) + 1 && (loc.hl != null ==> fresh(loc.hl))
      ensures old(loc.hl) == null && !old(mtt.IsTracing()) && hotThreshold < U32_MAX ==>
        && (ColdStep(old(loc.count), hotThreshold).1 ==> r == Some(StartTracing) && loc.hl != null)
        && (!ColdStep(old(loc.count), hotThreshold).1 ==> r == Some(NoAction) && loc.hl == null)
      // What each action says about the thread.
      ensures r.Some? && (r.value.Execute? || r.value == StartTracing) ==>
        !old(mtt.Top()).Recording? && mtt.tstate == old(mtt.tstate)
      ensures r.Some? && r.value.Execute? ==> !old(mtt.IsTracing())
      ensures r.Some? && r.value.AbortTracing? ==> old(mtt.IsTracing())
      ensures r.Some? && (r.value.StopTracing? || r.value.StopSideTracing?) ==>
        mtt.Top().Recording? && mtt.Top().hl == loc.hl && mtt.Top().frameaddr == frameaddr
      ensures r == Some(StartTracing) ==> loc.hl != null && loc.hl.kind == Tracing
      // Panics happen only where the source panics.
      ensures r.None? ==>
        || (old(mtt.IsTracing()) && !old(mtt.Top()).Recording?)
        || (old(mtt.Top()).Recording? && old(Abandoned(mtt.Top().hl.State(), traceFailureThreshold)).None?)
        || (old(loc.hl) == null && hotThreshold >= U32_MAX)
      // A hot location that passes the inner-loop check takes one `HotStep`.
      ensures old(loc.hl) != null && old(InnerLoopCheck(loc.hl, mtt, frameaddr)) in {None, Some(KeepTracing)} ==>
        var out := HotStep(old(loc.hl.State()), old(mtt.View(loc.hl)), orphaned, hotThreshold, traceFailureThreshold);
        (out.None? ==> r.None?) && (out.Some? ==> r == Some(out.value.1) && loc.hl.State() == out.value.0)
      ensures old(loc.hl) != null && old(InnerLoopCheck(loc.hl, mtt, frameaddr)) == Some(KeepTracing) ==>
        mtt.tstate == WithTop(old(mtt.tstate),
          old(mtt.Top()).(seenHls := old(mtt.Top()).seenHls[loc.hl := old(mtt.Top()).cpIdx]))
      // An inner loop that is still counting becomes the trace's end.
      ensures (old(loc.hl) != null && old(InnerLoopCheck(loc.hl, mtt, frameaddr)).Some?
               && old(InnerLoopCheck(loc.hl, mtt, frameaddr)).value.SwitchToInnerLoop?) ==>
        && r == Some(StopTracing(old(InnerLoopCheck(loc.hl, mtt, frameaddr)).value.startCpIdx))
        && loc.hl.kind == Compiling
        && (old(mtt.Top()).hl != loc.hl ==> old(mtt.Top()).hl.kind == Counting(0))
        && mtt.tstate == WithTop(old(mtt.tstate), old(mtt.Top()).(hl := loc.hl))
      // Otherwise the trace is abandoned.
      ensures (old(loc.hl) != null && old(InnerLoopCheck(loc.hl, mtt, frameaddr)).Some?
               && old(InnerLoopCheck(loc.hl, mtt, frameaddr)).value.AbortTrace?) ==>
        var traced := old(mtt.Top()).hl;
        var ab := Abandoned(old(traced.State()), traceFailureThreshold);
        (ab.None? ==> r.None?)
        && (ab.Some? ==> r == Some(AbortTracing(old(InnerLoopCheck(loc.hl, mtt, frameaddr)).value.why))
                         && traced.State() == ab.value)
    {
      if loc.hl == null {
        r := ColdTransition(loc, mtt, frameaddr);
        return;
      }
      var hl := loc.hl;
      var check := InnerLoopCheck(hl, mtt, frameaddr);
      if check.Some? {
        var top := mtt.Top();
        match check.value
        case SwitchToInnerLoop(idx) =>
          top.hl.kind := Counting(0);
          hl.kind := Compiling;
          mtt.tstate := WithTop(mtt.tstate, top.(hl := hl));
          return Some(StopTracing(idx));
        case AbortTrace(why) =>
          if hl !in top.seenHls {
            mtt.tstate := WithTop(mtt.tstate, top.(seenHls := top.seenHls[hl := top.cpIdx]));
          }
          var ok := top.hl.Abandon(traceFailureThreshold);
          if !ok {
            return None;
          }
          return Some(AbortTracing(why));
        case KeepTracing =>
          mtt.tstate := WithTop(mtt.tstate, top.(seenHls := top.seenHls[hl := top.cpIdx]));
      }
      r := HotTransition(hl, mtt, orphaned);
    }

    /**
     * `control_point`: take the transition's action. Stopping or aborting a
     * trace pops its recording, executing pushes an `Executing` entry and
     * starting a trace pushes a fresh recording. A recorder that fails
     * temporarily counts a failure and marks the location `DontTrace`. `None`
     * is a panic. A stopped trace always ends in the frame it started in, so
     * the source's frame-address assertion holds.
     */
    method ControlPoint(loc: Location, mtt: MTThread, frameaddr: nat, orphaned: bool, recorder: RecorderStart)
      returns (r: Option<ControlPointAction>)
      requires Valid() && mtt.Valid()
      requires orphaned ==> loc.hl != null && !mtt.Traces(loc.hl)
      modifies loc, loc.hl, mtt, mtt.TopTraced()
      ensures mtt.Valid()
      ensures r.None? ==>
        || (old(mtt.IsTracing()) && !old(mtt.Top()).Recording?)
        || (old(mtt.Top()).Recording? && old(Abandoned(mtt.Top().hl.State(), traceFailureThreshold)).None?)
        || (old(loc.hl) == null && hotThreshold >= U32_MAX)
        || recorder == OtherFailure
      ensures r == Some(NoAction) ==> |mtt.tstate| == |old(mtt.tstate)|
      ensures r.Some? && (r.value.AbortTracing? || r.value.StopTracing? || r.value.StopSideTracing?) ==>
        mtt.tstate == old(mtt.tstate)[..|old(mtt.tstate)| - 1]
      ensures r.Some? && r.value.Execute? ==> mtt.tstate == old(mtt.tstate) + [Executing(r.value.ctr)]
      ensures r == Some(StartTracing) ==> loc.hl != null
      ensures r == Some(StartTracing) && recorder == Started ==>
        mtt.tstate == old(mtt.tstate) + [Recording(loc.hl, [], [], frameaddr, map[], 0)]
      ensures r == Some(StartTracing) && recorder == TemporaryFailure ==>
        mtt.tstate == old(mtt.tstate) && loc.hl.kind == DontTrace
      ensures r.Some? && (r.value.StopTracing? || r.value.StopSideTracing?) ==>
        old(mtt.Top()).Recording? && old(mtt.Top()).frameaddr == frameaddr
      // A cold location counts the visit, and becomes hot (and traced) at the threshold.
      ensures old(loc.hl) == null ==> loc.count == old(loc.count) + 1
      ensures old(loc.hl) != null ==> loc.hl == old(loc.hl) && loc.count == old(loc.count)
      ensures old(loc.hl) == null && !old(mtt.IsTracing()) && hotThreshold < U32_MAX ==>
        && (ColdStep(old(loc.count), hotThreshold).1 <==> loc.hl != null)
        && (!ColdStep(old(loc.count), hotThreshold).1 ==> r == Some(NoAction))
        && (ColdStep(old(loc.count), hotThreshold).1 && recorder != OtherFailure ==> r == Some(StartTracing))
      // A hot location that passes the inner-loop check takes one `HotStep`.
      ensures old(loc.hl) != null && old(InnerLoopCheck(loc.hl, mtt, frameaddr)) in {None, Some(KeepTracing)} ==>
        var out := HotStep(old(loc.hl.State()), old(mtt.View(loc.hl)), orphaned, hotThreshold, traceFailureThreshold);
        && (out.None? ==> r.None?)
        && (out.Some? && r.Some? ==> r == Some(out.value.1))
        && (out.Some? && r.Some? && !(out.value.1 == StartTracing && recorder == TemporaryFailure) ==>
              loc.hl.State() == out.value.0)
        && (out.Some? && r.Some? && out.value.1 == StartTracing && recorder == TemporaryFailure ==>
              loc.hl.State() == HotState(DontTrace, out.value.0.errors + 1))
      // An inner loop that is still counting ends the trace; otherwise the trace is abandoned.
      ensures (old(loc.hl) != null && old(InnerLoopCheck(loc.hl, mtt, frameaddr)).Some?
               && old(InnerLoopCheck(loc.hl, mtt, frameaddr)).value.SwitchToInnerLoop?) ==>
        && r == Some(StopTracing(old(InnerLoopCheck(loc.hl, mtt, frameaddr)).value.startCpIdx))
        && loc.hl.kind == Compiling
      ensures (old(loc.hl) != null && old(InnerLoopCheck(loc.hl, mtt, frameaddr)).Some?
               && old(InnerLoopCheck(loc.hl, mtt, frameaddr)).value.AbortTrace?) ==>
        var traced := old(mtt.Top()).hl;
        var ab := Abandoned(old(traced.State()), traceFailureThreshold);
        (ab.None? ==> r.None?)
        && (ab.Some? ==> r == Some(AbortTracing(old(InnerLoopCheck(loc.hl, mtt, frameaddr)).value.why))
                         && traced.State() == ab.value)
    {
      r := TransitionControlPoint(loc, mtt, frameaddr, orphaned);
      if r.None? {
        return;
      }
      match r.value
      case NoAction =>
      case AbortTracing(_) =>
        if |mtt.tstate| == 1 || !mtt.Top().Recording? {
          // The source pops and then finds no recording: `unreachable!()`.
          return None;
        }
        var _ := mtt.PopTstate();
      case Execute(ctr) =>
        mtt.PushTstate(Executing(ctr));
      case StartTracing =>
        var hl := loc.hl;
        match recorder {
          case Started =>
            mtt.PushTstate(Recording(hl, [], [], frameaddr, map[], 0));
          case TemporaryFailure =>
            var _ := hl.TracecompilationError(traceFailureThreshold);
            hl.kind := DontTrace;
          case OtherFailure =>
            return None;
        }
      case StopTracing(_) =>
        var rec := mtt.PopTstate();
        assert rec.Recording? && rec.frameaddr == frameaddr;
      case StopSideTracing(_, _, _) =>
        var rec := mtt.PopTstate();
        assert rec.Recording? && rec.frameaddr == frameaddr;
    }

    /**
     * `transition_guard_failure`: `incFailed` is the guard's own verdict that
     * it has failed often enough, `parentHl` the parent trace's location if
     * it still exists. `None` is a (debug) panic: the thread must not be
     * tracing.
     */
    method TransitionGuardFailure(mtt: MTThread, parentHl: HotLocation?, incFailed: bool, gidx: nat, parent: TraceId)
      returns (r: Option<GuardFailureAction>)
      requires mtt.Valid()
      modifies parentHl
      ensures !incFailed || parentHl == null ==> r == Some(NoSideTrace)
      ensures incFailed && parentHl != null && old(mtt.IsTracing()) ==>
        r.None? && parentHl.kind == old(parentHl.kind)
      ensures incFailed && parentHl != null && !old(mtt.IsTracing()) ==>
        var g := GuardFailureStep(old(parentHl.kind), gidx, parent);
        r == Some(g.1) && parentHl.kind == g.0
      ensures parentHl != null ==> parentHl.errors == old(parentHl.errors)
    {
      if !incFailed || parentHl == null {
        return Some(NoSideTrace);
      }
      if mtt.IsTracing() {
        return None;
      }
      match parentHl.kind
      case Compiled(root) =>
        parentHl.kind := SideTracing(root, gidx, parent);
        r := Some(StartSideTracing);
      case _ =>
        r := Some(NoSideTrace);
    }

    /** `guard_failure`: start recording a side trace if the transition asks for one. */
    method GuardFailure(mtt: MTThread, parentHl: HotLocation?, incFailed: bool, gidx: nat, parent: TraceId,
                        frameaddr: nat, recorderStarts: bool)
      returns (r: Option<GuardFailureAction>)
      requires mtt.Valid()
      modifies mtt, parentHl
      ensures mtt.Valid()
      ensures r == Some(NoSideTrace) ==> mtt.tstate == old(mtt.tstate)
      ensures r == Some(StartSideTracing) ==>
        && parentHl != null && old(parentHl.kind).Compiled?
        && parentHl.kind == SideTracing(old(parentHl.kind).ctr, gidx, parent)
        && mtt.tstate == old(mtt.tstate) + [Recording(parentHl, [], [], frameaddr, map[], 0)]
      ensures r.None? ==> (incFailed && parentHl != null && old(mtt.IsTracing())) || !recorderStarts
    {
      r := TransitionGuardFailure(mtt, parentHl, incFailed, gidx, parent);
      if r == Some(StartSideTracing) {
        if !recorderStarts {
          return None;
        }
        mtt.PushTstate(Recording(parentHl, [], [], frameaddr, map[], 0));
      }
    }

    /**
     * `deopt`: unwind the thread's stack down to and including the entry of
     * the trace being executed, abandoning every trace recording above it.
     * `false` is a panic (an `Interpreting` entry, or a recorded location in
     * a state that cannot be abandoned, comes first).
     */
    method Deopt(mtt: MTThread) returns (ok: bool)
      requires Valid() && mtt.Valid()
      modifies mtt, mtt.AllTraced()
      ensures mtt.Valid()
      ensures DeoptTarget(old(mtt.tstate)).None? ==> !ok
      ensures DeoptTarget(old(mtt.tstate)).Some? ==>
        var t := DeoptTarget(old(mtt.tstate)).value;
        var after := AbandonAll(RecordedAbove(old(mtt.tstate), t), old(mtt.TracedStates()), traceFailureThreshold);
        && (ok <==> after.Some?)
        && (ok ==> mtt.tstate == old(mtt.tstate)[..t])
        && (ok ==> forall h :: h in old(mtt.AllTraced()) ==> h.State() == after.value[h])
    {
      ghost var orig := mtt.tstate;
      ghost var traced := mtt.AllTraced();
      ghost var start := mtt.TracedStates();
      ghost var cur := start;
      DeoptSpecAbandons(orig, start, traceFailureThreshold);
      while true
        invariant mtt.Valid() && Traced(mtt.tstate) <= traced == cur.Keys
        invariant forall h :: h in traced ==> h.State() == cur[h]
        invariant DeoptSpec(mtt.tstate, cur, traceFailureThreshold) == DeoptSpec(orig, start, traceFailureThreshold)
        decreases |mtt.tstate|
      {
        if |mtt.tstate| == 1 {
          // Popping the bottom entry fails `pop_tstate`'s assertion.
          return false;
        }
        TracedPop(mtt.tstate);
        var verdict;
        verdict, cur := DeoptPop(mtt, traced, cur);
        if verdict.Some? {
          return verdict.value;
        }
      }
    }

    /**
     * One entry popped by deoptimisation: `Some(true)` at an `Executing`
     * entry; `Some(false)` where the source panics, at an `Interpreting`
     * entry or a trace that cannot be abandoned; `None` once a recording's
     * trace is abandoned. `cur` holds the states of the hot locations of
     * `traced`, and `next` holds them afterwards.
     */
    method DeoptPop(mtt: MTThread, ghost traced: set<HotLocation>, ghost cur: map<HotLocation, HotState>)
      returns (verdict: Option<bool>, ghost next: map<HotLocation, HotState>)
      requires mtt.Valid() && |mtt.tstate| >= 2 && Traced(mtt.tstate) <= traced == cur.Keys
      requires forall h :: h in traced ==> h.State() == cur[h]
      requires mtt.Top().Recording? ==> mtt.Top().hl in traced
      modifies mtt, traced
      ensures mtt.Valid() && mtt.tstate == old(mtt.tstate)[..|old(mtt.tstate)| - 1]
      ensures Traced(mtt.tstate) <= traced == next.Keys
      ensures forall h :: h in traced ==> h.State() == next[h]
      ensures old(mtt.Top()).Interpreting? ==> verdict == Some(false)
      ensures verdict == Some(true) <==> old(mtt.Top()).Executing?
      ensures old(mtt.Top()).Recording? ==>
        var a := Abandoned(cur[old(mtt.Top()).hl], traceFailureThreshold);
        && (verdict.None? <==> a.Some?)
        && (verdict.Some? ==> verdict == Some(false))
        && (a.Some? ==> next == cur[old(mtt.Top()).hl := a.value])
      ensures verdict.None? ==>
        DeoptSpec(mtt.tstate, next, traceFailureThreshold) == DeoptSpec(old(mtt.tstate), cur, traceFailureThreshold)
      ensures verdict.Some? ==>
        && (verdict.value <==> DeoptSpec(old(mtt.tstate), cur, traceFailureThreshold).Some?)
        && (verdict.value ==> DeoptSpec(old(mtt.tstate), cur, traceFailureThreshold) == Some((mtt.tstate, next)))
    {
      ghost var before := mtt.tstate;
      next := cur;
      var st := mtt.PopTstate();
      assert before == mtt.tstate + [st] && mtt.tstate == before[..|before| - 1];
      assert Traced(mtt.tstate) <= Traced(before);
      match st
      case Interpreting =>
        verdict := Some(false);
      case Recording(hl, _, _, _, _, _) =>
        var abandoned := hl.Abandon(traceFailureThreshold);
        if !abandoned {
          return Some(false), next;
        }
        next := cur[hl := hl.State()];
        verdict := None;
      case Executing(_) =>
        verdict := Some(true);
    }
  }
}
