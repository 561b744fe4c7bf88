/**
 * The state of the Yk Intel PT trace decoder (hwtracer/src/pt/ykpt/mod.rs):
 * the bounded compressed-return stack, the FIFO of taken/not-taken (TNT)
 * decisions, the current location, and the packet-driven updates of that
 * state. Return compression follows section 33.4.2.2 and PSB+ handling
 * section 33.3.7 of the Intel 64 and IA-32 Architectures Software
 * Developer's Manual, Volume 3.
 *
 * The packet parser is not part of this model: the decoder reads an already
 * parsed sequence of packets. Whether a virtual address lies in the main
 * executable object is an oracle given when the decoder is built.
 */
module PtDecoder {
  import opened Wrappers
  import opened Blocks

  /** How many compressed returns the hardware keeps track of. */
  const PT_MAX_COMPRETS: nat := 64

  /** A return address on the compressed return stack. */
  datatype CompRetAddr = VAddr(vaddr: nat) | AfterCall(callsite: nat)

  /** Where the decoder is in the traced binary. */
  datatype ObjLoc = MainObj(mainVaddr: nat) | OtherObjOrUnknown(vaddr: Option<nat>)

  /** `ObjLoc::vaddr`: the address of a location; `None` where the source panics (address unknown). */
  function ObjLocVAddr(l: ObjLoc): (r: Option<nat>)
    ensures r.None? <==> l == OtherObjOrUnknown(None)
    ensures l.MainObj? ==> r == Some(l.mainVaddr)
    ensures l.OtherObjOrUnknown? ==> r == l.vaddr
  {
    match l
    case MainObj(v) => Some(v)
    case OtherObjOrUnknown(v) => v
  }

  // ---------------------------------------------------------------------------
  // The compressed return stack.

  /** The stack after pushing `ret`: when full, the oldest entry (the front) is evicted. */
  function Pushed(rets: seq<CompRetAddr>, ret: CompRetAddr): (r: seq<CompRetAddr>)
    requires |rets| <= PT_MAX_COMPRETS
    ensures |r| <= PT_MAX_COMPRETS && |r| > 0 && r[|r| - 1] == ret
    ensures |rets| < PT_MAX_COMPRETS ==> r == rets + [ret]
    ensures |rets| == PT_MAX_COMPRETS ==> |r| == PT_MAX_COMPRETS && r[..|r| - 1] == rets[1..]
  {
    if |rets| == PT_MAX_COMPRETS then rets[1..] + [ret] else rets + [ret]
  }

  /** The last `n` elements of `s` (all of `s` when it is shorter). */
  function LastN<T>(s: seq<T>, n: nat): (r: seq<T>)
    ensures |r| <= n && |r| <= |s|
  {
    if |s| <= n then s else s[|s| - n..]
  }

  /** Dropping the front of a sequence longer than `n` keeps its last `n` elements. */
  lemma LastNTail<T>(s: seq<T>, n: nat)
    requires |s| > n
    ensures LastN(s[1..], n) == LastN(s, n)
  {
    assert s[1..][|s| - 1 - n..] == s[|s| - n..];
  }

  /** The stack after pushing every element of `xs` in turn. */
  function PushedAll(rets: seq<CompRetAddr>, xs: seq<CompRetAddr>): (r: seq<CompRetAddr>)
    requires |rets| <= PT_MAX_COMPRETS
    ensures |r| <= PT_MAX_COMPRETS
    decreases |xs|
  {
    if xs == [] then rets else PushedAll(Pushed(rets, xs[0]), xs[1..])
  }

  /**
   * However many returns are pushed, the stack holds exactly the most recent
   * 64 of everything pushed, oldest first.
   */
  lemma {:induction false} PushedAllKeepsNewest(rets: seq<CompRetAddr>, xs: seq<CompRetAddr>)
    requires |rets| <= PT_MAX_COMPRETS
    ensures PushedAll(rets, xs) == LastN(rets + xs, PT_MAX_COMPRETS)
    decreases |xs|
  {
    if xs != [] {
      var p := Pushed(rets, xs[0]);
      PushedAllKeepsNewest(p, xs[1..]);
      if |rets| == PT_MAX_COMPRETS {
        assert p + xs[1..] == (rets + xs)[1..];
        LastNTail(rets + xs, PT_MAX_COMPRETS);
      } else {
        assert p + xs[1..] == rets + xs;
      }
    }
  }

  /** The compressed return stack: a `VecDeque` bounded by the hardware's limit. */
  class CompressedReturns {
    var rets: seq<CompRetAddr>

    ghost predicate Valid()
      reads this
    {
      |rets| <= PT_MAX_COMPRETS
    }

    constructor ()
      ensures Valid() && rets == []
    {
      rets := [];
    }

    /** `CompressedReturns::push`. */
    method Push(ret: CompRetAddr)
      requires Valid()
      modifies this
      ensures Valid()
      ensures rets == Pushed(old(rets), ret)
    {
      if |rets| == PT_MAX_COMPRETS {
        rets := rets[1..];
      }
      rets := rets + [ret];
    }

    /** `CompressedReturns::pop`: the most recently pushed entry, if any. */
    method Pop() returns (r: Option<CompRetAddr>)
      requires Valid()
      modifies this
      ensures Valid()
      ensures old(rets) == [] ==> r.None? && rets == []
      ensures old(rets) != [] ==> r == Some(old(rets)[|old(rets)| - 1]) && rets == old(rets)[..|old(rets)| - 1]
    {
      if rets == [] {
        r := None;
      } else {
        r := Some(rets[|rets| - 1]);
        rets := rets[..|rets| - 1];
      }
    }

    /** Clearing the stack, as a PSB packet demands. */
    method Clear()
      modifies this
      ensures Valid() && rets == []
    {
      rets := [];
    }
  }

  /** Popping straight after a push returns what was pushed and leaves the rest of the stack. */
  lemma PushThenPop(rets: seq<CompRetAddr>, ret: CompRetAddr)
    requires |rets| <= PT_MAX_COMPRETS
    ensures var p := Pushed(rets, ret);
      p[|p| - 1] == ret && p[..|p| - 1] == (if |rets| == PT_MAX_COMPRETS then rets[1..] else rets)
  {
  }

  // ---------------------------------------------------------------------------
  // Pushing return addresses for calls.

  /**
   * Whether following a call from the block map pushes its return onto the
   * stack. A direct call whose target is the very next instruction is not
   * compressed by the hardware, so it is not pushed; every other call is.
   */
  predicate BlockMapCallPushes(isDirect: bool, target: Option<nat>, returnVaddr: nat)
  {
    target.None? || !isDirect || target.value != returnVaddr
  }

  /** The same rule for a direct call found while disassembling. */
  predicate DirectCallPushes(targetVaddr: nat, nextIp: nat)
  {
    targetVaddr != nextIp
  }

  /** A zero-length direct call is never pushed, whichever way the call was found. */
  lemma ZeroLengthCallNotPushed(addr: nat)
    ensures !BlockMapCallPushes(true, Some(addr), addr)
    ensures !DirectCallPushes(addr, addr)
    ensures forall t: Option<nat> :: BlockMapCallPushes(false, t, addr)
    ensures BlockMapCallPushes(true, None, addr)
  {
  }

  // ---------------------------------------------------------------------------
  // Packets.

  /** The packet kinds the decoder distinguishes (the parser's own set is not part of this model). */
  datatype PacketKind = TNT | TIP | TIPPGE | TIPPGD | FUP | PSB | PSBEND | MODEExec | MODETSX | OVF | Other

  /** Kinds whose packets carry a target-IP update. */
  predicate EncodesTargetIp(k: PacketKind)
  {
    k == TIP || k == TIPPGE || k == TIPPGD || k == FUP
  }

  predicate IsMode(k: PacketKind)
  {
    k == MODEExec || k == MODETSX
  }

  /** A parsed packet: its kind, its target IP (if it carries one) and its TNT bits (if any). */
  datatype Packet = Packet(kind: PacketKind, targetIp: Option<nat>, tntBits: Option<seq<bool>>)

  /** A TNT packet carries at least one decision. */
  predicate WellFormed(p: Packet)
  {
    p.tntBits.Some? ==> |p.tntBits.value| > 0
  }

  function TntsOf(p: Packet): seq<bool>
  {
    if p.tntBits.Some? then p.tntBits.value else []
  }

  /** The test `seek_tnt_or_tip` stops at: TNT bits, or a target IP allowed by the two skip flags. */
  predicate TntOrTip(p: Packet, skipOoc: bool, skipPgd: bool)
  {
    p.tntBits.Some?
    || (EncodesTargetIp(p.kind) && (p.kind != TIPPGD || !skipPgd) && (p.targetIp.Some? || !skipOoc))
  }

  /** The test `seek_tip` stops at: a target-IP update other than TIP.PGD. */
  predicate TipUpdate(p: Packet)
  {
    EncodesTargetIp(p.kind) && p.kind != TIPPGD
  }

  /** How `unbound_modes` evolves over one packet: set by a MODE packet, consumed by a target-IP packet. */
  function UnboundAfter(unbound: bool, k: PacketKind): (r: bool)
    ensures IsMode(k) ==> r
    ensures EncodesTargetIp(k) ==> !r
    ensures !IsMode(k) && !EncodesTargetIp(k) ==> r == unbound
  {
    (unbound || IsMode(k)) && !EncodesTargetIp(k)
  }

  /** The internal errors of the block iterator, and the temporary errors it reports. */
  datatype IteratorError = NoMorePackets | NoSuchVAddr | TraceBufferOverflow | TraceInterrupted

  /** The outcome of reading a packet: a packet, an error, or a panic of the source. */
  datatype PacketResult = Got(pkt: Packet) | Failed(err: IteratorError) | Panicked

  /** The outcome of a decoding step that yields a value. */
  datatype StepResult<T> = Ok(value: T) | Err(err: IteratorError) | Panic

  /**
   * `Iterator::next` of the block iterator: the end of the packets ends the
   * iteration; every other error is reported.
   */
  function ToIteratorItem(r: StepResult<Block>): (item: Option<StepResult<Block>>)
    requires !r.Panic?
    ensures item.None? <==> r == Err(NoMorePackets)
    ensures r.Ok? ==> item == Some(r)
    ensures r.Err? && r.err != NoMorePackets ==> item == Some(r)
  {
    match r
    case Ok(b) => Some(Ok(b))
    case Err(NoMorePackets) => None
    case Err(e) => Some(Err(e))
  }

  /**
   * A packet that `packet` applies as it comes: not an overflow, not a PSB,
   * and not a FUP that starts an interruption.
   */
  predicate Ordinary(p: Packet, unbound: bool)
  {
    p.kind != OVF && p.kind != PSB && !(p.kind == FUP && !unbound)
  }

  /** Whether the packet's target IP (if any) maps to a known object. */
  predicate Resolves(inMainObj: nat -> Option<bool>, p: Packet)
  {
    p.targetIp.Some? ==> inMainObj(p.targetIp.value).Some?
  }

  /** The location a resolved target IP denotes. */
  function TargetLoc(inMainObj: nat -> Option<bool>, vaddr: nat): ObjLoc
  {
    if inMainObj(vaddr) == Some(true) then MainObj(vaddr) else OtherObjOrUnknown(Some(vaddr))
  }

  /** `rest` is what is left of `stream` once some packets were read off its front. */
  predicate Remains(rest: seq<Packet>, stream: seq<Packet>)
  {
    |rest| <= |stream| && rest == stream[|stream| - |rest|..]
  }

  /** Reading on from what remains is reading from the stream; the last packet read is the same. */
  lemma ReadOn(stream: seq<Packet>, mid: seq<Packet>, rest: seq<Packet>)
    requires Remains(mid, stream) && Remains(rest, mid)
    ensures Remains(rest, stream)
    ensures |rest| < |mid| ==> mid[|mid| - |rest| - 1] == stream[|stream| - |rest| - 1]
  {
    assert stream[|stream| - |mid|..][|mid| - |rest|..] == stream[|stream| - |rest|..];
  }

  /**
   * `pkts[k]` was read at position `at[k]` of `stream`, each position after
   * the one before, and all lie among the first `n` packets.
   */
  predicate ReadAt(stream: seq<Packet>, pkts: seq<Packet>, at: seq<nat>, n: nat)
    decreases |at|
  {
    n <= |stream| && |at| == |pkts| &&
    (|at| > 0 ==>
       var m := |at| - 1;
       at[m] < n && stream[at[m]] == pkts[m] && ReadAt(stream, pkts[..m], at[..m], at[m]))
  }

  /** Positions rise strictly, so `n` of them bound how many packets were read. */
  lemma {:induction false} ReadAtCount(stream: seq<Packet>, pkts: seq<Packet>, at: seq<nat>, n: nat)
    requires ReadAt(stream, pkts, at, n)
    ensures |at| <= n
  {
    if |at| > 0 {
      var m := |at| - 1;
      ReadAtCount(stream, pkts[..m], at[..m], at[m]);
    }
  }

  /**
   * One more read, which left `rest` of `before` and returned `p`: `p` is
   * the last packet consumed from `stream`, after every packet read so far.
   */
  lemma ReadAtNext(stream: seq<Packet>, pkts: seq<Packet>, at: seq<nat>, before: seq<Packet>,
                   rest: seq<Packet>, p: Packet)
    requires Remains(before, stream) && ReadAt(stream, pkts, at, |stream| - |before|)
    requires Remains(rest, before) && |rest| < |before| && p == before[|before| - |rest| - 1]
    ensures Remains(rest, stream) && p == stream[|stream| - |rest| - 1]
    ensures ReadAt(stream, pkts, at, |stream| - |rest| - 1)
    ensures ReadAt(stream, pkts + [p], at + [|stream| - |rest| - 1], |stream| - |rest|)
  {
    ReadOn(stream, before, rest);
    var m := |at|;
    assert (pkts + [p])[..m] == pkts && (at + [|stream| - |rest| - 1])[..m] == at;
  }

  /**
   * A seek loop's log: `rest` is what remains of `stream`, and the
   * `skipped` packets were read, in order, among the packets consumed.
   */
  predicate ReadLog(stream: seq<Packet>, rest: seq<Packet>, skipped: seq<Packet>, at: seq<nat>)
  {
    Remains(rest, stream) && ReadAt(stream, skipped, at, |stream| - |rest|)
  }

  /** A read that returned `p` and was passed over extends the log. */
  lemma ReadLogNext(stream: seq<Packet>, before: seq<Packet>, rest: seq<Packet>, skipped: seq<Packet>,
                    at: seq<nat>, p: Packet)
    requires ReadLog(stream, before, skipped, at)
    requires Remains(rest, before) && |rest| < |before| && p == before[|before| - |rest| - 1]
    ensures ReadLog(stream, rest, skipped + [p], at + [|stream| - |rest| - 1])
  {
    ReadAtNext(stream, skipped, at, before, rest, p);
  }

  /**
   * What a seek read of `stream`, leaving `rest`: the `skipped` packets, in
   * order, at rising positions within the packets consumed, then (when it
   * stopped at one) `stop`, the last packet consumed.
   */
  predicate SeekLog(stream: seq<Packet>, rest: seq<Packet>, skipped: seq<Packet>, at: seq<nat>, stop: Option<Packet>)
  {
    Remains(rest, stream) &&
    if stop.Some? then
      |rest| < |stream| && stop.value == stream[|stream| - |rest| - 1] &&
      ReadAt(stream, skipped, at, |stream| - |rest| - 1)
    else
      ReadAt(stream, skipped, at, |stream| - |rest|)
  }

  /** A seek stops at the packet `p` its last read returned. */
  lemma SeekStops(stream: seq<Packet>, before: seq<Packet>, rest: seq<Packet>, skipped: seq<Packet>,
                  at: seq<nat>, p: Packet)
    requires ReadLog(stream, before, skipped, at)
    requires Remains(rest, before) && |rest| < |before| && p == before[|before| - |rest| - 1]
    ensures SeekLog(stream, rest, skipped, at, Some(p))
  {
    ReadAtNext(stream, skipped, at, before, rest, p);
  }

  /** A seek whose last read failed stops at no packet. */
  lemma SeekFails(stream: seq<Packet>, before: seq<Packet>, rest: seq<Packet>, skipped: seq<Packet>, at: seq<nat>)
    requires ReadLog(stream, before, skipped, at) && Remains(rest, before)
    ensures SeekLog(stream, rest, skipped, at, None)
  {
    ReadOn(stream, before, rest);
  }

  /**
   * A packet that `packet` hands over exactly as it comes, whatever MODE
   * packet went before: not an overflow, not a PSB, not a FUP, and its
   * target IP (if any) maps to a known object.
   */
  predicate Plain(inMainObj: nat -> Option<bool>, p: Packet)
  {
    p.kind != OVF && p.kind != PSB && p.kind != FUP && Resolves(inMainObj, p)
  }

  predicate AllPlain(inMainObj: nat -> Option<bool>, pkts: seq<Packet>)
  {
    forall j :: 0 <= j < |pkts| ==> Plain(inMainObj, pkts[j])
  }

  /**
   * `rest` is what remains of `stream`, and when every packet consumed was
   * plain, the packets consumed were exactly `read`, in order.
   */
  predicate PlainLog(inMainObj: nat -> Option<bool>, stream: seq<Packet>, rest: seq<Packet>, read: seq<Packet>)
  {
    Remains(rest, stream) && (AllPlain(inMainObj, stream[..|stream| - |rest|]) ==> stream == read + rest)
  }

  /**
   * A read or seek of `stream` that left `rest` and returned `r`: when every
   * packet consumed was plain, it fails only where the stream ran out.
   */
  predicate PlainEnd(inMainObj: nat -> Option<bool>, stream: seq<Packet>, rest: seq<Packet>, r: PacketResult)
  {
    |rest| <= |stream| && (AllPlain(inMainObj, stream[..|stream| - |rest|]) && !r.Got? ==> r == Failed(NoMorePackets) && rest == [])
  }

  /**
   * One call of `packet`, which left `rest` of `before` and returned `r`,
   * extends the log by the packet returned: a plain packet at the head of
   * the stream is the only one consumed and the one returned, so over plain
   * packets the call fails only at the end of the stream.
   */
  lemma PlainLogRead(inMainObj: nat -> Option<bool>, stream: seq<Packet>, before: seq<Packet>,
                     rest: seq<Packet>, read: seq<Packet>, r: PacketResult)
    requires PlainLog(inMainObj, stream, before, read) && Remains(rest, before)
    requires before != [] ==> |rest| < |before|
    requires r.Got? ==> before != []
    requires before != [] && Plain(inMainObj, before[0]) ==> rest == before[1..] && r == Got(before[0])
    requires before == [] ==> r == Failed(NoMorePackets)
    ensures PlainLog(inMainObj, stream, rest, if r.Got? then read + [r.pkt] else read)
    ensures PlainEnd(inMainObj, stream, rest, r)
  {
    ReadOn(stream, before, rest);
    var cb, ca := |stream| - |before|, |stream| - |rest|;
    if AllPlain(inMainObj, stream[..ca]) {
      assert AllPlain(inMainObj, stream[..cb]) by {
        forall j | 0 <= j < cb ensures Plain(inMainObj, stream[..cb][j]) {
          assert stream[..cb][j] == stream[..ca][j];
        }
      }
      if before != [] {
        assert before[0] == stream[cb] == stream[..ca][cb];
        assert before == [before[0]] + rest;
      }
    }
  }

  /**
   * A seek over plain packets stops at the first packet of the stream that
   * passes its test `stops`: what it logged is exactly the packets consumed,
   * in order, so every packet before the stop is one it passed over.
   */
  lemma PlainSeekFindsFirst(inMainObj: nat -> Option<bool>, stream: seq<Packet>, rest: seq<Packet>,
                            skipped: seq<Packet>, stop: Packet, stops: Packet -> bool)
    requires PlainLog(inMainObj, stream, rest, skipped + [stop])
    requires AllPlain(inMainObj, stream[..|stream| - |rest|])
    requires forall i :: 0 <= i < |skipped| ==> !stops(skipped[i])
    requires stops(stop)
    ensures |skipped| < |stream| && stream[|skipped|] == stop
    ensures forall j :: 0 <= j < |skipped| ==> stream[j] == skipped[j] && !stops(stream[j])
    ensures stream == skipped + [stop] + rest
  {
    assert stream == skipped + [stop] + rest;
    forall j | 0 <= j < |skipped| ensures stream[j] == skipped[j] {
      assert stream[j] == (skipped + [stop] + rest)[j];
    }
  }

  /**
   * A seek over what was left of `stream` after `from` packets, whose
   * consumed packets lie in a plain prefix of `stream`, stopped at the first
   * packet past `from` that passes its test.
   */
  lemma PlainSeekFrom(inMainObj: nat -> Option<bool>, stream: seq<Packet>, from: nat, rest: seq<Packet>, c: nat,
                      skipped: seq<Packet>, stop: Packet, test: Packet -> bool)
    requires from <= |stream| && PlainLog(inMainObj, stream[from..], rest, skipped + [stop])
    requires |stream| - |rest| <= c <= |stream| && AllPlain(inMainObj, stream[..c])
    requires forall i :: 0 <= i < |skipped| ==> !test(skipped[i])
    requires test(stop)
    ensures |stream| - |rest| == from + |skipped| + 1
    ensures forall i :: from <= i < from + |skipped| ==> !test(stream[i])
  {
    var sub := stream[from..];
    var n := |sub| - |rest|;
    assert AllPlain(inMainObj, sub[..n]) by {
      forall j | 0 <= j < n ensures Plain(inMainObj, sub[..n][j]) {
        assert sub[..n][j] == stream[..c][from + j];
      }
    }
    PlainSeekFindsFirst(inMainObj, sub, rest, skipped, stop, test);
    forall i | from <= i < from + |skipped| ensures !test(stream[i]) {
      assert stream[i] == sub[i - from];
    }
  }

  /**
   * What skipping a FUP, TIP.PGD, TIP.PGE interruption promises about the
   * first `c` packets of `stream`, which it consumed, given `stops`, the
   * positions where its seeks stopped, and its result `r`. The first seek
   * stops at a TNT or target-IP packet, the second at one that is not an
   * out-of-context TIP. Only a TIP.PGD then a TIP.PGE let the packet right
   * after them be returned; a stop of any other kind is `TraceInterrupted`.
   * When every packet consumed is plain, each seek stopped at the first
   * qualifying packet after the previous stop, and any other failure is the
   * end of the stream.
   */
  predicate InterruptionSkipped(inMainObj: nat -> Option<bool>, stream: seq<Packet>, c: nat, stops: seq<nat>,
                                r: PacketResult)
  {
    c <= |stream| && |stops| <= 2 &&
    (forall k :: 0 <= k < |stops| ==> stops[k] < c) &&
    (|stops| == 2 ==> stops[0] < stops[1]) &&
    (|stops| >= 1 ==> TntOrTip(stream[stops[0]], false, false)) &&
    (|stops| == 2 ==> TntOrTip(stream[stops[1]], true, false)) &&
    (r.Got? ==> |stops| == 2 && stream[stops[0]].kind == TIPPGD && stream[stops[1]].kind == TIPPGE &&
                stops[1] == c - 2 && r.pkt == stream[c - 1]) &&
    (|stops| >= 1 && stream[stops[0]].kind != TIPPGD ==>
       r == Failed(TraceInterrupted) && |stops| == 1 && stops[0] == c - 1) &&
    (|stops| == 2 && stream[stops[1]].kind != TIPPGE ==> r == Failed(TraceInterrupted) && stops[1] == c - 1) &&
    (AllPlain(inMainObj, stream[..c]) ==>
       (|stops| >= 1 ==> forall i :: 0 <= i < stops[0] ==> !TntOrTip(stream[i], false, false)) &&
       (|stops| == 2 ==> forall i :: stops[0] < i < stops[1] ==> !TntOrTip(stream[i], true, false)) &&
       (!r.Got? ==>
          (r == Failed(NoMorePackets) && c == |stream|) ||
          (|stops| >= 1 && stream[stops[0]].kind != TIPPGD) ||
          (|stops| == 2 && stream[stops[1]].kind != TIPPGE)))
  }

  /** A plain consumed prefix of `stream` is plain up to `mid` and from `mid` on. */
  lemma PlainSplit(inMainObj: nat -> Option<bool>, stream: seq<Packet>, mid: seq<Packet>, rest: seq<Packet>)
    requires Remains(mid, stream) && Remains(rest, mid)
    ensures AllPlain(inMainObj, stream[..|stream| - |rest|]) ==>
      AllPlain(inMainObj, stream[..|stream| - |mid|]) && AllPlain(inMainObj, mid[..|mid| - |rest|])
  {
    var c, m := |stream| - |rest|, |stream| - |mid|;
    if AllPlain(inMainObj, stream[..c]) {
      forall j | 0 <= j < m ensures Plain(inMainObj, stream[..m][j]) {
        assert stream[..m][j] == stream[..c][j];
      }
      var tail := mid[..|mid| - |rest|];
      forall j | 0 <= j < |tail| ensures Plain(inMainObj, tail[j]) {
        assert tail[j] == stream[..c][m + j];
      }
    }
  }

  /** A plain prefix of `stream` is plain up to any point within it. */
  lemma PlainPrefix(inMainObj: nat -> Option<bool>, stream: seq<Packet>, k: nat, c: nat)
    requires k <= c <= |stream|
    ensures AllPlain(inMainObj, stream[..c]) ==> AllPlain(inMainObj, stream[..k])
  {
    if AllPlain(inMainObj, stream[..c]) {
      forall j | 0 <= j < k ensures Plain(inMainObj, stream[..k][j]) {
        assert stream[..k][j] == stream[..c][j];
      }
    }
  }

  /** The first seek of an interruption stopped at nothing. */
  lemma InterruptionUnstarted(inMainObj: nat -> Option<bool>, stream: seq<Packet>, c: nat, r: PacketResult)
    requires c <= |stream| && !r.Got?
    requires AllPlain(inMainObj, stream[..c]) ==> r == Failed(NoMorePackets) && c == |stream|
    ensures InterruptionSkipped(inMainObj, stream, c, [], r)
  {
  }

  /** The first seek of an interruption stopped at a packet other than TIP.PGD. */
  lemma InterruptedAtFirst(inMainObj: nat -> Option<bool>, stream: seq<Packet>, c: nat)
    requires 1 <= c <= |stream| && TntOrTip(stream[c - 1], false, false) && stream[c - 1].kind != TIPPGD
    requires AllPlain(inMainObj, stream[..c]) ==> forall i :: 0 <= i < c - 1 ==> !TntOrTip(stream[i], false, false)
    ensures InterruptionSkipped(inMainObj, stream, c, [c - 1], Failed(TraceInterrupted))
  {
  }

  /** The second seek of an interruption, after a TIP.PGD, stopped at nothing. */
  lemma InterruptionUnfinished(inMainObj: nat -> Option<bool>, stream: seq<Packet>, c1: nat, c: nat, r: PacketResult)
    requires 1 <= c1 <= c <= |stream| && TntOrTip(stream[c1 - 1], false, false) && stream[c1 - 1].kind == TIPPGD
    requires !r.Got?
    requires AllPlain(inMainObj, stream[..c]) ==>
      (forall i :: 0 <= i < c1 - 1 ==> !TntOrTip(stream[i], false, false)) && r == Failed(NoMorePackets) && c == |stream|
    ensures InterruptionSkipped(inMainObj, stream, c, [c1 - 1], r)
  {
  }

  /** The second seek of an interruption, after a TIP.PGD, stopped at a packet other than TIP.PGE. */
  lemma InterruptedAtSecond(inMainObj: nat -> Option<bool>, stream: seq<Packet>, c1: nat, c: nat)
    requires 1 <= c1 < c <= |stream| && TntOrTip(stream[c1 - 1], false, false) && stream[c1 - 1].kind == TIPPGD
    requires TntOrTip(stream[c - 1], true, false) && stream[c - 1].kind != TIPPGE
    requires AllPlain(inMainObj, stream[..c]) ==>
      (forall i :: 0 <= i < c1 - 1 ==> !TntOrTip(stream[i], false, false)) &&
      (forall i :: c1 <= i < c - 1 ==> !TntOrTip(stream[i], true, false))
    ensures InterruptionSkipped(inMainObj, stream, c, [c1 - 1, c - 1], Failed(TraceInterrupted))
  {
  }

  /** An interruption whose seeks met a TIP.PGD then a TIP.PGE ends with the packet after them. */
  lemma InterruptionPassed(inMainObj: nat -> Option<bool>, stream: seq<Packet>, c1: nat, c2: nat, c: nat, r: PacketResult)
    requires 1 <= c1 < c2 <= c <= |stream| && TntOrTip(stream[c1 - 1], false, false) && stream[c1 - 1].kind == TIPPGD
    requires TntOrTip(stream[c2 - 1], true, false) && stream[c2 - 1].kind == TIPPGE
    requires (c == c2 + 1 && r == Got(stream[c - 1])) || (c == c2 == |stream| && r == Failed(NoMorePackets))
    requires AllPlain(inMainObj, stream[..c]) ==>
      (forall i :: 0 <= i < c1 - 1 ==> !TntOrTip(stream[i], false, false)) &&
      (forall i :: c1 <= i < c2 - 1 ==> !TntOrTip(stream[i], true, false))
    ensures InterruptionSkipped(inMainObj, stream, c, [c1 - 1, c2 - 1], r)
  {
  }

  /** Position `k` of `stream` holds its first PSBEND. */
  predicate PsbEndAt(stream: seq<Packet>, k: int)
  {
    0 <= k < |stream| && stream[k].kind == PSBEND && forall i :: 0 <= i < k ==> stream[i].kind != PSBEND
  }

  /** The Yk PT block iterator's decoding state. */
  class YkPTBlockIterator {
    /** The packets the parser has yet to hand out. */
    var packets: seq<Packet>
    var curLoc: ObjLoc
    /** Buffered TNT decisions, oldest first. */
    var tnts: seq<bool>
    const comprets: CompressedReturns
    var unboundModes: bool
    /** For each virtual address: in the main object, in another object, or unknown. */
    const inMainObj: nat -> Option<bool>

    ghost predicate Valid()
      reads this, comprets
    {
      comprets.Valid() && forall i :: 0 <= i < |packets| ==> WellFormed(packets[i])
    }

    constructor (packets: seq<Packet>, inMainObj: nat -> Option<bool>)
      requires forall i :: 0 <= i < |packets| ==> WellFormed(packets[i])
      ensures Valid() && fresh(comprets)
      ensures this.packets == packets && this.inMainObj == inMainObj
      ensures curLoc == OtherObjOrUnknown(None) && tnts == [] && comprets.rets == [] && !unboundModes
    {
      this.packets := packets;
      this.inMainObj := inMainObj;
      curLoc := OtherObjOrUnknown(None);
      tnts := [];
      comprets := new CompressedReturns();
      unboundModes := false;
    }

    /** The parser's `next`: the next packet, if any. */
    method NextRaw() returns (p: Option<Packet>)
      requires Valid()
      modifies this`packets
      ensures Valid()
      ensures old(packets) == [] ==> p.None? && packets == []
      ensures old(packets) != [] ==> p == Some(old(packets)[0]) && packets == old(packets)[1..]
      ensures p.Some? ==> WellFormed(p.value)
    {
      if packets == [] {
        p := None;
      } else {
        p := Some(packets[0]);
        packets := packets[1..];
      }
    }

    /**
     * The bookkeeping at the end of `packet` (lines 831-857): MODE binding,
     * the current location from a target IP, and TNT bits appended in order.
     */
    method ApplyPacket(pkt: Packet) returns (err: bool)
      requires Valid() && WellFormed(pkt)
      modifies this`unboundModes, this`curLoc, this`tnts
      ensures Valid()
      ensures unboundModes == UnboundAfter(old(unboundModes), pkt.kind)
      ensures err <==> pkt.targetIp.Some? && inMainObj(pkt.targetIp.value).None?
      ensures !err && pkt.targetIp.Some? ==>
        curLoc == (if inMainObj(pkt.targetIp.value) == Some(true) then MainObj(pkt.targetIp.value)
                   else OtherObjOrUnknown(pkt.targetIp))
      ensures pkt.targetIp.None? ==> curLoc == old(curLoc)
      ensures !err ==> tnts == old(tnts) + TntsOf(pkt)
      ensures err ==> tnts == old(tnts)
    {
      if IsMode(pkt.kind) {
        unboundModes := true;
      }
      if EncodesTargetIp(pkt.kind) && unboundModes {
        unboundModes := false;
      }
      err := false;
      if pkt.targetIp.Some? {
        var vaddr := pkt.targetIp.value;
        match inMainObj(vaddr)
        case None =>
          err := true;
          return;
        case Some(main) =>
          curLoc := if main then MainObj(vaddr) else OtherObjOrUnknown(Some(vaddr));
      }
      if pkt.tntBits.Some? {
        tnts := tnts + pkt.tntBits.value;
      }
    }

    /**
     * `skip_psb_plus`: skips up to and including the next PSBEND and returns
     * the packet after it. Running out before the PSBEND panics; a PSBEND
     * that ends the stream is `NoMorePackets`.
     */
    method SkipPsbPlus() returns (r: PacketResult)
      requires Valid()
      modifies this`packets
      ensures Valid() && |packets| <= old(|packets|)
      ensures Remains(packets, old(packets))
      ensures r.Got? ==> WellFormed(r.pkt) && |packets| < old(|packets|)
      ensures r.Got? ==> r.pkt == old(packets)[|old(packets)| - |packets| - 1]
      ensures r.Panicked? <==> forall i :: 0 <= i < old(|packets|) ==> old(packets)[i].kind != PSBEND
      ensures r.Got? ==> PsbEndAt(old(packets), |old(packets)| - |packets| - 2)
      ensures r.Failed? ==> r == Failed(NoMorePackets) && packets == [] && PsbEndAt(old(packets), |old(packets)| - 1)
    {
      ghost var start := packets;
      var found := SkipToPsbEnd(start);
      if !found {
        return Panicked;
      }
      ghost var before, k := packets, |start| - |packets| - 1;
      assert start[k].kind == PSBEND;
      var q := NextRaw();
      ReadOn(start, before, packets);
      r := if q.Some? then Got(q.value) else Failed(NoMorePackets);
      assert |start| - |packets| - (if q.Some? then 2 else 1) == k;
    }

    /**
     * The loop of `skip_psb_plus`: packets of `stream` are consumed up to
     * and including its first PSBEND (`found`); a stream without one is
     * consumed entirely.
     */
    method SkipToPsbEnd(ghost stream: seq<Packet>) returns (found: bool)
      requires Valid() && packets == stream
      modifies this`packets
      ensures Valid() && Remains(packets, stream)
      ensures found ==> PsbEndAt(stream, |stream| - |packets| - 1)
      ensures !found ==> packets == [] && forall i :: 0 <= i < |stream| ==> stream[i].kind != PSBEND
    {
      while true
        invariant Valid() && Remains(packets, stream)
        invariant forall i :: 0 <= i < |stream| - |packets| ==> stream[i].kind != PSBEND
        decreases |packets|
      {
        ghost var before := packets;
        var p := NextRaw();
        if p.None? {
          return false;
        }
        assert p.value == stream[|stream| - |before|];
        if p.value.kind == PSBEND {
          return true;
        }
      }
    }

    /**
     * One `seek_tnt_or_tip(skip_ooc, false)` of an interruption, stated by
     * position in `stream`, of which the packets left are what remains: the
     * packet returned is the last one consumed and passes the test. When
     * every packet of `stream` consumed so far is plain, none read before it
     * passes, and a seek that stops at nothing ran out of packets.
     */
    method SeekInterruptionStop(ghost stream: seq<Packet>, skipOoc: bool) returns (r: PacketResult, ghost c: nat)
      requires Valid() && Remains(packets, stream)
      modifies this, comprets
      ensures Valid() && Remains(packets, stream) && c == |stream| - |packets| && |stream| - old(|packets|) <= c
      ensures r.Got? ==> |stream| - old(|packets|) < c && r.pkt == stream[c - 1]
      ensures r.Got? ==> WellFormed(r.pkt) && TntOrTip(r.pkt, skipOoc, false)
      ensures AllPlain(inMainObj, stream[..c]) ==>
        (r.Got? ==> forall i :: |stream| - old(|packets|) <= i < c - 1 ==> !TntOrTip(stream[i], skipOoc, false)) &&
        (!r.Got? ==> r == Failed(NoMorePackets) && c == |stream|)
      decreases |packets|, 5
    {
      ghost var mid := packets;
      var res, sk, _ := SeekTntOrTip(skipOoc, false);
      r, c := res, |stream| - |packets|;
      ReadOn(stream, mid, packets);
      PlainSplit(inMainObj, stream, mid, packets);
      if r.Got? && AllPlain(inMainObj, stream[..c]) {
        PlainSeekFrom(inMainObj, stream, |stream| - |mid|, packets, c, sk, r.pkt, p => TntOrTip(p, skipOoc, false));
      }
    }

    /**
     * The rest of an interruption once its first seek stopped at a TIP.PGD,
     * the last of the first `c1` packets of `stream`: a second seek must
     * stop at a TIP.PGE, and the packet after it is returned.
     */
    method FinishInterruption(ghost stream: seq<Packet>, ghost c1: nat) returns (r: PacketResult, ghost stops: seq<nat>)
      requires Valid() && Remains(packets, stream) && c1 == |stream| - |packets| && 1 <= c1
      requires TntOrTip(stream[c1 - 1], false, false) && stream[c1 - 1].kind == TIPPGD
      requires AllPlain(inMainObj, stream[..c1]) ==> forall i :: 0 <= i < c1 - 1 ==> !TntOrTip(stream[i], false, false)
      modifies this, comprets
      ensures Valid() && Remains(packets, stream) && |packets| <= old(|packets|)
      ensures r.Got? ==> |packets| < old(|packets|) && WellFormed(r.pkt) && r.pkt == stream[|stream| - |packets| - 1]
      ensures InterruptionSkipped(inMainObj, stream, |stream| - |packets|, stops, r)
      decreases |packets|, 6
    {
      var s2, c2 := SeekInterruptionStop(stream, true);
      PlainPrefix(inMainObj, stream, c1, c2);
      if !s2.Got? {
        InterruptionUnfinished(inMainObj, stream, c1, c2, s2);
        return s2, [c1 - 1];
      }
      stops := [c1 - 1, c2 - 1];
      if s2.pkt.kind != TIPPGE {
        InterruptedAtSecond(inMainObj, stream, c1, c2);
        return Failed(TraceInterrupted), stops;
      }
      ghost var rest2 := packets;
      var next := NextRaw();
      if next.Some? {
        assert next.value == rest2[0] == stream[c2];
        r := Got(next.value);
        PlainPrefix(inMainObj, stream, c2, c2 + 1);
        InterruptionPassed(inMainObj, stream, c1, c2, c2 + 1, r);
      } else {
        r := Failed(NoMorePackets);
        InterruptionPassed(inMainObj, stream, c1, c2, c2, r);
      }
    }

    /**
     * The interruption part of `packet`: after a FUP with no MODE waiting,
     * only a TIP.PGD then a TIP.PGE may follow (ignoring out-of-context TIPs
     * before the TIP.PGE), and the packet after them is returned. Any other
     * packet there means the trace was interrupted. `stream` is the packets
     * left on entry, and `stops` the positions in it where the two seeks
     * stopped.
     */
    method SkipInterruption(ghost stream: seq<Packet>) returns (r: PacketResult, ghost stops: seq<nat>)
      requires Valid() && packets == stream
      modifies this, comprets
      ensures Valid() && Remains(packets, stream) && |packets| <= old(|packets|)
      ensures r.Got? ==> |packets| < old(|packets|) && WellFormed(r.pkt) && r.pkt == stream[|stream| - |packets| - 1]
      ensures InterruptionSkipped(inMainObj, stream, |stream| - |packets|, stops, r)
      decreases |packets|, 8
    {
      var s1, c1 := SeekInterruptionStop(stream, false);
      r, stops := AfterFirstStop(stream, s1, c1);
    }

    /**
     * An interruption once its first seek returned `s1` after the first `c1`
     * packets of `stream`: only a TIP.PGD lets it go on.
     */
    method AfterFirstStop(ghost stream: seq<Packet>, s1: PacketResult, ghost c1: nat)
      returns (r: PacketResult, ghost stops: seq<nat>)
      requires Valid() && Remains(packets, stream) && c1 == |stream| - |packets|
      requires s1.Got? ==> 0 < c1 && s1.pkt == stream[c1 - 1] && TntOrTip(s1.pkt, false, false)
      requires AllPlain(inMainObj, stream[..c1]) ==>
        (s1.Got? ==> forall i :: 0 <= i < c1 - 1 ==> !TntOrTip(stream[i], false, false)) &&
        (!s1.Got? ==> s1 == Failed(NoMorePackets) && c1 == |stream|)
      modifies this, comprets
      ensures Valid() && Remains(packets, stream) && |packets| <= old(|packets|)
      ensures r.Got? ==> |packets| < old(|packets|) && WellFormed(r.pkt) && r.pkt == stream[|stream| - |packets| - 1]
      ensures InterruptionSkipped(inMainObj, stream, |stream| - |packets|, stops, r)
      decreases |packets|, 7
    {
      if !s1.Got? {
        InterruptionUnstarted(inMainObj, stream, c1, s1);
        return s1, [];
      }
      if s1.pkt.kind != TIPPGD {
        InterruptedAtFirst(inMainObj, stream, c1);
        return Failed(TraceInterrupted), [c1 - 1];
      }
      r, stops := FinishInterruption(stream, c1);
    }

    /**
     * The PSB part of `packet`: the location becomes unknown, the return
     * stack is cleared, pending TNT decisions panic, and the PSB+ sequence
     * is skipped; the packet after its PSBEND is returned, and a second PSB
     * there is not supported.
     */
    method ResetAtPsb() returns (r: PacketResult)
      requires Valid()
      modifies this, comprets
      ensures Valid() && |packets| <= old(|packets|) && Remains(packets, old(packets))
      ensures comprets.rets == []
      ensures old(tnts) != [] ==> r.Panicked?
      ensures r.Got? ==> |packets| < old(|packets|) && WellFormed(r.pkt) && r.pkt.kind != PSB
      ensures r.Got? ==> r.pkt == old(packets)[|old(packets)| - |packets| - 1]
      ensures r.Got? ==> curLoc == OtherObjOrUnknown(None) && tnts == [] &&
                         PsbEndAt(old(packets), |old(packets)| - |packets| - 2)
      ensures r.Failed? ==> r == Failed(NoMorePackets) && packets == [] && PsbEndAt(old(packets), |old(packets)| - 1)
    {
      curLoc := OtherObjOrUnknown(None);
      comprets.Clear();
      if tnts != [] {
        return Panicked;
      }
      r := SkipPsbPlus();
      if r.Got? && r.pkt.kind == PSB {
        r := Panicked;
      }
    }

    /**
     * The FUP part of `packet`: the interruption is skipped, and a PSB after
     * it handled as one met directly. `resumed` is what the interruption
     * skip returned after its first `c` packets, with `stops` where its
     * seeks stopped.
     */
    method ResyncInterruption() returns (r: PacketResult, ghost resumed: PacketResult, ghost c: nat,
                                         ghost stops: seq<nat>)
      requires Valid()
      modifies this, comprets
      ensures Valid() && |packets| <= old(|packets|) && Remains(packets, old(packets))
      ensures r.Got? ==> |packets| < old(|packets|) && WellFormed(r.pkt) && r.pkt.kind != PSB
      ensures r.Got? ==> r.pkt == old(packets)[|old(packets)| - |packets| - 1]
      ensures c <= |old(packets)| - |packets| && InterruptionSkipped(inMainObj, old(packets), c, stops, resumed)
      ensures !(resumed.Got? && resumed.pkt.kind == PSB) ==> r == resumed && c == |old(packets)| - |packets|
      ensures resumed.Got? && resumed.pkt.kind == PSB ==> comprets.rets == []
      ensures resumed.Got? && resumed.pkt.kind == PSB && r.Got? ==>
        curLoc == OtherObjOrUnknown(None) && tnts == [] &&
        PsbEndAt(old(packets)[c..], |old(packets)| - |packets| - c - 2)
      ensures resumed.Got? && resumed.pkt.kind == PSB && r.Failed? ==>
        r == Failed(NoMorePackets) && packets == [] && PsbEndAt(old(packets)[c..], |old(packets)| - c - 1)
      decreases |packets|, 9
    {
      ghost var start := packets;
      r, stops := SkipInterruption(start);
      resumed, c := r, |start| - |packets|;
      if r.Got? && r.pkt.kind == PSB {
        ghost var mid := packets;
        assert mid == start[c..];
        r := ResetAtPsb();
        ReadOn(start, mid, packets);
      }
    }

    /**
     * The part of `packet` that follows a FUP (`isFup`) or a PSB: either way,
     * the packet returned is the last one consumed and not a PSB.
     */
    method Resync(isFup: bool) returns (r: PacketResult)
      requires Valid()
      modifies this, comprets
      ensures Valid() && |packets| <= old(|packets|) && Remains(packets, old(packets))
      ensures r.Got? ==> |packets| < old(|packets|) && WellFormed(r.pkt) && r.pkt.kind != PSB
      ensures r.Got? ==> r.pkt == old(packets)[|old(packets)| - |packets| - 1]
      ensures !isFup ==> comprets.rets == [] && (old(tnts) != [] ==> r.Panicked?)
      ensures !isFup && r.Got? ==> curLoc == OtherObjOrUnknown(None)
      decreases |packets|, 10
    {
      if isFup {
        var interrupted, _, _, _ := ResyncInterruption();
        r := interrupted;
      } else {
        r := ResetAtPsb();
      }
    }

    /**
     * `packet`: fetches the next packet and updates the decoder's state. An
     * OVF packet is a temporary trace-buffer-overflow error. A FUP with no
     * MODE waiting is accepted only as the start of a FUP, TIP.PGD, TIP.PGE
     * interruption. A PSB resets the location and the return stack, requires
     * an empty TNT buffer, and skips the PSB+ sequence.
     */
    method NextPacket() returns (r: PacketResult)
      requires Valid()
      modifies this, comprets
      ensures Valid() && |packets| <= old(|packets|)
      ensures Remains(packets, old(packets))
      ensures r.Got? ==> |packets| < old(|packets|) && WellFormed(r.pkt)
      ensures r.Got? ==> r.pkt == old(packets)[|old(packets)| - |packets| - 1]
      ensures r.Got? ==> |tnts| >= |TntsOf(r.pkt)| && tnts[|tnts| - |TntsOf(r.pkt)|..] == TntsOf(r.pkt)
      ensures r.Got? && EncodesTargetIp(r.pkt.kind) ==> !unboundModes
      ensures r.Got? && IsMode(r.pkt.kind) ==> unboundModes
      ensures old(packets) == [] ==> r == Failed(NoMorePackets)
      ensures old(packets) != [] ==> |packets| < old(|packets|)
      ensures old(packets) != [] && old(packets)[0].kind == OVF ==>
        r == Failed(TraceBufferOverflow) && packets == old(packets)[1..]
      ensures old(packets) != [] && old(packets)[0].kind == PSB ==> comprets.rets == []
      ensures old(packets) != [] && old(packets)[0].kind == PSB && old(tnts) != [] ==> r.Panicked?
      ensures old(packets) != [] && old(packets)[0].kind == PSB && r.Got? && r.pkt.targetIp.None? ==>
        curLoc == OtherObjOrUnknown(None) && r.pkt.kind != PSB
      ensures r.Got? && r.pkt.targetIp.Some? ==> curLoc == TargetLoc(inMainObj, r.pkt.targetIp.value)
      ensures old(packets) != [] && Ordinary(old(packets)[0], old(unboundModes)) ==>
        packets == old(packets)[1..] && comprets.rets == old(comprets.rets)
      ensures old(packets) != [] && Ordinary(old(packets)[0], old(unboundModes)) && !Resolves(inMainObj, old(packets)[0]) ==>
        r == Failed(NoSuchVAddr) && tnts == old(tnts)
      ensures old(packets) != [] && Ordinary(old(packets)[0], old(unboundModes)) && Resolves(inMainObj, old(packets)[0]) ==>
        r == Got(old(packets)[0]) && tnts == old(tnts) + TntsOf(old(packets)[0]) &&
        unboundModes == UnboundAfter(old(unboundModes), old(packets)[0].kind) &&
        (old(packets)[0].targetIp.None? ==> curLoc == old(curLoc))
      decreases |packets|, 0
    {
      ghost var start := packets;
      var first := NextRaw();
      if first.None? {
        return Failed(NoMorePackets);
      }
      var pkt := first.value;
      if pkt.kind == OVF {
        return Failed(TraceBufferOverflow);
      }
      if !Ordinary(pkt, unboundModes) {
        ghost var mid := packets;
        assert |mid| < |start|;
        var resumed := Resync(pkt.kind == FUP);
        ReadOn(start, mid, packets);
        if !resumed.Got? {
          return resumed;
        }
        assert resumed.pkt == start[|start| - |packets| - 1];
        pkt := resumed.pkt;
      }
      var err := ApplyPacket(pkt);
      if err {
        return Failed(NoSuchVAddr);
      }
      r := Got(pkt);
    }

    /**
     * One read of a seek loop, that is one call of `packet`, with just what
     * the seek loops rely on: the packet returned is the last one consumed,
     * its TNT decisions end the buffer, and its target IP sets the location;
     * an ordinary packet at the head is the only one consumed and, when its
     * target IP resolves, the one returned.
     */
    method SeekRead() returns (r: PacketResult)
      requires Valid()
      modifies this, comprets
      ensures Valid() && Remains(packets, old(packets))
      ensures old(packets) == [] ==> r == Failed(NoMorePackets)
      ensures old(packets) != [] ==> |packets| < old(|packets|)
      ensures old(packets) != [] && Ordinary(old(packets)[0], old(unboundModes)) ==>
        packets == old(packets)[1..] && (Resolves(inMainObj, old(packets)[0]) ==> r == Got(old(packets)[0]))
      ensures r.Got? ==> |packets| < old(|packets|) && WellFormed(r.pkt)
      ensures r.Got? ==> r.pkt == old(packets)[|old(packets)| - |packets| - 1]
      ensures r.Got? ==> |tnts| >= |TntsOf(r.pkt)| && tnts[|tnts| - |TntsOf(r.pkt)|..] == TntsOf(r.pkt)
      ensures r.Got? && r.pkt.targetIp.Some? ==> curLoc == TargetLoc(inMainObj, r.pkt.targetIp.value)
      decreases |packets|, 1
    {
      r := NextPacket();
    }

    /**
     * One read of a seek loop that keeps the loop's logs: the packet
     * returned, if any, is logged after the packets passed over so far.
     */
    method SeekReadLogged(ghost start: seq<Packet>, ghost skipped: seq<Packet>, ghost at: seq<nat>)
      returns (r: PacketResult)
      requires Valid() && ReadLog(start, packets, skipped, at) && PlainLog(inMainObj, start, packets, skipped)
      modifies this, comprets
      ensures Valid() && |packets| <= old(|packets|)
      ensures r.Got? ==> |packets| < old(|packets|) && WellFormed(r.pkt)
      ensures r.Got? ==> |tnts| >= |TntsOf(r.pkt)| && tnts[|tnts| - |TntsOf(r.pkt)|..] == TntsOf(r.pkt)
      ensures r.Got? && r.pkt.targetIp.Some? ==> curLoc == TargetLoc(inMainObj, r.pkt.targetIp.value)
      ensures r.Got? ==> SeekLog(start, packets, skipped, at, Some(r.pkt))
      ensures r.Got? ==> ReadLog(start, packets, skipped + [r.pkt], at + [|start| - |packets| - 1])
      ensures !r.Got? ==> SeekLog(start, packets, skipped, at, None)
      ensures PlainLog(inMainObj, start, packets, if r.Got? then skipped + [r.pkt] else skipped)
      ensures PlainEnd(inMainObj, start, packets, r)
      decreases |packets|, 2
    {
      ghost var before := packets;
      r := SeekRead();
      if r.Got? {
        SeekStops(start, before, packets, skipped, at, r.pkt);
        ReadLogNext(start, before, packets, skipped, at, r.pkt);
      } else {
        SeekFails(start, before, packets, skipped, at);
      }
      PlainLogRead(inMainObj, start, before, packets, skipped, r);
    }

    /**
     * `seek_tnt_or_tip`: reads packets until one carries TNT bits or a target
     * IP (optionally skipping out-of-context TIPs and TIP.PGD packets), and
     * returns it. `skipped` records the packets read and passed over before
     * it, none of which qualifies, and `at` where in the stream each was read
     * (`SeekLog`). Between two reads `packet` may consume the packets of a
     * PSB+ sequence or an interruption. When every packet consumed was plain,
     * the stream was `skipped`, the packet returned, then the packets left
     * (`PlainLog`), so the packet returned is the first qualifying one.
     */
    method SeekTntOrTip(skipOoc: bool, skipPgd: bool)
      returns (r: PacketResult, ghost skipped: seq<Packet>, ghost at: seq<nat>)
      requires Valid()
      modifies this, comprets
      ensures Valid() && |packets| + |skipped| <= old(|packets|)
      ensures forall i :: 0 <= i < |skipped| ==> WellFormed(skipped[i]) && !TntOrTip(skipped[i], skipOoc, skipPgd)
      ensures r.Got? ==> |packets| + |skipped| < old(|packets|) && WellFormed(r.pkt)
      ensures SeekLog(old(packets), packets, skipped, at, if r.Got? then Some(r.pkt) else None)
      ensures PlainLog(inMainObj, old(packets), packets, if r.Got? then skipped + [r.pkt] else skipped)
      ensures r.Got? ==> TntOrTip(r.pkt, skipOoc, skipPgd)
      ensures r.Got? ==> |tnts| >= |TntsOf(r.pkt)| && tnts[|tnts| - |TntsOf(r.pkt)|..] == TntsOf(r.pkt)
      ensures PlainEnd(inMainObj, old(packets), packets, r)
      decreases |packets|, 4
    {
      ghost var start := packets;
      skipped, at := [], [];
      while true
        invariant Valid() && |packets| + |skipped| <= |start|
        invariant ReadLog(start, packets, skipped, at)
        invariant PlainLog(inMainObj, start, packets, skipped)
        invariant forall i :: 0 <= i < |skipped| ==> WellFormed(skipped[i]) && !TntOrTip(skipped[i], skipOoc, skipPgd)
        decreases |packets|
      {
        var done;
        r, done := SeekTntOrTipRound(start, skipped, at, skipOoc, skipPgd);
        if done {
          return;
        }
        skipped, at := skipped + [r.pkt], at + [|start| - |packets| - 1];
      }
    }

    /**
     * One round of `seek_tnt_or_tip`'s loop: a read, which ends the seek
     * (`done`) when it fails or returns a qualifying packet, and otherwise
     * joins the packets passed over.
     */
    method SeekTntOrTipRound(ghost start: seq<Packet>, ghost skipped: seq<Packet>, ghost at: seq<nat>,
                             skipOoc: bool, skipPgd: bool)
      returns (r: PacketResult, done: bool)
      requires Valid() && |packets| + |skipped| <= |start|
      requires ReadLog(start, packets, skipped, at) && PlainLog(inMainObj, start, packets, skipped)
      requires forall i :: 0 <= i < |skipped| ==> WellFormed(skipped[i]) && !TntOrTip(skipped[i], skipOoc, skipPgd)
      modifies this, comprets
      ensures Valid() && |packets| <= old(|packets|)
      ensures done <==> !r.Got? || TntOrTip(r.pkt, skipOoc, skipPgd)
      ensures r.Got? ==> |packets| < old(|packets|) && WellFormed(r.pkt)
      ensures done ==> SeekLog(start, packets, skipped, at, if r.Got? then Some(r.pkt) else None)
      ensures done ==> PlainLog(inMainObj, start, packets, if r.Got? then skipped + [r.pkt] else skipped)
      ensures done ==> PlainEnd(inMainObj, start, packets, r)
      ensures done && r.Got? ==> |tnts| >= |TntsOf(r.pkt)| && tnts[|tnts| - |TntsOf(r.pkt)|..] == TntsOf(r.pkt)
      ensures !done ==> r.Got? && |packets| + |skipped + [r.pkt]| <= |start|
      ensures !done ==> ReadLog(start, packets, skipped + [r.pkt], at + [|start| - |packets| - 1])
      ensures !done ==> PlainLog(inMainObj, start, packets, skipped + [r.pkt])
      ensures !done ==> forall i :: 0 <= i < |skipped + [r.pkt]| ==>
        WellFormed((skipped + [r.pkt])[i]) && !TntOrTip((skipped + [r.pkt])[i], skipOoc, skipPgd)
      decreases |packets|, 3
    {
      r := SeekReadLogged(start, skipped, at);
      done := !r.Got? || TntOrTip(r.pkt, skipOoc, skipPgd);
    }

    /**
     * `seek_tnt`: reads packets until one carries TNT decisions, which are
     * then buffered. `stop` is that packet and `skipped` the packets read and
     * passed over before it, none of which carries TNT bits; `at` is as for
     * `SeekTntOrTip`. When every packet consumed was plain, `stop` is the
     * first packet of the stream with TNT bits (`PlainLog`).
     */
    method SeekTnt() returns (r: StepResult<()>, ghost skipped: seq<Packet>, ghost stop: Option<Packet>,
                              ghost at: seq<nat>)
      requires Valid()
      modifies this, comprets
      ensures Valid() && |packets| + |skipped| <= old(|packets|)
      ensures forall i :: 0 <= i < |skipped| ==> WellFormed(skipped[i]) && skipped[i].tntBits.None?
      ensures r.Ok? <==> stop.Some?
      ensures stop.Some? ==> WellFormed(stop.value) && stop.value.tntBits.Some?
      ensures stop.Some? ==> |packets| + |skipped| < old(|packets|)
      ensures SeekLog(old(packets), packets, skipped, at, stop)
      ensures PlainLog(inMainObj, old(packets), packets, if stop.Some? then skipped + [stop.value] else skipped)
      ensures stop.Some? ==> |tnts| >= |TntsOf(stop.value)| && tnts[|tnts| - |TntsOf(stop.value)|..] == TntsOf(stop.value)
      ensures r.Ok? ==> |tnts| > 0
    {
      ghost var start := packets;
      skipped, stop, at := [], None, [];
      while true
        invariant Valid() && |packets| + |skipped| <= |start|
        invariant ReadLog(start, packets, skipped, at)
        invariant PlainLog(inMainObj, start, packets, skipped)
        invariant forall i :: 0 <= i < |skipped| ==> WellFormed(skipped[i]) && skipped[i].tntBits.None?
        invariant stop.None?
        decreases |packets|
      {
        var p := SeekReadLogged(start, skipped, at);
        if !p.Got? {
          r := if p.Failed? then Err(p.err) else Panic;
          return;
        }
        if p.pkt.tntBits.Some? {
          stop, r := Some(p.pkt), Ok(());
          return;
        }
        skipped, at := skipped + [p.pkt], at + [|start| - |packets| - 1];
      }
    }

    /**
     * `seek_tip`: reads packets until one updates the target IP, TIP.PGD
     * excepted; reading it moved the current location to its target. `stop`
     * is that packet and `skipped` the packets read and passed over before
     * it, none of which is such an update; `at` is as for `SeekTntOrTip`.
     * When every packet consumed was plain, `stop` is the first such update
     * in the stream (`PlainLog`).
     */
    method SeekTip() returns (r: StepResult<()>, ghost skipped: seq<Packet>, ghost stop: Option<Packet>,
                              ghost at: seq<nat>)
      requires Valid()
      modifies this, comprets
      ensures Valid() && |packets| + |skipped| <= old(|packets|)
      ensures forall i :: 0 <= i < |skipped| ==> WellFormed(skipped[i]) && !TipUpdate(skipped[i])
      ensures r.Ok? <==> stop.Some?
      ensures stop.Some? ==> WellFormed(stop.value) && TipUpdate(stop.value)
      ensures stop.Some? ==> |packets| + |skipped| < old(|packets|)
      ensures SeekLog(old(packets), packets, skipped, at, stop)
      ensures PlainLog(inMainObj, old(packets), packets, if stop.Some? then skipped + [stop.value] else skipped)
      ensures stop.Some? && stop.value.targetIp.Some? ==> curLoc == TargetLoc(inMainObj, stop.value.targetIp.value)
    {
      ghost var start := packets;
      skipped, stop, at := [], None, [];
      while true
        invariant Valid() && |packets| + |skipped| <= |start|
        invariant ReadLog(start, packets, skipped, at)
        invariant PlainLog(inMainObj, start, packets, skipped)
        invariant forall i :: 0 <= i < |skipped| ==> WellFormed(skipped[i]) && !TipUpdate(skipped[i])
        invariant stop.None?
        decreases |packets|
      {
        var p := SeekReadLogged(start, skipped, at);
        if !p.Got? {
          r := if p.Failed? then Err(p.err) else Panic;
          return;
        }
        if TipUpdate(p.pkt) {
          stop, r := Some(p.pkt), Ok(());
          return;
        }
        skipped, at := skipped + [p.pkt], at + [|start| - |packets| - 1];
      }
    }

    /**
     * `follow_conditional_successor`: pops TNT decisions from the front, one
     * per conditional branch ending the block, stopping at the first taken
     * one; control went to `takenTarget` iff some branch was taken. More
     * decisions are read from the packets whenever the buffer runs dry. No
     * branch, or more than two, is a failed assertion of the source (a panic).
     * `consumed` records the decisions popped, and `read` the decisions the
     * buffer held after each refill: the decisions popped are always the
     * front of the old buffer followed by those read.
     */
    method FollowConditionalSuccessor(numCondBrs: nat, takenTarget: nat, notTakenTarget: Option<nat>)
      returns (r: StepResult<nat>, ghost consumed: seq<bool>, ghost read: seq<bool>)
      requires Valid()
      modifies this, comprets
      ensures Valid()
      ensures numCondBrs == 0 || numCondBrs > 2 ==> r.Panic? && consumed == [] && tnts == old(tnts)
      ensures r.Ok? ==> 0 < |consumed| <= numCondBrs
      ensures r.Ok? ==> forall i :: 0 <= i < |consumed| - 1 ==> !consumed[i]
      ensures r.Ok? ==> (consumed[|consumed| - 1] || |consumed| == numCondBrs)
      ensures r.Ok? ==> (r.value == takenTarget && consumed[|consumed| - 1]) ||
                        (notTakenTarget.Some? && r.value == notTakenTarget.value && !consumed[|consumed| - 1])
      ensures r.Ok? && notTakenTarget.Some? && takenTarget != notTakenTarget.value ==>
        (r.value == takenTarget <==> true in consumed)
      ensures r.Ok? && !(true in consumed) ==> notTakenTarget.Some? && r.value == notTakenTarget.value
      ensures old(|tnts|) >= numCondBrs ==> r.Ok? || r.Panic?
      ensures old(tnts) + read == consumed + tnts
      ensures old(|tnts|) >= numCondBrs ==> read == []
    {
      consumed, read := [], [];
      if numCondBrs == 0 || numCondBrs > 2 {
        return Panic, consumed, read;
      }
      var taken := false;
      var i := 0;
      ghost var start := tnts;
      while i < numCondBrs
        invariant Valid()
        invariant 0 <= i <= numCondBrs && |consumed| == i
        invariant forall k :: 0 <= k < |consumed| ==> !consumed[k]
        invariant !taken
        invariant start + read == consumed + tnts
        invariant |start| >= numCondBrs ==> read == []
      {
        if tnts == [] {
          assert start + read == consumed;
          var s, _, _, _ := SeekTnt();
          read := read + tnts;
          assert start + read == consumed + tnts;
          if !s.Ok? {
            return (if s.Err? then Err(s.err) else Panic), consumed, read;
          }
        }
        assert consumed + tnts == (consumed + [tnts[0]]) + tnts[1..];
        var d := tnts[0];
        tnts := tnts[1..];
        consumed := consumed + [d];
        i := i + 1;
        if d {
          taken := true;
          break;
        }
      }
      if taken {
        r := Ok(takenTarget);
      } else if notTakenTarget.Some? {
        r := Ok(notTakenTarget.value);
      } else {
        // Divergent control flow is not handled by the source.
        r := Panic;
      }
    }

    /**
     * `is_return_compressed`: a return is compressed when TNT decisions are
     * buffered, or when the next TNT-or-TIP packet carries TNT bits. Compressed
     * returns are disabled at collection time, so finding one panics: the
     * method never answers `true`.
     */
    method IsReturnCompressed() returns (r: StepResult<bool>)
      requires Valid()
      modifies this, comprets
      ensures Valid()
      ensures r != Ok(true)
      ensures old(tnts) != [] ==> r.Panic?
    {
      var compressed: bool;
      if tnts != [] {
        compressed := true;
      } else {
        var p, _, _ := SeekTntOrTip(true, true);
        if p.Failed? {
          return Err(p.err);
        }
        if p.Panicked? {
          return Panic;
        }
        compressed := p.pkt.tntBits.Some?;
      }
      if compressed {
        return Panic;
      }
      r := Ok(compressed);
    }

    /**
     * The return-stack part of following a call found in the block map
     * (`maybe_follow_blockmap_call`): the call's return is pushed unless the
     * hardware would not compress it.
     */
    method NoteBlockMapCall(callsite: nat, isDirect: bool, target: Option<nat>, returnVaddr: nat)
      requires Valid()
      modifies comprets
      ensures Valid()
      ensures BlockMapCallPushes(isDirect, target, returnVaddr) ==>
        comprets.rets == Pushed(old(comprets.rets), AfterCall(callsite))
      ensures !BlockMapCallPushes(isDirect, target, returnVaddr) ==> comprets.rets == old(comprets.rets)
    {
      if target.None? || !isDirect || target.value != returnVaddr {
        comprets.Push(AfterCall(callsite));
      }
    }

    /**
     * The return-stack part of a direct call met while disassembling foreign
     * code: pushed unless it targets the next instruction.
     */
    method NoteDisassembledCall(targetVaddr: nat, nextIp: nat)
      requires Valid()
      modifies comprets
      ensures Valid()
      ensures DirectCallPushes(targetVaddr, nextIp) ==> comprets.rets == Pushed(old(comprets.rets), VAddr(nextIp))
      ensures !DirectCallPushes(targetVaddr, nextIp) ==> comprets.rets == old(comprets.rets)
    {
      if targetVaddr != nextIp {
        comprets.Push(VAddr(nextIp));
      }
    }
  }
}
