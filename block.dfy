/**
 * A trace decoder's notion of a basic block (hwtracer/src/block.rs): either a
 * known virtual-address range or an unknown range.
 */
module Blocks {
  import opened Wrappers

  /** Virtual addresses are `usize` in the source: bounded explicitly here. */
  const USIZE_LIMIT: int := 0x1_0000_0000_0000_0000
  type BlockAddr = a: int | 0 <= a < USIZE_LIMIT

  datatype Block =
    | VAddrRange(firstInst: BlockAddr, lastInst: BlockAddr)
    | Unknown

  /** `Block::from_vaddr_range`: builds a known range; it is never `Unknown`. */
  function FromVAddrRange(firstInst: BlockAddr, lastInst: BlockAddr): (b: Block)
    ensures !b.Unknown?
    ensures b.VAddrRange? && b.firstInst == firstInst && b.lastInst == lastInst
  {
    VAddrRange(firstInst, lastInst)
  }

  /** `Block::is_unknown`. */
  predicate IsUnknown(b: Block)
  {
    b.Unknown?
  }

  /** `Block::vaddr_range`: the range of a known block, `None` for an unknown one. */
  function VAddrRangeOf(b: Block): (r: Option<(BlockAddr, BlockAddr)>)
    ensures r.None? <==> IsUnknown(b)
    ensures r.Some? ==> b == VAddrRange(r.value.0, r.value.1)
  {
    match b
    case VAddrRange(f, l) => Some((f, l))
    case Unknown => None
  }

  /** Building a block from a range and asking for its range gives the range back. */
  lemma RangeRoundTrip(firstInst: BlockAddr, lastInst: BlockAddr)
    ensures VAddrRangeOf(FromVAddrRange(firstInst, lastInst)) == Some((firstInst, lastInst))
    ensures !IsUnknown(FromVAddrRange(firstInst, lastInst))
  {
  }

  /** Conversely, a known block is rebuilt exactly from its range. */
  lemma BlockFromItsRange(b: Block)
    requires !IsUnknown(b)
    ensures VAddrRangeOf(b).Some?
    ensures FromVAddrRange(VAddrRangeOf(b).value.0, VAddrRangeOf(b).value.1) == b
  {
  }
}
