/**
 * Bytes and the little-endian (x86-64 native) encoding of unsigned
 * integers, as `to_ne_bytes` produces it.
 */
module Bytes {
  /** A byte (`u8`). */
  newtype byte = x: int | 0 <= x < 256

  /** The `n` little-endian bytes of `x` (x86-64's native order), modulo 256^n. */
  function LeBytes(x: nat, n: nat): (r: seq<byte>)
    ensures |r| == n
  {
    if n == 0 then [] else [(x % 256) as byte] + LeBytes(x / 256, n - 1)
  }

  /** The number little-endian bytes `bs` stand for. */
  function FromLe(bs: seq<byte>): nat
  {
    if bs == [] then 0 else bs[0] as nat + 256 * FromLe(bs[1..])
  }

  function Pow256(n: nat): nat
  {
    if n == 0 then 1 else 256 * Pow256(n - 1)
  }

  lemma DivBound(x: nat, p: nat)
    requires x < 256 * p
    ensures x / 256 < p
  {
  }

  /** Decoding the bytes of a value that fits gives the value back. */
  lemma {:induction false} LeBytesRoundTrip(x: nat, n: nat)
    requires x < Pow256(n)
    ensures FromLe(LeBytes(x, n)) == x
    decreases n
  {
    if n > 0 {
      var q, m := x / 256, x % 256;
      assert q < Pow256(n - 1) by {
        DivBound(x, Pow256(n - 1));
      }
      LeBytesRoundTrip(q, n - 1);
      var bs := LeBytes(x, n);
      assert bs == [m as byte] + LeBytes(q, n - 1);
      assert FromLe(bs) == m + 256 * q;
    }
  }
}
