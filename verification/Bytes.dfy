/** The unsigned integers of the wire formats, and the copying of a piece of memory. */
module Bytes {
  type u8 = x: nat | x < 256
  type u16 = x: nat | x < 65536

  /** An unbounded count as its 16-bit field carries it. */
  function Wire(n: nat): u16 { n % 65536 }

  method Copy<T>(a: array<T>, at: nat, piece: seq<T>)
    requires at + |piece| <= a.Length
    modifies a
    ensures a[..] == old(a[..at]) + piece + old(a[at + |piece|..])
    ensures a[..at + |piece|] == old(a[..at]) + piece
  {
    forall i | 0 <= i < |piece| {
      a[at + i] := piece[i];
    }
  }
}
