/** Bytes, as numbers and as eight bits, words of 32 bits, and sequences of which a
    part is written over. */
module Bytes {
  type Byte = x: int | 0 <= x < 256

  type Octet = bv8

  type Word = bv32

  function Overlay<T>(bytes: seq<T>, off: nat, data: seq<T>): (r: seq<T>)
    requires off + |data| <= |bytes|
    ensures |r| == |bytes|
    ensures forall k :: 0 <= k < |r| ==> r[k] == if off <= k < off + |data| then data[k - off] else bytes[k]
  {
    bytes[..off] + data + bytes[off + |data|..]
  }

  lemma OverlayTwice<T>(s: seq<T>, off: nat, a: seq<T>, b: seq<T>)
    requires off + |a| + |b| <= |s|
    ensures Overlay(Overlay(s, off, a), off + |a|, b) == Overlay(s, off, a + b)
  {
    var x, y := Overlay(Overlay(s, off, a), off + |a|, b), Overlay(s, off, a + b);
    assert |x| == |y|;
    assert forall k :: 0 <= k < |x| ==> x[k] == y[k];
  }
}
