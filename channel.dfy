/** The deterministic part of the binary symmetric channel: inverting the
    bits a flip mask selects. */
module Channel {
  import opened Trellis
  import opened Metrics

  /** `bits` with every bit whose mask bit is 1 inverted. */
  function Flipped(bits: seq<Bit>, mask: seq<Bit>): (r: seq<Bit>)
    requires |mask| == |bits|
  {
    seq(|bits|, i requires 0 <= i < |bits| => if mask[i] == 1 then 1 - bits[i] else bits[i])
  }

  /** The number of 1s in a mask. */
  function Ones(mask: seq<Bit>): nat
  {
    if mask == [] then 0 else mask[0] + Ones(mask[1..])
  }

  /** The received string differs from the sent one exactly where the mask
      is 1, so its Hamming distance to it is the number of flips. */
  lemma {:induction false} FlipDistance(bits: seq<Bit>, mask: seq<Bit>)
    requires |mask| == |bits|
    ensures |Flipped(bits, mask)| == |bits|
    ensures forall i :: 0 <= i < |bits| ==> (Flipped(bits, mask)[i] != bits[i] <==> mask[i] == 1)
    ensures Dist(bits, Flipped(bits, mask)) == Ones(mask)
  {
    if bits != [] {
      FlipDistance(bits[1..], mask[1..]);
      assert Flipped(bits, mask)[1..] == Flipped(bits[1..], mask[1..]);
    }
  }

  /** Applying the same mask twice restores the input. */
  lemma FlipTwice(bits: seq<Bit>, mask: seq<Bit>)
    requires |mask| == |bits|
    ensures Flipped(Flipped(bits, mask), mask) == bits
  {
  }

  /** A mask of zeros passes the input through; a mask of ones inverts every bit. */
  lemma FlipExtremes(bits: seq<Bit>, mask: seq<Bit>)
    requires |mask| == |bits|
    ensures (forall i :: 0 <= i < |mask| ==> mask[i] == 0) ==> Flipped(bits, mask) == bits
    ensures (forall i :: 0 <= i < |mask| ==> mask[i] == 1) ==>
      forall i :: 0 <= i < |bits| ==> Flipped(bits, mask)[i] == 1 - bits[i]
  {
  }
}
