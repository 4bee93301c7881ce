/** Hamming distance between bit strings and the error rate built on it. */
module Metrics {
  import opened Trellis

  /** Number of differing pairs when `a` and `b` are walked in step (as
      Python's `zip` does, which stops at the shorter one). */
  function Dist(a: seq<Bit>, b: seq<Bit>): nat
  {
    if a == [] || b == [] then 0
    else (if a[0] != b[0] then 1 else 0) + Dist(a[1..], b[1..])
  }

  /** The positions at which two equal-length strings differ. */
  ghost function DiffPositions(a: seq<Bit>, b: seq<Bit>): set<nat>
  {
    set i: nat | i < |a| && i < |b| && a[i] != b[i]
  }

  ghost function DiffPositionsFrom(a: seq<Bit>, b: seq<Bit>, k: nat): set<nat>
  {
    set i: nat | k <= i < |a| && i < |b| && a[i] != b[i]
  }

  lemma DiffPositionsStep(a: seq<Bit>, b: seq<Bit>, k: nat)
    requires k < |a| == |b|
    ensures k !in DiffPositionsFrom(a, b, k + 1)
    ensures a[k] != b[k] ==> DiffPositionsFrom(a, b, k) == DiffPositionsFrom(a, b, k + 1) + {k}
    ensures a[k] == b[k] ==> DiffPositionsFrom(a, b, k) == DiffPositionsFrom(a, b, k + 1)
  {
  }

  lemma {:induction false} DistFrom(a: seq<Bit>, b: seq<Bit>, k: nat)
    requires k <= |a| == |b|
    ensures Dist(a[k..], b[k..]) == |DiffPositionsFrom(a, b, k)|
    decreases |a| - k
  {
    if k == |a| {
      assert DiffPositionsFrom(a, b, k) == {};
    } else {
      DistFrom(a, b, k + 1);
      assert a[k..][1..] == a[k + 1..] && b[k..][1..] == b[k + 1..];
      DiffPositionsStep(a, b, k);
    }
  }

  /** The Hamming distance counts exactly the differing positions. */
  lemma DistCountsDifferences(a: seq<Bit>, b: seq<Bit>)
    requires |a| == |b|
    ensures Dist(a, b) == |DiffPositions(a, b)|
  {
    DistFrom(a, b, 0);
    assert a[0..] == a && b[0..] == b;
    assert DiffPositionsFrom(a, b, 0) == DiffPositions(a, b);
  }

  /** Two equal-length strings are at distance 0 exactly when they are equal. */
  lemma {:induction false} DistZeroIffEqual(a: seq<Bit>, b: seq<Bit>)
    requires |a| == |b|
    ensures Dist(a, b) == 0 <==> a == b
  {
    if a != [] {
      DistZeroIffEqual(a[1..], b[1..]);
      if a[0] == b[0] && a[1..] == b[1..] {
        assert a == [a[0]] + a[1..] && b == [b[0]] + b[1..];
      }
    }
  }

  /** The distance does not depend on the order of its arguments. */
  lemma {:induction false} DistSymmetric(a: seq<Bit>, b: seq<Bit>)
    ensures Dist(a, b) == Dist(b, a)
  {
    if a != [] && b != [] {
      DistSymmetric(a[1..], b[1..]);
    }
  }

  /** The distance never exceeds the length of either string. */
  lemma {:induction false} DistBounded(a: seq<Bit>, b: seq<Bit>)
    ensures Dist(a, b) <= |a| && Dist(a, b) <= |b|
  {
    if a != [] && b != [] {
      DistBounded(a[1..], b[1..]);
    }
  }

  /** `error`: the fraction of positions at which the decoded string
      differs from the original; over the reals. */
  function ErrorRate(original: seq<Bit>, decoded: seq<Bit>): Result<real>
  {
    if |original| == 0 then Err(ZeroLength)
    else if |original| != |decoded| then Err(LengthMismatch)
    else Ok(1.0 / (|original| as real) * (Dist(original, decoded) as real))
  }

  /** The error rate is a fraction in [0, 1], zero exactly when nothing was
      corrupted, and it is refused for strings of different lengths. */
  lemma ErrorRateBounds(original: seq<Bit>, decoded: seq<Bit>)
    ensures |original| > 0 && |original| != |decoded| ==> ErrorRate(original, decoded) == Err(LengthMismatch)
    ensures ErrorRate(original, decoded).Ok? ==>
      && 0.0 <= ErrorRate(original, decoded).value <= 1.0
      && (ErrorRate(original, decoded).value == 0.0 <==> original == decoded)
  {
    if |original| > 0 && |original| == |decoded| {
      DistBounded(original, decoded);
      DistZeroIffEqual(original, decoded);
      Fraction(|original| as real, Dist(original, decoded) as real);
    }
  }

  /** A count `d` out of `n > 0`, scaled as the error rate scales it. */
  lemma Fraction(n: real, d: real)
    requires 0.0 <= d <= n && n > 0.0
    ensures 0.0 <= 1.0 / n * d <= 1.0
    ensures 1.0 / n * d == 0.0 <==> d == 0.0
  {
    var inv := 1.0 / n;
    assert inv > 0.0;
    assert inv * n == 1.0;
    assert inv * d <= inv * n by {
      assert inv * (n - d) >= 0.0;
    }
  }
}
