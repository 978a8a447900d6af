/** Integer vectors as sequences: the dot product that both the orthogonality
    of the Hadamard codes and the CDMA decoder are stated with, and the
    vector operations a received signal is built from. */
module Vectors {

  /** Dot product of two vectors of equal length, accumulated from the front,
      in the order a left-to-right loop adds the products. */
  function Dot(x: seq<int>, y: seq<int>): int
    requires |x| == |y|
    decreases |x|
  {
    if |x| == 0 then 0 else Dot(x[..|x| - 1], y[..|y| - 1]) + x[|x| - 1] * y[|y| - 1]
  }

  /** Sum of the entries, accumulated from the front. */
  function Sum(x: seq<int>): int
    decreases |x|
  {
    if |x| == 0 then 0 else Sum(x[..|x| - 1]) + x[|x| - 1]
  }

  /** Number of entries equal to `v`. */
  function Count(x: seq<int>, v: int): nat
    decreases |x|
  {
    if |x| == 0 then 0 else Count(x[..|x| - 1], v) + (if x[|x| - 1] == v then 1 else 0)
  }

  /** The entry-wise negation of `x`. */
  function Neg(x: seq<int>): (r: seq<int>)
    ensures |r| == |x| && forall i :: 0 <= i < |x| ==> r[i] == -x[i]
  {
    seq(|x|, i requires 0 <= i < |x| => -x[i])
  }

  /** `x` scaled by the integer `v`. */
  function Scale(v: int, x: seq<int>): (r: seq<int>)
    ensures |r| == |x| && forall i :: 0 <= i < |x| ==> r[i] == v * x[i]
  {
    seq(|x|, i requires 0 <= i < |x| => v * x[i])
  }

  /** Entry-wise sum of two vectors of equal length. */
  function Add(x: seq<int>, y: seq<int>): (r: seq<int>)
    requires |x| == |y|
    ensures |r| == |x| && forall i :: 0 <= i < |x| ==> r[i] == x[i] + y[i]
  {
    seq(|x|, i requires 0 <= i < |x| => x[i] + y[i])
  }

  /** The vector of `n` zeros. */
  function Zeros(n: nat): (r: seq<int>)
    ensures |r| == n && forall i :: 0 <= i < n ==> r[i] == 0
  {
    seq(n, _ => 0)
  }

  /** The vector of `n` ones. */
  function Ones(n: nat): (r: seq<int>)
    ensures |r| == n && forall i :: 0 <= i < n ==> r[i] == 1
  {
    seq(n, _ => 1)
  }

  /** The dot product of concatenations is the sum of the parts' dot products. */
  lemma {:induction false} DotAppend(x1: seq<int>, y1: seq<int>, x2: seq<int>, y2: seq<int>)
    requires |x1| == |y1| && |x2| == |y2|
    ensures Dot(x1 + x2, y1 + y2) == Dot(x1, y1) + Dot(x2, y2)
    decreases |x2|
  {
    if |x2| == 0 {
      assert x1 + x2 == x1 && y1 + y2 == y1;
    } else {
      var n := |x2| - 1;
      DotAppend(x1, y1, x2[..n], y2[..n]);
      assert (x1 + x2)[..|x1 + x2| - 1] == x1 + x2[..n];
      assert (y1 + y2)[..|y1 + y2| - 1] == y1 + y2[..n];
    }
  }

  /** Negating either argument negates the dot product. */
  lemma {:induction false} DotNeg(x: seq<int>, y: seq<int>)
    requires |x| == |y|
    ensures Dot(x, Neg(y)) == -Dot(x, y)
    ensures Dot(Neg(x), y) == -Dot(x, y)
    decreases |x|
  {
    if |x| != 0 {
      var n := |x| - 1;
      DotNeg(x[..n], y[..n]);
      assert Neg(y)[..n] == Neg(y[..n]);
      assert Neg(x)[..n] == Neg(x[..n]);
    }
  }

  /** The arithmetic of one step of DotScale: v distributes over a sum of a
      partial dot product and one more product. */
  lemma ScaleStep(v: int, d: int, a: int, b: int)
    ensures d * v + (v * a) * b == v * (d + a * b)
  {
    calc {
      v * (d + a * b);
      v * d + v * (a * b);
      { assert v * (a * b) == (v * a) * b; }
      d * v + (v * a) * b;
    }
  }

  /** Scaling the first argument scales the dot product. */
  lemma {:induction false} DotScale(v: int, x: seq<int>, y: seq<int>)
    requires |x| == |y|
    ensures Dot(Scale(v, x), y) == v * Dot(x, y)
    decreases |x|
  {
    if |x| != 0 {
      var n := |x| - 1;
      DotScale(v, x[..n], y[..n]);
      assert Scale(v, x)[..n] == Scale(v, x[..n]);
      ScaleStep(v, Dot(x[..n], y[..n]), x[n], y[n]);
    }
  }

  /** The dot product is additive in its first argument. */
  lemma {:induction false} DotAdd(x: seq<int>, y: seq<int>, z: seq<int>)
    requires |x| == |y| == |z|
    ensures Dot(Add(x, y), z) == Dot(x, z) + Dot(y, z)
    decreases |x|
  {
    if |x| != 0 {
      var n := |x| - 1;
      DotAdd(x[..n], y[..n], z[..n]);
      assert Add(x, y)[..n] == Add(x[..n], y[..n]);
    }
  }

  /** The zero vector is orthogonal to everything. */
  lemma {:induction false} DotZeros(z: seq<int>)
    ensures Dot(Zeros(|z|), z) == 0
    decreases |z|
  {
    if |z| != 0 {
      var n := |z| - 1;
      DotZeros(z[..n]);
      assert Zeros(|z|)[..n] == Zeros(n);
    }
  }

  /** Dotting with the all-ones vector sums the entries. */
  lemma {:induction false} DotOnes(x: seq<int>)
    ensures Dot(x, Ones(|x|)) == Sum(x)
    decreases |x|
  {
    if |x| != 0 {
      var n := |x| - 1;
      DotOnes(x[..n]);
      assert Ones(|x|)[..n] == Ones(n);
    }
  }

  /** A vector whose entries are all +1 or -1 has as many +1 entries as -1
      entries exactly when its entries sum to zero. */
  lemma {:induction false} SignCounts(x: seq<int>)
    requires forall i :: 0 <= i < |x| ==> x[i] == 1 || x[i] == -1
    ensures Count(x, 1) + Count(x, -1) == |x|
    ensures Count(x, 1) - Count(x, -1) == Sum(x)
    decreases |x|
  {
    if |x| != 0 {
      SignCounts(x[..|x| - 1]);
    }
  }
}
