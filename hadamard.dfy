/** The Sylvester-Hadamard matrix of order 2^n described by its closed form:
    entry (i, j) is (-1)^popcount(i & j). This is the reference against which
    the in-place construction is proved, and the rows' orthogonality, which
    makes them usable as CDMA codes, is proved about it. */
module Hadamard {
  import opened Vectors

  /** 2^n, exactly (the source computes it in floating point). */
  function Pow2(n: nat): (r: nat)
    ensures r >= 1
  {
    if n == 0 then 1 else 2 * Pow2(n - 1)
  }

  lemma {:induction false} Pow2Monotone(m: nat, n: nat)
    requires m <= n
    ensures Pow2(m) <= Pow2(n)
    decreases n - m
  {
    if m < n {
      Pow2Monotone(m + 1, n);
    }
  }

  /** Bitwise and of two non-negative integers. */
  function BitAnd(x: nat, y: nat): nat
  {
    if x == 0 || y == 0 then 0
    else 2 * BitAnd(x / 2, y / 2) + (if x % 2 == 1 && y % 2 == 1 then 1 else 0)
  }

  /** Number of one bits of a non-negative integer. */
  function PopCount(x: nat): nat
  {
    if x == 0 then 0 else x % 2 + PopCount(x / 2)
  }

  /** (-1)^p. */
  function Sign(p: nat): int
  {
    if p % 2 == 0 then 1 else -1
  }

  lemma SignNext(p: nat)
    ensures Sign(p + 1) == -Sign(p)
  {
  }

  /** Entry (i, j) of every Sylvester-Hadamard matrix large enough to hold it:
      (-1)^popcount(i & j). */
  function Entry(i: nat, j: nat): int
  {
    Sign(PopCount(BitAnd(i, j)))
  }

  /** Row `a` of the Hadamard matrix of side `size`: the spreading code of station `a`. */
  function Row(a: nat, size: nat): (r: seq<int>)
    ensures |r| == size && forall j :: 0 <= j < size ==> r[j] == Entry(a, j)
  {
    seq(size, j requires 0 <= j => Entry(a, j))
  }

  /** Splits x into its lowest bit and the rest. */
  lemma LowBit(x: nat) returns (rest: nat, low: nat)
    ensures low < 2 && x == 2 * rest + low
  {
    rest, low := x / 2, x % 2;
  }

  /** Halving a number below 2h gives a number below h. */
  lemma HalfBelow(x: nat, rest: nat, low: nat, h: nat)
    requires low < 2 && x == 2 * rest + low && x < 2 * h
    ensures rest < h
  {
  }

  /** Bitwise and of two numbers given by their lowest bit and the rest. */
  lemma BitAndCons(x: nat, y: nat, xs: nat, ys: nat, lx: nat, ly: nat)
    requires lx < 2 && ly < 2 && x == 2 * xs + lx && y == 2 * ys + ly
    ensures BitAnd(x, y) == 2 * BitAnd(xs, ys) + (if lx == 1 && ly == 1 then 1 else 0)
  {
    assert x / 2 == xs && x % 2 == lx;
    assert y / 2 == ys && y % 2 == ly;
  }

  /** Population count of a number given by its lowest bit and the rest. */
  lemma PopCountCons(x: nat, x2: nat, bx: nat)
    requires bx < 2 && x == 2 * x2 + bx
    ensures PopCount(x) == PopCount(x2) + bx
  {
    assert x / 2 == x2 && x % 2 == bx;
  }

  lemma {:induction false} BitAndBound(x: nat, y: nat)
    ensures BitAnd(x, y) <= x
    decreases x
  {
    if x != 0 && y != 0 {
      BitAndBound(x / 2, y / 2);
    }
  }

  lemma {:induction false} BitAndCommutes(x: nat, y: nat)
    ensures BitAnd(x, y) == BitAnd(y, x)
    decreases x
  {
    if x != 0 && y != 0 {
      BitAndCommutes(x / 2, y / 2);
    }
  }

  /** Adding the bit k = 2^m above one operand leaves their bitwise and as it is. */
  lemma {:induction false} BitAndHighOne(m: nat, i: nat, j: nat)
    requires i < Pow2(m) && j < Pow2(m)
    ensures BitAnd(i + Pow2(m), j) == BitAnd(i, j)
    decreases m
  {
    if m == 0 {
      assert j == 0;
    } else {
      var h := Pow2(m - 1);
      assert Pow2(m) == 2 * h;
      var i2, bi := LowBit(i);
      var j2, bj := LowBit(j);
      assert i2 < h && j2 < h;
      BitAndHighOne(m - 1, i2, j2);
      BitAndCons(i + Pow2(m), j, i2 + h, j2, bi, bj);
      BitAndCons(i, j, i2, j2, bi, bj);
    }
  }

  /** One step of BitAndHighBoth: if adding the bit h above the upper parts
      of i and j adds h to their bitwise and, adding k = 2h above i and j adds k. */
  lemma BitAndHighBothStep(i: nat, j: nat, i2: nat, j2: nat, bi: nat, bj: nat, h: nat, k: nat)
    requires bi < 2 && bj < 2 && i == 2 * i2 + bi && j == 2 * j2 + bj && k == 2 * h
    requires BitAnd(i2 + h, j2 + h) == BitAnd(i2, j2) + h
    ensures BitAnd(i + k, j + k) == BitAnd(i, j) + k
  {
    BitAndCons(i + k, j + k, i2 + h, j2 + h, bi, bj);
    BitAndCons(i, j, i2, j2, bi, bj);
  }

  /** Adding the bit k = 2^m above both operands adds k to their bitwise and. */
  lemma {:induction false} BitAndHighBoth(m: nat, i: nat, j: nat)
    requires i < Pow2(m) && j < Pow2(m)
    ensures BitAnd(i + Pow2(m), j + Pow2(m)) == BitAnd(i, j) + Pow2(m)
    decreases m
  {
    var k := Pow2(m);
    if m == 0 {
      assert k == 1 && i == 0 && j == 0;
      BitAndCons(1, 1, 0, 0, 1, 1);
    } else {
      var h := Pow2(m - 1);
      var i2, bi := LowBit(i);
      var j2, bj := LowBit(j);
      assert BitAnd(i + k, j + k) == BitAnd(i, j) + k by {
        HalfBelow(i, i2, bi, h);
        HalfBelow(j, j2, bj, h);
        BitAndHighBoth(m - 1, i2, j2);
        BitAndHighBothStep(i, j, i2, j2, bi, bj, h, k);
      }
    }
  }

  /** Setting the bit k = 2^m above x adds one to its population count. */
  lemma {:induction false} PopCountHigh(m: nat, x: nat)
    requires x < Pow2(m)
    ensures PopCount(x + Pow2(m)) == PopCount(x) + 1
    decreases m
  {
    if m == 0 {
      assert x == 0 && Pow2(m) == 1;
      PopCountCons(x + Pow2(m), x, 1);
    } else {
      var h := Pow2(m - 1);
      assert Pow2(m) == 2 * h;
      var x2, bx := LowBit(x);
      assert x2 < h;
      PopCountHigh(m - 1, x2);
      PopCountCons(x + Pow2(m), x2 + h, bx);
      PopCountCons(x, x2, bx);
    }
  }

  /** Sylvester's doubling: with k = 2^m, the top-right and bottom-left k x k
      blocks of the order-2k matrix repeat the top-left block, and the
      bottom-right block is its negation. */
  lemma SylvesterBlocks(m: nat, i: nat, j: nat)
    requires i < Pow2(m) && j < Pow2(m)
    ensures Entry(i, j + Pow2(m)) == Entry(i, j)
    ensures Entry(i + Pow2(m), j) == Entry(i, j)
    ensures Entry(i + Pow2(m), j + Pow2(m)) == -Entry(i, j)
  {
    var k := Pow2(m);
    assert Entry(i + k, j) == Entry(i, j) by { BitAndHighOne(m, i, j); }
    assert Entry(i, j + k) == Entry(i, j) by {
      BitAndHighOne(m, j, i);
      BitAndCommutes(i, j + k);
      BitAndCommutes(i, j);
    }
    assert Entry(i + k, j + k) == -Entry(i, j) by {
      var b := BitAnd(i, j);
      BitAndHighBoth(m, i, j);
      BitAndBound(i, j);
      PopCountHigh(m, b);
      SignNext(PopCount(b));
    }
  }

  /** Row-wise form of the doubling: a row of the order-2k matrix is a row of
      the order-k matrix followed by itself (top half) or by its negation
      (bottom half). */
  lemma RowSplit(m: nat, a: nat)
    requires a < Pow2(m)
    ensures Row(a, 2 * Pow2(m)) == Row(a, Pow2(m)) + Row(a, Pow2(m))
    ensures Row(a + Pow2(m), 2 * Pow2(m)) == Row(a, Pow2(m)) + Neg(Row(a, Pow2(m)))
  {
    var k := Pow2(m);
    forall j | 0 <= j < 2 * k
      ensures Row(a, 2 * k)[j] == (Row(a, k) + Row(a, k))[j]
      ensures Row(a + k, 2 * k)[j] == (Row(a, k) + Neg(Row(a, k)))[j]
    {
      if j < k {
        SylvesterBlocks(m, a, j);
      } else {
        SylvesterBlocks(m, a, j - k);
      }
    }
  }

  lemma RowOne()
    ensures Row(0, 1) == [1]
  {
    assert Row(0, 1)[0] == Entry(0, 0) == 1;
  }

  /** Dot product of two vectors of the shape [x, x] or [x, -x]. */
  lemma HalvesDot(x: seq<int>, y: seq<int>, xTop: bool, yTop: bool)
    requires |x| == |y|
    ensures Dot(x + (if xTop then x else Neg(x)), y + (if yTop then y else Neg(y)))
         == if xTop == yTop then 2 * Dot(x, y) else 0
  {
    var sx, sy := if xTop then x else Neg(x), if yTop then y else Neg(y);
    DotAppend(x, y, sx, sy);
    DotNeg(x, y);
    DotNeg(x, Neg(y));
  }

  /** The index, within a half of side k, of index a < 2k. */
  function Low(a: nat, k: nat): nat
  {
    if a < k then a else a - k
  }

  /** The dot product of two rows of the order-2k matrix, k = 2^m, in terms of
      the dot product of the corresponding rows of the order-k matrix. */
  lemma RowDotSplit(m: nat, a: nat, b: nat)
    requires a < 2 * Pow2(m) && b < 2 * Pow2(m)
    ensures Dot(Row(a, 2 * Pow2(m)), Row(b, 2 * Pow2(m)))
         == if (a < Pow2(m)) == (b < Pow2(m))
            then 2 * Dot(Row(Low(a, Pow2(m)), Pow2(m)), Row(Low(b, Pow2(m)), Pow2(m)))
            else 0
  {
    var k := Pow2(m);
    var ra, rb := Row(Low(a, k), k), Row(Low(b, k), k);
    assert Row(a, 2 * k) == ra + (if a < k then ra else Neg(ra)) by { RowSplit(m, Low(a, k)); }
    assert Row(b, 2 * k) == rb + (if b < k then rb else Neg(rb)) by { RowSplit(m, Low(b, k)); }
    HalvesDot(ra, rb, a < k, b < k);
  }

  /** The rows of the order-2^m matrix are orthogonal codes: distinct rows have
      dot product 0, and every row dotted with itself gives the side 2^m. */
  lemma {:induction false} Orthogonal(m: nat, a: nat, b: nat)
    requires a < Pow2(m) && b < Pow2(m)
    ensures Dot(Row(a, Pow2(m)), Row(b, Pow2(m))) == if a == b then Pow2(m) else 0
    decreases m
  {
    if m == 0 {
      RowOne();
    } else {
      var h := Pow2(m - 1);
      Orthogonal(m - 1, Low(a, h), Low(b, h));
      RowDotSplit(m - 1, a, b);
    }
  }

  /** Row 0 is the all-ones code. */
  lemma RowZero(size: nat)
    ensures Row(0, size) == Ones(size)
  {
    forall j | 0 <= j < size
      ensures Row(0, size)[j] == 1
    {
    }
  }

  /** For n >= 1, every row other than row 0 holds as many +1 as -1 entries
      (half of each). */
  lemma BalancedRow(n: nat, a: nat)
    requires 0 < a < Pow2(n)
    ensures Count(Row(a, Pow2(n)), 1) == Count(Row(a, Pow2(n)), -1) == Pow2(n) / 2
  {
    var r := Row(a, Pow2(n));
    Orthogonal(n, a, 0);
    RowZero(Pow2(n));
    DotOnes(r);
    SignCounts(r);
  }
}
