/** The CDMA example: the matrix of orthogonal station codes built in place
    by Sylvester's doubling, and the decoder that recovers one station's data
    from a received vector by correlating it with that station's code. */
module Cdma {
  import opened Vectors
  import opened Hadamard

  /** `h` is the Sylvester-Hadamard matrix of order 2^n. */
  ghost predicate IsSylvester(h: array2<int>, n: nat)
    reads h
  {
    h.Length0 == Pow2(n) && h.Length1 == Pow2(n) &&
    forall i, j :: 0 <= i < h.Length0 && 0 <= j < h.Length1 ==> h[i, j] == Entry(i, j)
  }

  /** Row `s` of the matrix: the code of station `s`. */
  function StationCode(h: array2<int>, s: nat): (r: seq<int>)
    reads h
    requires s < h.Length0
    ensures |r| == h.Length1 && forall j :: 0 <= j < h.Length1 ==> r[j] == h[s, j]
  {
    seq(h.Length1, j requires 0 <= j < h.Length1 reads h => h[s, j])
  }

  /** The body of the innermost loop: cell (i, j) of the top-left k x k block is
      copied to the top-right and bottom-left blocks and negated into the
      bottom-right block; no other cell changes. */
  method MirrorCell(h: array2<int>, k: nat, i: nat, j: nat)
    requires i < k && j < k && 2 * k <= h.Length0 && 2 * k <= h.Length1
    modifies h
    ensures h[i, j + k] == old(h[i, j]) && h[i + k, j] == old(h[i, j]) && h[i + k, j + k] == -old(h[i, j])
    ensures forall r, c ::
      (0 <= r < h.Length0 && 0 <= c < h.Length1 &&
       !(r == i && c == j + k) && !(r == i + k && c == j) && !(r == i + k && c == j + k)) ==>
      h[r, c] == old(h[r, c])
  {
    // The top-left write is the source's self-assignment; it changes nothing.
    h[i, j] := h[i, j];
    h[i, j + k] := h[i, j];
    h[i + k, j] := h[i, j];
    h[i + k, j + k] := -h[i, j];
  }

  /** One doubling step, the two inner loops of the construction: the top-left
      k x k block is left as it is, the top-right and bottom-left blocks become
      copies of it and the bottom-right block its negation; nothing outside the
      top-left 2k x 2k block changes. */
  method DoubleBlock(h: array2<int>, k: nat)
    requires 2 * k <= h.Length0 && 2 * k <= h.Length1
    modifies h
    ensures forall i, j :: 0 <= i < k && 0 <= j < k ==>
      h[i, j] == old(h[i, j]) && h[i, j + k] == old(h[i, j]) &&
      h[i + k, j] == old(h[i, j]) && h[i + k, j + k] == -old(h[i, j])
    ensures forall i, j :: 0 <= i < h.Length0 && 0 <= j < h.Length1 && (2 * k <= i || 2 * k <= j) ==>
      h[i, j] == old(h[i, j])
  {
    for i := 0 to k
      invariant forall r, c :: 0 <= r < k && 0 <= c < k ==> h[r, c] == old(h[r, c])
      invariant forall r, c :: 0 <= r < i && 0 <= c < k ==>
        h[r, c + k] == old(h[r, c]) && h[r + k, c] == old(h[r, c]) && h[r + k, c + k] == -old(h[r, c])
      invariant forall r, c :: 0 <= r < h.Length0 && 0 <= c < h.Length1 && (2 * k <= r || 2 * k <= c) ==>
        h[r, c] == old(h[r, c])
    {
      for j := 0 to k
        invariant forall r, c :: 0 <= r < k && 0 <= c < k ==> h[r, c] == old(h[r, c])
        invariant forall r, c :: 0 <= r < k && 0 <= c < k && (r < i || (r == i && c < j)) ==>
          h[r, c + k] == old(h[r, c]) && h[r + k, c] == old(h[r, c]) && h[r + k, c + k] == -old(h[r, c])
        invariant forall r, c :: 0 <= r < h.Length0 && 0 <= c < h.Length1 && (2 * k <= r || 2 * k <= c) ==>
          h[r, c] == old(h[r, c])
      {
        MirrorCell(h, k, i, j);
      }
    }
  }

  /** Builds the 2^n x 2^n Hadamard matrix bottom-up: start from [1] in the
      top-left corner and double the built block until it fills the matrix. */
  method GenerateHadamardMatrix(n: nat) returns (hadamard: array2<int>)
    requires n < 31
    ensures fresh(hadamard)
    ensures IsSylvester(hadamard, n)
    ensures hadamard[0, 0] == 1
    ensures forall i, j :: 0 <= i < hadamard.Length0 && 0 <= j < hadamard.Length1 ==>
      hadamard[i, j] == 1 || hadamard[i, j] == -1
  {
    var size := Pow2(n);
    hadamard := new int[size, size]((_, _) => 0);
    hadamard[0, 0] := 1;
    var k := 1;
    ghost var m := 0;
    while k < size
      invariant hadamard.Length0 == size && hadamard.Length1 == size
      invariant m <= n && k == Pow2(m) && k <= size
      invariant forall i, j :: 0 <= i < k && 0 <= j < k ==> hadamard[i, j] == Entry(i, j)
      decreases size - k
    {
      assert m < n;
      Pow2Monotone(m + 1, n);
      DoubleBlock(hadamard, k);
      forall i, j | 0 <= i < 2 * k && 0 <= j < 2 * k
        ensures hadamard[i, j] == Entry(i, j)
      {
        SylvesterBlocks(m, Low(i, k), Low(j, k));
      }
      k, m := k * 2, m + 1;
    }
    Pow2Monotone(m, n);
  }

  /** Integer division rounding toward zero, the semantics of `/` on Java's
      `int` (Dafny's own `/` is Euclidean and differs for negative dividends). */
  function TruncDiv(a: int, b: int): (q: int)
    requires b > 0
    ensures a >= 0 ==> 0 <= a - q * b < b
    ensures a < 0 ==> -b < a - q * b <= 0
  {
    if a >= 0 then a / b else -((-a) / b)
  }

  /** A multiple of the divisor divides exactly. */
  lemma TruncDivExact(v: int, b: int)
    requires b > 0
    ensures TruncDiv(v * b, b) == v
  {
    var q := TruncDiv(v * b, b);
    var d := v - q;
    assert v * b - q * b == d * b;
    assert v >= 0 <==> v * b >= 0 by {
      if v >= 0 { assert v * b >= 0; } else { assert (-v) * b > 0; }
    }
  }

  /** The value the decoder computes for a received vector `code` and a station
      code at least as long: the correlation over the length of `code`, divided
      by that length and rounded toward zero. */
  function Decode(code: seq<int>, stationCode: seq<int>): int
    requires 0 < |code| <= |stationCode|
  {
    TruncDiv(Dot(code, stationCode[..|code|]), |code|)
  }

  /** Recovers the data of station `stationIndex` from the received vector:
      the dot product with the station's row of the matrix, divided by the
      vector's length, rounded toward zero. Neither array is modified. */
  method CalculateData(cdmaCode: array<int>, hadamardMatrix: array2<int>, stationIndex: int) returns (r: int)
    requires 0 <= stationIndex < hadamardMatrix.Length0
    requires 0 < cdmaCode.Length <= hadamardMatrix.Length1
    ensures r == Decode(cdmaCode[..], StationCode(hadamardMatrix, stationIndex))
  {
    ghost var stationCode := StationCode(hadamardMatrix, stationIndex);
    var data := 0;
    for i := 0 to cdmaCode.Length
      invariant data == Dot(cdmaCode[..i], stationCode[..i])
    {
      assert cdmaCode[..i + 1][..i] == cdmaCode[..i];
      assert stationCode[..i + 1][..i] == stationCode[..i];
      data := data + cdmaCode[i] * hadamardMatrix[stationIndex, i];
    }
    assert cdmaCode[..cdmaCode.Length] == cdmaCode[..];
    r := TruncDiv(data, cdmaCode.Length);
  }

  /** The vector received when every station t < |vs| transmits the value vs[t]
      spread by its code, all superposed on one channel of `size` chips. */
  function Superpose(vs: seq<int>, size: nat): (r: seq<int>)
    ensures |r| == size
    decreases |vs|
  {
    if |vs| == 0 then Zeros(size)
    else Add(Superpose(vs[..|vs| - 1], size), Scale(vs[|vs| - 1], Row(|vs| - 1, size)))
  }

  /** A row of a matrix built by the construction is the closed-form code. */
  lemma StationCodeIsRow(h: array2<int>, n: nat, s: nat)
    requires IsSylvester(h, n) && s < Pow2(n)
    ensures StationCode(h, s) == Row(s, Pow2(n))
  {
    assert forall j :: 0 <= j < Pow2(n) ==> StationCode(h, s)[j] == Row(s, Pow2(n))[j];
  }

  /** The rows of a matrix built by the construction are orthogonal codes. */
  lemma MatrixOrthogonal(h: array2<int>, n: nat, a: nat, b: nat)
    requires IsSylvester(h, n) && a < Pow2(n) && b < Pow2(n)
    ensures Dot(StationCode(h, a), StationCode(h, b)) == if a == b then Pow2(n) else 0
  {
    StationCodeIsRow(h, n, a);
    StationCodeIsRow(h, n, b);
    Orthogonal(n, a, b);
  }

  /** A station that alone sends v, spread by its code, is decoded as v. */
  lemma DecodeScaled(n: nat, s: nat, v: int)
    requires s < Pow2(n)
    ensures Decode(Scale(v, Row(s, Pow2(n))), Row(s, Pow2(n))) == v
  {
    var r := Row(s, Pow2(n));
    assert r[..|r|] == r;
    DotScale(v, r, r);
    Orthogonal(n, s, s);
    TruncDivExact(v, Pow2(n));
  }

  /** Correlating a superposition with station s's code leaves only station
      s's contribution: every other station's code is orthogonal to it. */
  lemma {:induction false} SuperposeCorrelation(n: nat, vs: seq<int>, s: nat)
    requires |vs| <= Pow2(n) && s < Pow2(n)
    ensures Dot(Superpose(vs, Pow2(n)), Row(s, Pow2(n))) == if s < |vs| then vs[s] * Pow2(n) else 0
    decreases |vs|
  {
    var size := Pow2(n);
    var rs := Row(s, size);
    if |vs| == 0 {
      DotZeros(rs);
    } else {
      var t := |vs| - 1;
      var prev := vs[..t];
      SuperposeCorrelation(n, prev, s);
      DotAdd(Superpose(prev, size), Scale(vs[t], Row(t, size)), rs);
      DotScale(vs[t], Row(t, size), rs);
      Orthogonal(n, t, s);
    }
  }

  /** CDMA recovery: decoding station s from the superposition of all the
      stations' spread data yields exactly the value station s sent (and 0
      for a station that sent nothing). */
  lemma DecodeSuperposition(n: nat, vs: seq<int>, s: nat)
    requires |vs| <= Pow2(n) && s < Pow2(n)
    ensures Decode(Superpose(vs, Pow2(n)), Row(s, Pow2(n))) == if s < |vs| then vs[s] else 0
  {
    var r := Row(s, Pow2(n));
    assert r[..Pow2(n)] == r;
    SuperposeCorrelation(n, vs, s);
    TruncDivExact(if s < |vs| then vs[s] else 0, Pow2(n));
  }

  /** The same recovery stated for a matrix built by the construction, which is
      what the decoder's postcondition speaks of. */
  lemma CdmaRecovery(h: array2<int>, n: nat, code: seq<int>, vs: seq<int>, s: nat)
    requires IsSylvester(h, n) && |vs| <= Pow2(n) && s < Pow2(n)
    requires code == Superpose(vs, Pow2(n))
    ensures Decode(code, StationCode(h, s)) == if s < |vs| then vs[s] else 0
  {
    StationCodeIsRow(h, n, s);
    DecodeSuperposition(n, vs, s);
  }
}
