# CDMA decoding with Hadamard codes, in Dafny

This project models the CDMA example in `src/Main.java` and proves its promises.
The example has two parts:

- `generateHadamardMatrix(n)` builds the 2^n x 2^n Hadamard matrix in place, by Sylvester's doubling.
  It puts 1 in the top-left corner. Then, for k = 1, 2, 4, ..., it copies the built k x k block to the
  top-right and bottom-left, and writes its negation to the bottom-right.
  The rows of this matrix are the stations' orthogonal spreading codes.
- `calculateData(cdmaCode, H, stationIndex)` correlates the received vector with the station's row.
  It divides the dot product by the vector length, rounding toward zero as Java's `int` division does.

The model has three modules:

- `Vectors` (vectors.dfy) defines the dot product, accumulated front to back as the source's loop does.
  It also defines the vector operations that a received signal is built from, and their linearity lemmas.
- `Hadamard` (hadamard.dfy) defines the closed form `Entry(i, j) = (-1)^popcount(i & j)`, with bitwise
  and and population count on natural numbers. It proves that this closed form obeys Sylvester's doubling
  and that its rows are orthogonal.
- `Cdma` (cdma.dfy) holds the two source methods, written imperatively over `array2<int>` and `array<int>`.
  It also holds the truncating division and the CDMA recovery theorems.

`GenerateHadamardMatrix` keeps the source's loop that doubles `k`. Its two inner loops are the method
`DoubleBlock`, and the body of the innermost loop is `MirrorCell`. The body's four writes are kept as written,
including the no-op self-assignment of the top-left cell.

Three behaviours of the source that the model keeps:

- The decoder loops over `cdmaCode.length`, which may be shorter than the station's row. It does not
  demand equal lengths.
- The source does no argument checking and reports no errors of its own. Where Java would throw
  (index out of range, division by zero), the model has a precondition.
- The top-left self-assignment is kept.

The whole-program statement is the following. After `h := GenerateHadamardMatrix(n)`, `IsSylvester(h, n)`
holds. If the code vector holds `Superpose(vs, 2^n)`, then `CalculateData(code, h, s)` returns `vs[s]` for a
station that sent `vs[s]`, and 0 for a station that sent nothing (`CdmaRecovery` with `CalculateData`'s
postcondition). `GenerateHadamardMatrix`'s postcondition fixes every entry, so two calls with the same `n`
give identical matrices.

## Model

| member | source | states |
|---|---|---|
| `Hadamard.Pow2` | src/Main.java:6 | The matrix side 2^n is an exact power of two and at least 1. This replaces `(int) Math.pow(2, n)`. |
| `Hadamard.SylvesterBlocks` | src/Main.java:13-25 | Take k = 2^m and i, j < k. The closed form's top-right and bottom-left k x k blocks of the order-2k matrix equal the top-left block, and the bottom-right block is its negation. |
| `Hadamard.RowSplit` | src/Main.java:13-25 | The same doubling, row by row. Row a < k of the order-2k matrix is row a of order k twice. Row a + k is row a followed by its negation. |
| `Hadamard.Orthogonal` | src/Main.java:4-26 | For the order-2^m matrix, two distinct rows have dot product 0, and a row dotted with itself gives the side 2^m. |
| `Hadamard.BalancedRow` | src/Main.java:4-26 | Every row except row 0 holds exactly as many +1 entries as -1 entries, 2^n / 2 of each. |
| `Cdma.MirrorCell` | src/Main.java:16-23 | Cell (i, j) of the top-left block is copied to (i, j+k) and (i+k, j), and negated into (i+k, j+k). Every other cell keeps its value, including (i, j) itself. |
| `Cdma.DoubleBlock` | src/Main.java:14-25 | After the step for k: the top-left k x k block is unchanged, the top-right and bottom-left blocks are copies of it, and the bottom-right block is its negation. No cell outside the top-left 2k x 2k block changes. |
| `Cdma.GenerateHadamardMatrix` | src/Main.java:5-29 | Returns a new matrix with side 2^n in both dimensions. Entry (i, j) is (-1)^popcount(i & j). `H[0][0] == 1`, and every entry is +1 or -1. |
| `Cdma.StationCodeIsRow` | src/Main.java:33 | In a constructed matrix, the code the decoder reads for station s is the closed-form row s. |
| `Cdma.MatrixOrthogonal` | src/Main.java:4-28 | In a matrix built by the construction, distinct rows are orthogonal, and each row's square is the side 2^n. |
| `Cdma.TruncDiv` | src/Main.java:42 | a / b rounded toward zero, as Java's `int` division. The remainder a - q*b has the sign of a, and its magnitude is below b. |
| `Cdma.TruncDivExact` | src/Main.java:42 | An exact multiple v*b divides to v. |
| `Cdma.CalculateData` | src/Main.java:32-43 | Returns the dot product of the code vector with row `stationIndex` over the code's length, divided by that length and rounded toward zero. It requires the station index to be within the rows, and the code to be non-empty and no longer than a row. It modifies neither array. |
| `Cdma.DecodeScaled` | src/Main.java:31-42 | If the received vector is v times station s's code, decoding station s returns exactly v. |
| `Cdma.SuperposeCorrelation` | src/Main.java:36-39 | Correlate a superposition of stations t < len(vs), each sending vs[t] on its code, with station s's code. The result is vs[s] * 2^n for a sending station and 0 otherwise. The other stations cancel out. |
| `Cdma.DecodeSuperposition` | src/Main.java:31-42 | Decoding station s from such a superposition yields exactly vs[s], or 0 for a station that sent nothing. |
| `Cdma.CdmaRecovery` | src/Main.java:31-43 | The same recovery, for the rows of a matrix built by `GenerateHadamardMatrix`. These are the rows `CalculateData` reads. |

## Left out

- `printMatrix` (src/Main.java:46-50) and `main` (src/Main.java:52-68) are left out: they only print and wire the two methods.
  `main` fixes `n = 6` (:56) and station index 23 (:63), but it does not compile as written: `cdmaCode` at :60 has no
  initializer. So the source pins no received vector, and therefore no decoded value.
- `Hadamard.Pow2`: `Math.pow` is floating point. It is modelled as exact 2^n for n < 31, where the cast to `int` is exact.
  For n >= 31 the source saturates at `Integer.MAX_VALUE`. For negative n it yields size 0 and then fails at :10.
  Neither case is modelled: `n` is a natural number and `GenerateHadamardMatrix` requires n < 31.
- CalculateData: the accumulation at :38 uses mathematical integers. Java's 32-bit wrap-around of `data` is not modelled.
- CalculateData: Java's exceptions for a station index outside the matrix, or a code longer than the station's row, are preconditions here.
  So is the division by zero for an empty code. The source has no error handling of its own.
- Cdma.TruncDiv: defined for positive divisors only, the only kind the source divides by. The divisor is the code length, which the precondition keeps positive.
- Java's `int[][]` is an array of row arrays, which could be jagged or aliased. The model uses a rectangular `array2<int>`.
  That is the only shape `generateHadamardMatrix` produces.
- The 32-bit overflow of `k *= 2` at :13 cannot happen for n < 31, because k stays at most 2^29 when doubled. It is not modelled separately.
