/**
 * The Hill cipher's key (`src/key/matrix.rs`): a square matrix of code
 * points, 2x2 or 3x3, with its determinant, adjugate and inverse taken
 * modulo 26.
 *
 * The textbook definitions (`Det` by expansion along the first row,
 * `Adjugate` as the transposed cofactors) are the reference the library's
 * hand-written formulas are proved against.
 *
 * The library's `modulo(x, 26)` is written `x % Modulus`: Dafny's `%` is
 * Euclidean, and `Arith.Modulo` is proved to agree with it for a positive
 * modulus.
 */
module Matrices {
  import opened Wrappers
  import opened Permutations
  import opened Arith
  import opened LangAlphabets
  import opened Languages

  /** The modulus the key's arithmetic is hard-wired to. */
  const Modulus: int := 26

  /** `m` has `n` rows of `n` entries. */
  predicate IsSquare(m: seq<seq<int>>, n: int) {
    |m| == n && forall i :: 0 <= i < n ==> |m[i]| == n
  }

  /** The two shapes the key's operations handle. */
  predicate Supported(m: seq<seq<int>>, n: int) {
    (n == 2 || n == 3) && IsSquare(m, n)
  }

  /** Every entry is a code point of the 26-letter alphabet. */
  predicate Entries26(m: seq<seq<int>>) {
    forall i, j :: 0 <= i < |m| && 0 <= j < |m[i]| ==> 0 <= m[i][j] < Modulus
  }

  /** `vec![vec![0; n]; n]`. */
  function Zeros(n: nat): (r: seq<seq<int>>)
    ensures IsSquare(r, n)
  {
    seq(n, _ => seq(n, _ => 0))
  }

  /** The `n`x`n` identity matrix. */
  function IdentityMatrix(n: nat): (r: seq<seq<int>>)
    ensures IsSquare(r, n)
  {
    seq(n, i => seq(n, j => if i == j then 1 else 0))
  }

  /** `n * n`, the number of entries of a supported shape. */
  function Area(n: int): int {
    if n == 2 then 4 else 9
  }

  /** `i * n + j`, where entry `(i, j)` sits in a row-major list of a supported shape. */
  function Flat(n: int, i: int, j: int): int {
    if n == 2 then 2 * i + j else 3 * i + j
  }

  /** `Area` and `Flat` are the products the library writes. */
  lemma AreaFlat(n: int, i: int, j: int)
    requires n == 2 || n == 3
    ensures Area(n) == n * n && Flat(n, i, j) == i * n + j
  {
  }

  /** The square matrix whose row `i` is `vec[i * n .. i * n + n]`. */
  function RowMajor(vec: seq<int>, n: int): (r: seq<seq<int>>)
    requires (n == 2 || n == 3) && |vec| == Area(n)
    ensures IsSquare(r, n)
  {
    seq(n, i requires 0 <= i < n => seq(n, j requires 0 <= j < n => vec[Flat(n, i, j)]))
  }

  /** The rows of `m` one after the other, as `to_string` writes them. */
  function Flattened(m: seq<seq<int>>): seq<int> {
    if m == [] then [] else Flattened(m[..|m| - 1]) + m[|m| - 1]
  }

  /** The flattening of two or three rows, written out. */
  lemma FlattenedRows(m: seq<seq<int>>)
    requires |m| == 2 || |m| == 3
    ensures |m| == 2 ==> Flattened(m) == m[0] + m[1]
    ensures |m| == 3 ==> Flattened(m) == m[0] + m[1] + m[2]
  {
    assert m[..1][..0] == [];
    assert Flattened(m[..1]) == m[0];
    if |m| == 3 {
      assert m[..2][..1] == m[..1];
      assert Flattened(m[..2]) == m[0] + m[1];
    } else {
      assert m[..1] == m[..|m| - 1];
    }
  }

  /** Flattening the matrix built from `vec` gives `vec` back. */
  lemma FlattenedRowMajor(vec: seq<int>, n: int)
    requires (n == 2 || n == 3) && |vec| == Area(n)
    ensures Flattened(RowMajor(vec, n)) == vec
  {
    var m := RowMajor(vec, n);
    FlattenedRows(m);
    assert m[0] == vec[..n] && m[1] == vec[n..2 * n];
    if n == 2 {
      assert vec == vec[..n] + vec[n..2 * n];
    } else {
      assert m[2] == vec[2 * n..];
      assert vec == vec[..n] + vec[n..2 * n] + vec[2 * n..];
    }
  }

  /** Building a matrix from the flattening of a supported matrix gives the matrix back. */
  lemma RowMajorFlattened(m: seq<seq<int>>, n: int)
    requires Supported(m, n)
    ensures |Flattened(m)| == Area(n) && RowMajor(Flattened(m), n) == m
  {
    FlattenedRows(m);
    var v := Flattened(m);
    forall i | 0 <= i < n ensures RowMajor(v, n)[i] == m[i] {
      assert forall j | 0 <= j < n :: v[Flat(n, i, j)] == m[i][j];
    }
  }

  /* ------------------------------------------------------------------ */
  /*                     the textbook definitions                       */
  /* ------------------------------------------------------------------ */

  /** `x2_det(a, b, c, d)`: the determinant of `[[a, b], [c, d]]`. */
  function X2Det(a: int, b: int, c: int, d: int): int {
    a * d - b * c
  }

  /** The minor of entry `(r, c)`: the determinant left once row `r` and column `c` are struck out. */
  function Minor(m: seq<seq<int>>, n: int, r: int, c: int): int
    requires Supported(m, n) && 0 <= r < n && 0 <= c < n
  {
    if n == 2 then m[1 - r][1 - c]
    else
      var r0, r1 := if r == 0 then 1 else 0, if r == 2 then 1 else 2;
      var c0, c1 := if c == 0 then 1 else 0, if c == 2 then 1 else 2;
      X2Det(m[r0][c0], m[r0][c1], m[r1][c0], m[r1][c1])
  }

  /** The cofactor of entry `(r, c)`: its minor with the sign `(-1)^(r + c)`. */
  function Cofactor(m: seq<seq<int>>, n: int, r: int, c: int): int
    requires Supported(m, n) && 0 <= r < n && 0 <= c < n
  {
    if (r + c) % 2 == 0 then Minor(m, n, r, c) else -Minor(m, n, r, c)
  }

  /** The determinant, expanded along the first row. */
  function Det(m: seq<seq<int>>, n: int): int
    requires Supported(m, n)
  {
    if n == 2 then m[0][0] * Cofactor(m, 2, 0, 0) + m[0][1] * Cofactor(m, 2, 0, 1)
    else m[0][0] * Cofactor(m, 3, 0, 0) + m[0][1] * Cofactor(m, 3, 0, 1) + m[0][2] * Cofactor(m, 3, 0, 2)
  }

  /** The adjugate: the transpose of the matrix of cofactors. */
  function Adjugate(m: seq<seq<int>>, n: int): (r: seq<seq<int>>)
    requires Supported(m, n)
    ensures IsSquare(r, n)
  {
    seq(n, i requires 0 <= i < n => seq(n, j requires 0 <= j < n => Cofactor(m, n, j, i)))
  }

  /** Entry `(i, j)` of the product `a * b`, before any reduction. */
  function Dot(a: seq<seq<int>>, b: seq<seq<int>>, n: int, i: int, j: int): int
    requires Supported(a, n) && Supported(b, n) && 0 <= i < n && 0 <= j < n
  {
    if n == 2 then a[i][0] * b[0][j] + a[i][1] * b[1][j]
    else a[i][0] * b[0][j] + a[i][1] * b[1][j] + a[i][2] * b[2][j]
  }

  /** `a * b` is the identity modulo 26. */
  predicate InverseMod(a: seq<seq<int>>, b: seq<seq<int>>, n: int)
    requires Supported(a, n) && Supported(b, n)
  {
    forall i, j :: 0 <= i < n && 0 <= j < n ==> Dot(a, b, n, i, j) % Modulus == if i == j then 1 else 0
  }

  /** Each 2x2 entry of `m * adj(m)` and `adj(m) * m` is the determinant on the diagonal and 0 off it. */
  lemma AdjugateProduct2(m: seq<seq<int>>)
    requires Supported(m, 2)
    ensures forall i, j :: 0 <= i < 2 && 0 <= j < 2 ==>
      Dot(m, Adjugate(m, 2), 2, i, j) == (if i == j then Det(m, 2) else 0) &&
      Dot(Adjugate(m, 2), m, 2, i, j) == (if i == j then Det(m, 2) else 0)
  {
  }

  /** The 3x3 adjugate written out entry by entry. */
  lemma Adjugate3Entries(m: seq<seq<int>>)
    requires Supported(m, 3)
    ensures var a := Adjugate(m, 3);
      a[0] == [X2Det(m[1][1], m[1][2], m[2][1], m[2][2]), -X2Det(m[0][1], m[0][2], m[2][1], m[2][2]), X2Det(m[0][1], m[0][2], m[1][1], m[1][2])] &&
      a[1] == [-X2Det(m[1][0], m[1][2], m[2][0], m[2][2]), X2Det(m[0][0], m[0][2], m[2][0], m[2][2]), -X2Det(m[0][0], m[0][2], m[1][0], m[1][2])] &&
      a[2] == [X2Det(m[1][0], m[1][1], m[2][0], m[2][1]), -X2Det(m[0][0], m[0][1], m[2][0], m[2][1]), X2Det(m[0][0], m[0][1], m[1][0], m[1][1])]
  {
    var a := Adjugate(m, 3);
    assert a[0] == [Cofactor(m, 3, 0, 0), Cofactor(m, 3, 1, 0), Cofactor(m, 3, 2, 0)];
    assert a[1] == [Cofactor(m, 3, 0, 1), Cofactor(m, 3, 1, 1), Cofactor(m, 3, 2, 1)];
    assert a[2] == [Cofactor(m, 3, 0, 2), Cofactor(m, 3, 1, 2), Cofactor(m, 3, 2, 2)];
  }

  /**
   * The rows `x`, `y`, `z` of a 3x3 matrix times the first column of its
   * adjugate: the determinant `d` for row `x`, 0 for the others.
   * Polynomial identities in the nine entries.
   */
  lemma AdjugateRowIdentities0(x0: int, x1: int, x2: int, y0: int, y1: int, y2: int, z0: int, z1: int, z2: int, d: int)
    requires d == x0 * X2Det(y1, y2, z1, z2) - x1 * X2Det(y0, y2, z0, z2) + x2 * X2Det(y0, y1, z0, z1)
    ensures x0 * X2Det(y1, y2, z1, z2) + x1 * -X2Det(y0, y2, z0, z2) + x2 * X2Det(y0, y1, z0, z1) == d
    ensures y0 * X2Det(y1, y2, z1, z2) + y1 * -X2Det(y0, y2, z0, z2) + y2 * X2Det(y0, y1, z0, z1) == 0
    ensures z0 * X2Det(y1, y2, z1, z2) + z1 * -X2Det(y0, y2, z0, z2) + z2 * X2Det(y0, y1, z0, z1) == 0
  {
  }

  /** The same for the adjugate's second column. */
  lemma AdjugateRowIdentities1(x0: int, x1: int, x2: int, y0: int, y1: int, y2: int, z0: int, z1: int, z2: int, d: int)
    requires d == x0 * X2Det(y1, y2, z1, z2) - x1 * X2Det(y0, y2, z0, z2) + x2 * X2Det(y0, y1, z0, z1)
    ensures x0 * -X2Det(x1, x2, z1, z2) + x1 * X2Det(x0, x2, z0, z2) + x2 * -X2Det(x0, x1, z0, z1) == 0
    ensures y0 * -X2Det(x1, x2, z1, z2) + y1 * X2Det(x0, x2, z0, z2) + y2 * -X2Det(x0, x1, z0, z1) == d
    ensures z0 * -X2Det(x1, x2, z1, z2) + z1 * X2Det(x0, x2, z0, z2) + z2 * -X2Det(x0, x1, z0, z1) == 0
  {
  }

  /** The same for the adjugate's third column. */
  lemma AdjugateRowIdentities2(x0: int, x1: int, x2: int, y0: int, y1: int, y2: int, z0: int, z1: int, z2: int, d: int)
    requires d == x0 * X2Det(y1, y2, z1, z2) - x1 * X2Det(y0, y2, z0, z2) + x2 * X2Det(y0, y1, z0, z1)
    ensures x0 * X2Det(x1, x2, y1, y2) + x1 * -X2Det(x0, x2, y0, y2) + x2 * X2Det(x0, x1, y0, y1) == 0
    ensures y0 * X2Det(x1, x2, y1, y2) + y1 * -X2Det(x0, x2, y0, y2) + y2 * X2Det(x0, x1, y0, y1) == 0
    ensures z0 * X2Det(x1, x2, y1, y2) + z1 * -X2Det(x0, x2, y0, y2) + z2 * X2Det(x0, x1, y0, y1) == d
  {
  }

  /**
   * The first row of the adjugate of a 3x3 matrix whose columns are `x`,
   * `y`, `z`, times each column: the determinant `d` for `x`, 0 for the
   * others.
   */
  lemma AdjugateColumnIdentities0(x0: int, x1: int, x2: int, y0: int, y1: int, y2: int, z0: int, z1: int, z2: int, d: int)
    requires d == x0 * X2Det(y1, z1, y2, z2) - y0 * X2Det(x1, z1, x2, z2) + z0 * X2Det(x1, y1, x2, y2)
    ensures X2Det(y1, z1, y2, z2) * x0 + -X2Det(y0, z0, y2, z2) * x1 + X2Det(y0, z0, y1, z1) * x2 == d
    ensures X2Det(y1, z1, y2, z2) * y0 + -X2Det(y0, z0, y2, z2) * y1 + X2Det(y0, z0, y1, z1) * y2 == 0
    ensures X2Det(y1, z1, y2, z2) * z0 + -X2Det(y0, z0, y2, z2) * z1 + X2Det(y0, z0, y1, z1) * z2 == 0
  {
  }

  /** The same for the adjugate's second row. */
  lemma AdjugateColumnIdentities1(x0: int, x1: int, x2: int, y0: int, y1: int, y2: int, z0: int, z1: int, z2: int, d: int)
    requires d == x0 * X2Det(y1, z1, y2, z2) - y0 * X2Det(x1, z1, x2, z2) + z0 * X2Det(x1, y1, x2, y2)
    ensures -X2Det(x1, z1, x2, z2) * x0 + X2Det(x0, z0, x2, z2) * x1 + -X2Det(x0, z0, x1, z1) * x2 == 0
    ensures -X2Det(x1, z1, x2, z2) * y0 + X2Det(x0, z0, x2, z2) * y1 + -X2Det(x0, z0, x1, z1) * y2 == d
    ensures -X2Det(x1, z1, x2, z2) * z0 + X2Det(x0, z0, x2, z2) * z1 + -X2Det(x0, z0, x1, z1) * z2 == 0
  {
  }

  /** The same for the adjugate's third row. */
  lemma AdjugateColumnIdentities2(x0: int, x1: int, x2: int, y0: int, y1: int, y2: int, z0: int, z1: int, z2: int, d: int)
    requires d == x0 * X2Det(y1, z1, y2, z2) - y0 * X2Det(x1, z1, x2, z2) + z0 * X2Det(x1, y1, x2, y2)
    ensures X2Det(x1, y1, x2, y2) * x0 + -X2Det(x0, y0, x2, y2) * x1 + X2Det(x0, y0, x1, y1) * x2 == 0
    ensures X2Det(x1, y1, x2, y2) * y0 + -X2Det(x0, y0, x2, y2) * y1 + X2Det(x0, y0, x1, y1) * y2 == 0
    ensures X2Det(x1, y1, x2, y2) * z0 + -X2Det(x0, y0, x2, y2) * z1 + X2Det(x0, y0, x1, y1) * z2 == d
  {
  }

  /** `m * adj(m) == adj(m) * m == det(m) * I` for a 3x3 matrix. */
  lemma AdjugateProduct3(m: seq<seq<int>>)
    requires Supported(m, 3)
    ensures forall i, j :: 0 <= i < 3 && 0 <= j < 3 ==>
      Dot(m, Adjugate(m, 3), 3, i, j) == (if i == j then Det(m, 3) else 0) &&
      Dot(Adjugate(m, 3), m, 3, i, j) == (if i == j then Det(m, 3) else 0)
  {
    Adjugate3Entries(m);
    var d := Det(m, 3);
    AdjugateRowIdentities0(m[0][0], m[0][1], m[0][2], m[1][0], m[1][1], m[1][2], m[2][0], m[2][1], m[2][2], d);
    AdjugateRowIdentities1(m[0][0], m[0][1], m[0][2], m[1][0], m[1][1], m[1][2], m[2][0], m[2][1], m[2][2], d);
    AdjugateRowIdentities2(m[0][0], m[0][1], m[0][2], m[1][0], m[1][1], m[1][2], m[2][0], m[2][1], m[2][2], d);
    AdjugateColumnIdentities0(m[0][0], m[1][0], m[2][0], m[0][1], m[1][1], m[2][1], m[0][2], m[1][2], m[2][2], d);
    AdjugateColumnIdentities1(m[0][0], m[1][0], m[2][0], m[0][1], m[1][1], m[2][1], m[0][2], m[1][2], m[2][2], d);
    AdjugateColumnIdentities2(m[0][0], m[1][0], m[2][0], m[0][1], m[1][1], m[2][1], m[0][2], m[1][2], m[2][2], d);
  }

  /** `m * adj(m) == adj(m) * m == det(m) * I`. */
  lemma AdjugateProduct(m: seq<seq<int>>, n: int, i: int, j: int)
    requires Supported(m, n) && 0 <= i < n && 0 <= j < n
    ensures Dot(m, Adjugate(m, n), n, i, j) == (if i == j then Det(m, n) else 0)
    ensures Dot(Adjugate(m, n), m, n, i, j) == (if i == j then Det(m, n) else 0)
  {
    if n == 2 {
      AdjugateProduct2(m);
    } else {
      AdjugateProduct3(m);
    }
  }

  /* ------------------------------------------------------------------ */
  /*                   the library's determinant formulas               */
  /* ------------------------------------------------------------------ */

  /** `calc_a`: the three products of the rule of Sarrus taken with `+`. */
  function CalcA(m: seq<seq<int>>): int
    requires IsSquare(m, 3)
  {
    m[0][0] * m[1][1] * m[2][2] + m[0][1] * m[1][2] * m[2][0] + m[0][2] * m[1][0] * m[2][1]
  }

  /** `calc_b`: the three products of the rule of Sarrus taken with `-`. */
  function CalcB(m: seq<seq<int>>): int
    requires IsSquare(m, 3)
  {
    m[0][0] * m[1][2] * m[2][1] + m[0][1] * m[1][0] * m[2][2] + m[0][2] * m[1][1] * m[2][0]
  }

  /** `x2_det` on the four entries is the determinant of a 2x2 matrix. */
  lemma X2DetIsDet(m: seq<seq<int>>)
    requires Supported(m, 2)
    ensures X2Det(m[0][0], m[0][1], m[1][0], m[1][1]) == Det(m, 2)
  {
  }

  /** The rule of Sarrus is the determinant of a 3x3 matrix. */
  lemma SarrusIsDet(m: seq<seq<int>>)
    requires Supported(m, 3)
    ensures CalcA(m) - CalcB(m) == Det(m, 3)
  {
  }

  /** `x2_det_matrix`: the determinant of a 2x2 matrix, reduced into `0..26`. */
  function X2DetMatrix(m: seq<seq<int>>): (r: int)
    requires Supported(m, 2)
    ensures 0 <= r < Modulus && r == Det(m, 2) % Modulus
  {
    X2DetIsDet(m);
    X2Det(m[0][0], m[0][1], m[1][0], m[1][1]) % Modulus
  }

  /** `x3_det_matrix`: the determinant of a 3x3 matrix, reduced into `0..26`. */
  function X3DetMatrix(m: seq<seq<int>>): (r: int)
    requires Supported(m, 3)
    ensures 0 <= r < Modulus && r == Det(m, 3) % Modulus
  {
    SarrusIsDet(m);
    (CalcA(m) - CalcB(m)) % Modulus
  }

  /** The reduced determinant `invert` and `is_invertible` take for each shape. */
  function DetResidue(m: seq<seq<int>>, n: int): (r: int)
    requires Supported(m, n)
    ensures 0 <= r < Modulus && r == Det(m, n) % Modulus
  {
    if n == 2 then X2DetMatrix(m) else X3DetMatrix(m)
  }

  /**
   * The list `adj` of `invert`, row-major: for 2x2 `[m11, -m01, -m10, m00]`
   * with the negated entries reduced, for 3x3 the nine signed 2x2 minors
   * reduced. Entry `i * n + j` agrees with the adjugate modulo 26.
   */
  function AdjugateList(m: seq<seq<int>>, n: int): (r: seq<int>)
    requires Supported(m, n)
    ensures |r| == Area(n)
  {
    if n == 2 then
      [m[1][1], (-m[0][1]) % Modulus, (-m[1][0]) % Modulus, m[0][0]]
    else
      [ X2Det(m[1][1], m[1][2], m[2][1], m[2][2]) % Modulus,
        (-X2Det(m[0][1], m[0][2], m[2][1], m[2][2])) % Modulus,
        X2Det(m[0][1], m[0][2], m[1][1], m[1][2]) % Modulus,
        (-X2Det(m[1][0], m[1][2], m[2][0], m[2][2])) % Modulus,
        X2Det(m[0][0], m[0][2], m[2][0], m[2][2]) % Modulus,
        (-X2Det(m[0][0], m[0][2], m[1][0], m[1][2])) % Modulus,
        X2Det(m[1][0], m[1][1], m[2][0], m[2][1]) % Modulus,
        (-X2Det(m[0][0], m[0][1], m[2][0], m[2][1])) % Modulus,
        X2Det(m[0][0], m[0][1], m[1][0], m[1][1]) % Modulus ]
  }

  /** Entry `i * n + j` of `adj` is the adjugate's entry `(i, j)`, modulo 26. */
  lemma AdjugateListAgrees(m: seq<seq<int>>, n: int, i: int, j: int)
    requires Supported(m, n) && 0 <= i < n && 0 <= j < n
    ensures AdjugateList(m, n)[Flat(n, i, j)] % Modulus == Adjugate(m, n)[i][j] % Modulus
  {
    var a, k := Adjugate(m, n), Flat(n, i, j);
    RowMajorFlattened(a, n);
    assert a[i][j] == RowMajor(Flattened(a), n)[i][j] == Flattened(a)[k];
    AdjugateListFlat(m, n);
  }

  /** The `adj` list is the flattened adjugate, entry by entry modulo 26. */
  lemma AdjugateListFlat(m: seq<seq<int>>, n: int)
    requires Supported(m, n)
    ensures |Flattened(Adjugate(m, n))| == Area(n)
    ensures forall k :: 0 <= k < Area(n) ==> AdjugateList(m, n)[k] % Modulus == Flattened(Adjugate(m, n))[k] % Modulus
  {
    if n == 2 {
      AdjugateList2(m);
    } else {
      AdjugateList3(m);
    }
  }

  /** The 2x2 `adj` list is the flattened adjugate with its negated entries reduced. */
  lemma AdjugateList2(m: seq<seq<int>>)
    requires Supported(m, 2)
    ensures |Flattened(Adjugate(m, 2))| == 4
    ensures forall k :: 0 <= k < 4 ==> AdjugateList(m, 2)[k] % Modulus == Flattened(Adjugate(m, 2))[k] % Modulus
  {
    var a := Adjugate(m, 2);
    assert a[0] == [m[1][1], -m[0][1]] && a[1] == [-m[1][0], m[0][0]];
    FlattenedRows(a);
  }

  /** The 3x3 `adj` list agrees with the flattened adjugate modulo 26. */
  lemma AdjugateList3(m: seq<seq<int>>)
    requires Supported(m, 3)
    ensures |Flattened(Adjugate(m, 3))| == 9
    ensures forall k :: 0 <= k < 9 ==> AdjugateList(m, 3)[k] % Modulus == Flattened(Adjugate(m, 3))[k] % Modulus
  {
    var a := Adjugate(m, 3);
    AdjugateList3Exact(m);
    forall k | 0 <= k < 9 ensures AdjugateList(m, 3)[k] % Modulus == Flattened(a)[k] % Modulus {
      ModMod(Flattened(a)[k]);
    }
  }

  /** The 3x3 `adj` list is the flattened adjugate with each entry reduced. */
  lemma AdjugateList3Exact(m: seq<seq<int>>)
    requires Supported(m, 3)
    ensures |Flattened(Adjugate(m, 3))| == 9
    ensures forall k :: 0 <= k < 9 ==> AdjugateList(m, 3)[k] == Flattened(Adjugate(m, 3))[k] % Modulus
  {
    var a := Adjugate(m, 3);
    Adjugate3Entries(m);
    FlattenedRows(a);
  }

  /** Reducing twice is reducing once. */
  lemma ModMod(x: int)
    ensures (x % Modulus) % Modulus == x % Modulus
  {
  }

  /** The loop of `invert`: entry `(i, j)` is `modulo(adj[i * n + j] * inv, 26)`. */
  function Scaled(adj: seq<int>, inv: int, n: int): (r: seq<seq<int>>)
    requires (n == 2 || n == 3) && |adj| == Area(n)
    ensures IsSquare(r, n) && Entries26(r)
  {
    seq(n, i requires 0 <= i < n => seq(n, j requires 0 <= j < n => (adj[Flat(n, i, j)] * inv) % Modulus))
  }

  /**
   * `invert` reading the determinant of `m` itself for both shapes; `None`
   * where `expect` panics because the determinant has no inverse modulo 26.
   */
  function Inverted(m: seq<seq<int>>, n: int): (r: Option<seq<seq<int>>>)
    requires Supported(m, n)
    ensures r.Some? ==> Supported(r.value, n) && Entries26(r.value)
  {
    match Mmi(DetResidue(m, n), Modulus)
    case None => None
    case Some(inv) => Some(Scaled(AdjugateList(m, n), inv, n))
  }

  /** The determinant is coprime to 26. */
  predicate Invertible(m: seq<seq<int>>, n: int)
    requires Supported(m, n)
  {
    Gcd(Det(m, n) % Modulus, Modulus) == 1
  }

  /** `invert` succeeds exactly when the determinant is coprime to 26. */
  lemma InvertedExists(m: seq<seq<int>>, n: int)
    requires Supported(m, n)
    ensures Inverted(m, n).Some? <==> Invertible(m, n)
  {
  }

  /**
   * `invert` as written: for 2x2 the determinant comes from the fresh zero
   * matrix `matrix` instead of `self.value`; `None` is the panic.
   */
  function InvertedAsWritten(m: seq<seq<int>>, n: int): (r: Option<seq<seq<int>>>)
    requires Supported(m, n)
  {
    var inv := if n == 2 then Mmi(X2DetMatrix(Zeros(2)), Modulus) else Mmi(X3DetMatrix(m), Modulus);
    match inv
    case None => None
    case Some(w) => Some(Scaled(AdjugateList(m, n), w, n))
  }

  /** The zero matrix's determinant 0 has no inverse, so the 2x2 `invert` panics on every matrix. */
  lemma InvertedAsWrittenPanics(m: seq<seq<int>>, n: int)
    requires Supported(m, n)
    ensures n == 2 ==> InvertedAsWritten(m, n).None?
    ensures n == 3 ==> InvertedAsWritten(m, n) == Inverted(m, n)
  {
    if n == 2 {
      assert X2DetMatrix(Zeros(2)) == 0;
      GcdZero();
    }
  }

  /** 0 and 26 have the common divisor 26. */
  lemma GcdZero()
    ensures Gcd(0, Modulus) == Modulus
  {
    assert Rem(0, Modulus) == 0;
  }

  /* ------------------------------------------------------------------ */
  /*                    the inverse really inverts                      */
  /* ------------------------------------------------------------------ */

  /** Congruent factors give congruent products modulo 26. */
  lemma MulCongruent(x: int, y: int, v: int)
    requires x % Modulus == y % Modulus
    ensures (x * v) % Modulus == (y * v) % Modulus
  {
    var k := x / Modulus - y / Modulus;
    assert x == y + Modulus * k;
    assert x * v == y * v + Modulus * (k * v);
    ModAddMultiple(y * v, k * v, Modulus);
  }

  /** Congruent summands give congruent sums modulo 26. */
  lemma AddCongruent(x0: int, x1: int, y0: int, y1: int)
    requires x0 % Modulus == y0 % Modulus && x1 % Modulus == y1 % Modulus
    ensures (x0 + x1) % Modulus == (y0 + y1) % Modulus
  {
    var k0, k1 := x0 / Modulus - y0 / Modulus, x1 / Modulus - y1 / Modulus;
    assert x0 + x1 == y0 + y1 + Modulus * (k0 + k1);
    ModAddMultiple(y0 + y1, k0 + k1, Modulus);
  }

  /**
   * Three values congruent to `yk * w`, weighted by `bk`, sum to `w` times
   * the weighted sum `t` of the `yk`, modulo 26.
   */
  lemma WeightedSum(x0: int, x1: int, x2: int, y0: int, y1: int, y2: int, b0: int, b1: int, b2: int, w: int, t: int)
    requires x0 % Modulus == (y0 * w) % Modulus && x1 % Modulus == (y1 * w) % Modulus && x2 % Modulus == (y2 * w) % Modulus
    requires t == y0 * b0 + y1 * b1 + y2 * b2
    ensures (x0 * b0 + x1 * b1 + x2 * b2) % Modulus == (w * t) % Modulus
  {
    MulCongruent(x0, y0 * w, b0);
    MulCongruent(x1, y1 * w, b1);
    MulCongruent(x2, y2 * w, b2);
    AddCongruent(x0 * b0, x1 * b1, y0 * w * b0, y1 * w * b1);
    AddCongruent(x0 * b0 + x1 * b1, x2 * b2, y0 * w * b0 + y1 * w * b1, y2 * w * b2);
    assert y0 * w * b0 + y1 * w * b1 + y2 * w * b2 == w * t;
  }

  /**
   * The residue of one entry of a product with the scaled adjugate: the
   * unscaled entry is `d` on the diagonal and 0 off it, and `w * d` is 1.
   */
  lemma EntryResidue(x0: int, x1: int, x2: int, y0: int, y1: int, y2: int, b0: int, b1: int, b2: int, w: int, d: int, diagonal: bool)
    requires x0 % Modulus == (y0 * w) % Modulus && x1 % Modulus == (y1 * w) % Modulus && x2 % Modulus == (y2 * w) % Modulus
    requires y0 * b0 + y1 * b1 + y2 * b2 == (if diagonal then d else 0) && (w * d) % Modulus == 1
    ensures (x0 * b0 + x1 * b1 + x2 * b2) % Modulus == if diagonal then 1 else 0
  {
    var t := if diagonal then d else 0;
    WeightedSum(x0, x1, x2, y0, y1, y2, b0, b1, b2, w, t);
  }

  /** `EntryResidue` with the weights on the left of each product. */
  lemma EntryResidueLeft(x0: int, x1: int, x2: int, y0: int, y1: int, y2: int, b0: int, b1: int, b2: int, w: int, d: int, diagonal: bool)
    requires x0 % Modulus == (y0 * w) % Modulus && x1 % Modulus == (y1 * w) % Modulus && x2 % Modulus == (y2 * w) % Modulus
    requires b0 * y0 + b1 * y1 + b2 * y2 == (if diagonal then d else 0) && (w * d) % Modulus == 1
    ensures (b0 * x0 + b1 * x1 + b2 * x2) % Modulus == if diagonal then 1 else 0
  {
    assert b0 * x0 + b1 * x1 + b2 * x2 == x0 * b0 + x1 * b1 + x2 * b2;
    assert b0 * y0 + b1 * y1 + b2 * y2 == y0 * b0 + y1 * b1 + y2 * b2;
    EntryResidue(x0, x1, x2, y0, y1, y2, b0, b1, b2, w, d, diagonal);
  }

  /** A list of `n * n` values agreeing with the adjugate of `m`, entry by entry modulo 26. */
  predicate AgreesWithAdjugate(adj: seq<int>, m: seq<seq<int>>, n: int)
    requires Supported(m, n)
  {
    |adj| == Area(n) &&
    forall i, j :: 0 <= i < n && 0 <= j < n ==> adj[Flat(n, i, j)] % Modulus == Adjugate(m, n)[i][j] % Modulus
  }

  /** The `adj` list of `invert` agrees with the adjugate. */
  lemma AdjugateListAgreesAll(m: seq<seq<int>>, n: int)
    requires Supported(m, n)
    ensures AgreesWithAdjugate(AdjugateList(m, n), m, n)
  {
    forall i, j | 0 <= i < n && 0 <= j < n
      ensures AdjugateList(m, n)[Flat(n, i, j)] % Modulus == Adjugate(m, n)[i][j] % Modulus
    {
      AdjugateListAgrees(m, n, i, j);
    }
  }

  /** Entry `(i, k)` of the scaled list is congruent to the adjugate entry times `w`. */
  lemma ScaledEntry(adj: seq<int>, m: seq<seq<int>>, n: int, w: int, i: int, k: int)
    requires Supported(m, n) && AgreesWithAdjugate(adj, m, n) && 0 <= i < n && 0 <= k < n
    ensures Scaled(adj, w, n)[i][k] % Modulus == (Adjugate(m, n)[i][k] * w) % Modulus
  {
    var x := adj[Flat(n, i, k)];
    ModMod(x * w);
    MulCongruent(x, Adjugate(m, n)[i][k], w);
  }

  /** A determinant times an inverse of its residue is 1 modulo 26. */
  lemma DetTimesInverse(m: seq<seq<int>>, n: int, w: int)
    requires Supported(m, n) && IsInverse(DetResidue(m, n), w, Modulus)
    ensures (w * Det(m, n)) % Modulus == 1
  {
    var d := Det(m, n);
    assert DetResidue(m, n) == d % Modulus;
    MulCongruent(d, d % Modulus, w);
    assert w * d == d * w;
  }

  /** `v` is congruent, entry by entry, to the adjugate of `m` times `w`. */
  predicate ScaledAdjugate(v: seq<seq<int>>, m: seq<seq<int>>, n: int, w: int)
    requires Supported(m, n)
  {
    Supported(v, n) &&
    forall i, k :: 0 <= i < n && 0 <= k < n ==> v[i][k] % Modulus == (Adjugate(m, n)[i][k] * w) % Modulus
  }

  /** Scaling a list that agrees with the adjugate gives a scaled adjugate. */
  lemma ScaledIsScaledAdjugate(adj: seq<int>, m: seq<seq<int>>, n: int, w: int)
    requires Supported(m, n) && AgreesWithAdjugate(adj, m, n)
    ensures ScaledAdjugate(Scaled(adj, w, n), m, n, w)
  {
    forall i, k | 0 <= i < n && 0 <= k < n
      ensures Scaled(adj, w, n)[i][k] % Modulus == (Adjugate(m, n)[i][k] * w) % Modulus
    {
      ScaledEntry(adj, m, n, w, i, k);
    }
  }

  /** Entry `(i, j)` of `v * m` is the identity's, modulo 26. */
  lemma LeftEntry(v: seq<seq<int>>, m: seq<seq<int>>, n: int, w: int, i: int, j: int)
    requires Supported(m, n) && ScaledAdjugate(v, m, n, w) && (w * Det(m, n)) % Modulus == 1
    requires 0 <= i < n && 0 <= j < n
    ensures Dot(v, m, n, i, j) % Modulus == if i == j then 1 else 0
  {
    var a := Adjugate(m, n);
    AdjugateProduct(m, n, i, j);
    if n == 2 {
      EntryResidue(v[i][0], v[i][1], 0, a[i][0], a[i][1], 0, m[0][j], m[1][j], 0, w, Det(m, n), i == j);
    } else {
      EntryResidue(v[i][0], v[i][1], v[i][2], a[i][0], a[i][1], a[i][2], m[0][j], m[1][j], m[2][j], w, Det(m, n), i == j);
    }
  }

  /** Entry `(i, j)` of `m * v` is the identity's, modulo 26. */
  lemma RightEntry(v: seq<seq<int>>, m: seq<seq<int>>, n: int, w: int, i: int, j: int)
    requires Supported(m, n) && ScaledAdjugate(v, m, n, w) && (w * Det(m, n)) % Modulus == 1
    requires 0 <= i < n && 0 <= j < n
    ensures Dot(m, v, n, i, j) % Modulus == if i == j then 1 else 0
  {
    var a := Adjugate(m, n);
    AdjugateProduct(m, n, i, j);
    if n == 2 {
      EntryResidueLeft(v[0][j], v[1][j], 0, a[0][j], a[1][j], 0, m[i][0], m[i][1], 0, w, Det(m, n), i == j);
    } else {
      EntryResidueLeft(v[0][j], v[1][j], v[2][j], a[0][j], a[1][j], a[2][j], m[i][0], m[i][1], m[i][2], w, Det(m, n), i == j);
    }
  }

  /**
   * Whenever `invert` succeeds, its result is a two-sided inverse of the
   * matrix modulo 26, for 2x2 and 3x3 alike.
   */
  lemma InvertedIsInverse(m: seq<seq<int>>, n: int)
    requires Supported(m, n) && Inverted(m, n).Some?
    ensures InverseMod(Inverted(m, n).value, m, n) && InverseMod(m, Inverted(m, n).value, n)
  {
    var adj, w := AdjugateList(m, n), Mmi(DetResidue(m, n), Modulus).value;
    assert Inverted(m, n).value == Scaled(adj, w, n);
    var v := Scaled(adj, w, n);
    AdjugateListAgreesAll(m, n);
    ScaledIsScaledAdjugate(adj, m, n, w);
    DetTimesInverse(m, n, w);
    forall i, j | 0 <= i < n && 0 <= j < n
      ensures Dot(v, m, n, i, j) % Modulus == (if i == j then 1 else 0)
      ensures Dot(m, v, n, i, j) % Modulus == (if i == j then 1 else 0)
    {
      LeftEntry(v, m, n, w, i, j);
      RightEntry(v, m, n, w, i, j);
    }
  }

  /** The identity matrix has determinant 1. */
  lemma IdentityDet(n: int)
    requires n == 2 || n == 3
    ensures Supported(IdentityMatrix(n), n) && Det(IdentityMatrix(n), n) == 1
  {
  }

  /** A determinant congruent to 1 is coprime to 26. */
  lemma UnitDet(d: int)
    requires d % Modulus == 1
    ensures Gcd(d % Modulus, Modulus) == 1
  {
    assert Rem(1, Modulus) == 1 && Rem(Modulus, 1) == 0;
    assert Gcd(1, Modulus) == Gcd(Modulus, 1) == Gcd(1, 0) == 1;
  }

  /** The identity matrix `reset` writes is invertible, so `invert` succeeds on it. */
  lemma IdentityInvertible(n: int)
    requires n == 2 || n == 3
    ensures Supported(IdentityMatrix(n), n) && Invertible(IdentityMatrix(n), n)
  {
    IdentityDet(n);
    UnitDet(Det(IdentityMatrix(n), n));
  }

  /* ------------------------------------------------------------------ */
  /*                            is_invertible                           */
  /* ------------------------------------------------------------------ */

  /**
   * `is_invertible` as written: both shapes call `x3_inv_matrix`, whose
   * `matrix[2]` is out of bounds on a 2x2 matrix; `None` is that panic.
   */
  function IsInvertibleAsWritten(m: seq<seq<int>>, n: int): (r: Option<bool>)
    requires Supported(m, n)
  {
    if |m| < 3 then None else Some(Mmi(X3DetMatrix(m), Modulus).Some?)
  }

  /** The 2x2 `is_invertible` panics on every matrix; the 3x3 one says whether `invert` succeeds. */
  lemma IsInvertibleAsWrittenPanics(m: seq<seq<int>>, n: int)
    requires Supported(m, n)
    ensures n == 2 ==> IsInvertibleAsWritten(m, n).None?
    ensures n == 3 ==> IsInvertibleAsWritten(m, n) == Some(Inverted(m, n).Some?)
  {
  }

  /* ------------------------------------------------------------------ */
  /*                         randomize's rounds                         */
  /* ------------------------------------------------------------------ */

  /** The entries drawn in one round of `randomize` make an invertible matrix. */
  predicate Hits(draw: seq<int>, n: int)
    requires (n == 2 || n == 3) && |draw| == Area(n)
  {
    Invertible(RowMajor(draw, n), n)
  }

  /** The number of rounds `randomize` draws before its first invertible matrix (`|draws|` if none). */
  function Misses(draws: seq<seq<int>>, n: int): (r: nat)
    requires n == 2 || n == 3
    requires forall s :: 0 <= s < |draws| ==> |draws[s]| == Area(n)
    ensures r <= |draws|
    decreases |draws|
  {
    if draws == [] || Hits(draws[0], n) then 0 else 1 + Misses(draws[1..], n)
  }

  /** No round before `Misses` hits, and round `Misses` does if it exists. */
  lemma {:induction false} MissesFirst(draws: seq<seq<int>>, n: int)
    requires n == 2 || n == 3
    requires forall s :: 0 <= s < |draws| ==> |draws[s]| == Area(n)
    ensures forall t :: 0 <= t < Misses(draws, n) ==> !Hits(draws[t], n)
    ensures Misses(draws, n) < |draws| ==> Hits(draws[Misses(draws, n)], n)
    decreases |draws|
  {
    if draws != [] && !Hits(draws[0], n) {
      MissesFirst(draws[1..], n);
      forall t | 0 <= t < Misses(draws, n) ensures !Hits(draws[t], n) {
        if t > 0 {
          assert draws[t] == draws[1..][t - 1];
        }
      }
    }
  }

  /** The matrix of the first invertible round has letter entries and an inverse. */
  lemma FirstHit(draws: seq<seq<int>>, n: int)
    requires (n == 2 || n == 3) && forall t :: 0 <= t < |draws| ==> |draws[t]| == Area(n) && InRange(draws[t], Modulus)
    requires Misses(draws, n) < |draws|
    ensures Entries26(RowMajor(draws[Misses(draws, n)], n)) && Inverted(RowMajor(draws[Misses(draws, n)], n), n).Some?
  {
    var m := RowMajor(draws[Misses(draws, n)], n);
    RowMajorInRange(draws[Misses(draws, n)], n);
    InvertedExists(m, n);
    MissesFirst(draws, n);
  }

  /** A matrix filled from letters has letter entries. */
  lemma RowMajorInRange(vec: seq<int>, n: int)
    requires (n == 2 || n == 3) && |vec| == Area(n) && InRange(vec, Modulus)
    ensures Entries26(RowMajor(vec, n))
  {
  }

  /** The nested loop of `set_key` and `randomize`: entry `(i, j)` becomes `vec[i * n + j]`. */
  method FillRowMajor(m: seq<seq<int>>, vec: seq<int>, n: int) returns (r: seq<seq<int>>)
    requires Supported(m, n) && |vec| == Area(n)
    ensures r == RowMajor(vec, n)
  {
    r := m;
    for i := 0 to n
      invariant IsSquare(r, n)
      invariant forall x :: 0 <= x < i ==> r[x] == RowMajor(vec, n)[x]
    {
      for j := 0 to n
        invariant IsSquare(r, n)
        invariant forall x :: 0 <= x < i ==> r[x] == RowMajor(vec, n)[x]
        invariant forall y :: 0 <= y < j ==> r[i][y] == vec[Flat(n, i, y)]
      {
        r := r[i := r[i][j := vec[Flat(n, i, j)]]];
      }
    }
  }

  class Matrix {
    var value: seq<seq<int>>
    var dimSize: nat

    /** `new`: the 2x2 zero matrix. */
    constructor ()
      ensures value == Zeros(2) && dimSize == 2
    {
      value := Zeros(2);
      dimSize := 2;
    }

    /** `create_from` with rows: a copy, the dimension being the number of rows. */
    constructor FromRows(rows: seq<seq<int>>)
      ensures value == rows && dimSize == |rows|
    {
      value := rows;
      dimSize := |rows|;
    }

    /** `at(x, y)`: the entry in row `x`, column `y`. */
    function At(x: int, y: int): int
      reads this
      requires 0 <= x < |value| && 0 <= y < |value[x]|
    {
      value[x][y]
    }

    /** `is_invertible` with the determinant of the matrix's own shape: the determinant is coprime to 26. */
    function IsInvertible(): (b: bool)
      reads this
      requires Supported(value, dimSize)
      ensures b <==> Invertible(value, dimSize)
    {
      Mmi(DetResidue(value, dimSize), Modulus).Some?
    }

    /**
     * `invert` with the determinant of `self.value` for both shapes: a fresh
     * matrix of the same shape holding `Inverted`; `expect` demands that the
     * determinant be invertible.
     */
    method Invert() returns (r: Matrix)
      requires Supported(value, dimSize) && Inverted(value, dimSize).Some?
      ensures fresh(r) && r.dimSize == dimSize && r.value == Inverted(value, dimSize).value
      ensures InverseMod(r.value, value, dimSize) && InverseMod(value, r.value, dimSize)
    {
      var n := dimSize;
      var adj := AdjugateList(value, n);
      var inv := Mmi(DetResidue(value, n), Modulus).value;
      var matrix := Zeros(n);
      for i := 0 to n
        invariant IsSquare(matrix, n)
        invariant forall x :: 0 <= x < i ==> matrix[x] == Scaled(adj, inv, n)[x]
      {
        for j := 0 to n
          invariant IsSquare(matrix, n)
          invariant forall x :: 0 <= x < i ==> matrix[x] == Scaled(adj, inv, n)[x]
          invariant forall y :: 0 <= y < j ==> matrix[i][y] == (adj[Flat(n, i, y)] * inv) % Modulus
        {
          matrix := matrix[i := matrix[i][j := (adj[Flat(n, i, j)] * inv) % Modulus]];
        }
      }
      InvertedIsInverse(value, n);
      r := new Matrix.FromRows(matrix);
    }

    /** `set_key` with a vector: 4 entries make a 2x2 matrix, 9 a 3x3 one, filled row by row; other lengths panic. */
    method SetKey(vec: seq<int>)
      requires |vec| == 4 || |vec| == 9
      modifies this
      ensures dimSize == (if |vec| == 4 then 2 else 3) && value == RowMajor(vec, dimSize)
    {
      var n := if |vec| == 4 then 2 else 3;
      value := FillRowMajor(Zeros(n), vec, n);
      dimSize := n;
    }

    /** `set_key` with a string: the code points of its letters, which must number 4 or 9. */
    method SetKeyString(a: LangAlphabet, s: string)
      requires WF(a) && (LetterCount(a, s) == 4 || LetterCount(a, s) == 9)
      modifies this
      ensures dimSize == (if LetterCount(a, s) == 4 then 2 else 3)
      ensures |StringToVec(a, s)| == dimSize * dimSize && value == RowMajor(StringToVec(a, s), dimSize)
    {
      StringToVecProps(a, s);
      SetKey(StringToVec(a, s));
    }

    /** `set_key` with rows: a copy, the dimension being the number of rows. */
    method SetKeyRows(rows: seq<seq<int>>)
      modifies this
      ensures value == rows && dimSize == |rows|
    {
      value := rows;
      dimSize := |rows|;
    }

    /** `reset`: the identity matrix of the current dimension. */
    method Reset()
      modifies this
      ensures dimSize == old(dimSize) && value == IdentityMatrix(dimSize)
    {
      var n := dimSize;
      value := Zeros(n);
      for i := 0 to n
        invariant dimSize == n && IsSquare(value, n)
        invariant forall x, y :: 0 <= x < n && 0 <= y < n ==> value[x][y] == if x == y && x < i then 1 else 0
      {
        value := value[i := value[i][i := 1]];
      }
      assert forall x :: 0 <= x < n ==> value[x] == IdentityMatrix(n)[x];
    }

    /** Round `t` of `randomize`: fill the matrix with `draws[t]`, then ask `is_invertible`, which holds first at round `Misses`. */
    method Round(draws: seq<seq<int>>, t: int) returns (found: bool)
      requires Supported(value, dimSize) && forall s :: 0 <= s < |draws| ==> |draws[s]| == Area(dimSize)
      requires 0 <= t <= Misses(draws, dimSize) && t < |draws|
      modifies this
      ensures dimSize == old(dimSize) && value == RowMajor(draws[t], dimSize) && (found <==> t == Misses(draws, dimSize))
    {
      value := FillRowMajor(value, draws[t], dimSize);
      found := IsInvertible();
      MissesFirst(draws, dimSize);
    }

    /**
     * `randomize`: round `t` fills the matrix row by row with `draws[t]`
     * (the `gen_range(0..26)` draws) until the matrix is invertible; the
     * rounds must include an invertible draw for the loop to end.
     */
    method Randomize(draws: seq<seq<int>>)
      requires Supported(value, dimSize)
      requires forall t :: 0 <= t < |draws| ==> |draws[t]| == Area(dimSize) && InRange(draws[t], Modulus)
      requires Misses(draws, dimSize) < |draws|
      modifies this
      ensures dimSize == old(dimSize) && value == RowMajor(draws[Misses(draws, dimSize)], dimSize)
      ensures Entries26(value) && Inverted(value, dimSize).Some?
    {
      var n, t := dimSize, 0;
      var found := Round(draws, 0);
      while !found
        invariant dimSize == n && 0 <= t <= Misses(draws, n) && value == RowMajor(draws[t], n) && (found <==> t == Misses(draws, n))
        decreases Misses(draws, n) - t
      {
        t := t + 1;
        found := Round(draws, t);
      }
      FirstHit(draws, n);
    }
  }
}
