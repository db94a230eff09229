/** Dense real matrices and vectors, the linear-system predicates the solvers are
    specified against, the cofactor determinant, and the elementary row
    operations of Gauss-Jordan elimination together with the proof that each of
    them keeps the solution set of an augmented system. Numbers are exact reals:
    floating-point rounding is not modelled. */
module LinearAlgebra {

  datatype Option<T> = None | Some(value: T)

  type Vector = seq<real>
  type Matrix = seq<seq<real>>

  /** The singularity threshold 1e-10 shared by every solver. */
  const Threshold: real := 0.0000000001

  function Abs(x: real): real
  {
    if x < 0.0 then -x else x
  }

  /** `m` has `rows` rows of `cols` entries each. */
  predicate IsMatrix(m: Matrix, rows: nat, cols: nat)
  {
    |m| == rows && forall r :: 0 <= r < rows ==> |m[r]| == cols
  }

  /** The sum of `row[c] * x[c]` over the first `k` columns. */
  function Dot(row: Vector, x: Vector, k: nat): real
    requires k <= |row| && k <= |x|
  {
    if k == 0 then 0.0 else Dot(row, x, k - 1) + row[k - 1] * x[k - 1]
  }

  /** `x` solves the square system `a * x == b`. */
  predicate Solves(a: Matrix, b: Vector, x: Vector)
  {
    IsMatrix(a, |b|, |b|) && |x| == |b| &&
    forall r :: 0 <= r < |b| ==> Dot(a[r], x, |b|) == b[r]
  }

  /** `x` solves the augmented system `m = [A | b]` of `n` equations. */
  predicate SolvesAugmented(m: Matrix, n: nat, x: Vector)
  {
    IsMatrix(m, n, n + 1) && |x| == n &&
    forall r :: 0 <= r < n ==> Dot(m[r], x, n) == m[r][n]
  }

  /** Two augmented systems of `n` equations with the same solutions. */
  ghost predicate SameSolutions(m: Matrix, m': Matrix, n: nat)
  {
    forall x :: SolvesAugmented(m, n, x) <==> SolvesAugmented(m', n, x)
  }

  /** The first `cols` columns of the left block of `m` are those of the identity. */
  predicate UnitColumns(m: Matrix, n: nat, cols: nat)
  {
    IsMatrix(m, n, n + 1) && cols <= n &&
    forall r, c :: 0 <= r < n && 0 <= c < cols ==> m[r][c] == if r == c then 1.0 else 0.0
  }

  /** Matrices of the same shape with the same entries are equal. */
  lemma MatrixEqual(m: Matrix, m': Matrix, rows: nat, cols: nat)
    requires IsMatrix(m, rows, cols) && IsMatrix(m', rows, cols)
    requires forall r, c :: 0 <= r < rows && 0 <= c < cols ==> m[r][c] == m'[r][c]
    ensures m == m'
  {
    forall r | 0 <= r < rows
      ensures m[r] == m'[r]
    {
      assert forall c :: 0 <= c < cols ==> m[r][c] == m'[r][c];
    }
  }

  /** The augmented matrix `[a | b]`. */
  function Augment(a: Matrix, b: Vector): (m: Matrix)
    requires IsMatrix(a, |b|, |b|)
    ensures IsMatrix(m, |b|, |b| + 1)
    ensures forall r, c :: 0 <= r < |b| && 0 <= c < |b| ==> m[r][c] == a[r][c]
    ensures forall r :: 0 <= r < |b| ==> m[r][|b|] == b[r]
  {
    seq(|b|, r requires 0 <= r < |b| => a[r] + [b[r]])
  }

  // ---------------------------------------------------------------------------
  // Facts about Dot

  /** Dot only looks at the first `k` entries of the row. */
  lemma {:induction false} DotCongruent(row: Vector, row': Vector, x: Vector, k: nat)
    requires k <= |row| && k <= |row'| && k <= |x|
    requires forall c :: 0 <= c < k ==> row[c] == row'[c]
    ensures Dot(row, x, k) == Dot(row', x, k)
  {
    if k > 0 {
      DotCongruent(row, row', x, k - 1);
    }
  }

  /** Dot is linear in the row: scaling. */
  lemma {:induction false} DotScaled(row: Vector, scaled: Vector, p: real, x: Vector, k: nat)
    requires k <= |row| && k <= |scaled| && k <= |x|
    requires forall c :: 0 <= c < k ==> row[c] == p * scaled[c]
    ensures Dot(row, x, k) == p * Dot(scaled, x, k)
  {
    if k > 0 {
      DotScaled(row, scaled, p, x, k - 1);
      calc {
        Dot(row, x, k);
        Dot(row, x, k - 1) + row[k - 1] * x[k - 1];
        p * Dot(scaled, x, k - 1) + (p * scaled[k - 1]) * x[k - 1];
        p * (Dot(scaled, x, k - 1) + scaled[k - 1] * x[k - 1]);
      }
    }
  }

  /** Dot is linear in the row: subtracting a multiple of another row. */
  lemma {:induction false} DotEliminated(row: Vector, pivot: Vector, result: Vector, f: real, x: Vector, k: nat)
    requires k <= |row| && k <= |pivot| && k <= |result| && k <= |x|
    requires forall c :: 0 <= c < k ==> result[c] == row[c] - f * pivot[c]
    ensures Dot(result, x, k) == Dot(row, x, k) - f * Dot(pivot, x, k)
  {
    if k > 0 {
      DotEliminated(row, pivot, result, f, x, k - 1);
      calc {
        Dot(result, x, k);
        Dot(result, x, k - 1) + result[k - 1] * x[k - 1];
        Dot(row, x, k - 1) - f * Dot(pivot, x, k - 1) + (row[k - 1] - f * pivot[k - 1]) * x[k - 1];
        Dot(row, x, k - 1) + row[k - 1] * x[k - 1] - f * (Dot(pivot, x, k - 1) + pivot[k - 1] * x[k - 1]);
      }
    }
  }

  /** A row that is `s` times the `i`-th unit row picks `s * x[i]` out of `x`. */
  lemma {:induction false} DotUnit(row: Vector, x: Vector, i: nat, s: real, k: nat)
    requires k <= |row| && k <= |x|
    requires forall c :: 0 <= c < k ==> row[c] == if c == i then s else 0.0
    ensures Dot(row, x, k) == if i < k then s * x[i] else 0.0
  {
    if k > 0 {
      DotUnit(row, x, i, s, k - 1);
    }
  }

  /** Solving the augmented matrix is solving the system it was built from. */
  lemma AugmentSolves(a: Matrix, b: Vector, x: Vector)
    requires IsMatrix(a, |b|, |b|)
    ensures SolvesAugmented(Augment(a, b), |b|, x) <==> Solves(a, b, x)
  {
    var n, m := |b|, Augment(a, b);
    if |x| == n {
      forall r | 0 <= r < n
        ensures Dot(m[r], x, n) == Dot(a[r], x, n)
      {
        DotCongruent(m[r], a[r], x, n);
      }
    }
  }

  // ---------------------------------------------------------------------------
  // Elementary row operations of Gauss-Jordan elimination

  /** Exchange rows `i` and `j`. */
  function SwapRows(m: Matrix, i: nat, j: nat): (m': Matrix)
    requires i < |m| && j < |m|
    ensures |m'| == |m| && m'[i] == m[j] && m'[j] == m[i]
    ensures forall r :: 0 <= r < |m| && r != i && r != j ==> m'[r] == m[r]
  {
    m[i := m[j]][j := m[i]]
  }

  /** Divide every entry of row `i` by `p`. */
  function DivideRow(m: Matrix, i: nat, p: real): (m': Matrix)
    requires i < |m| && p != 0.0
    ensures |m'| == |m| && |m'[i]| == |m[i]|
    ensures forall c :: 0 <= c < |m[i]| ==> m'[i][c] == m[i][c] / p
    ensures forall r :: 0 <= r < |m| && r != i ==> m'[r] == m[r]
  {
    m[i := seq(|m[i]|, c requires 0 <= c < |m[i]| => m[i][c] / p)]
  }

  /** Subtract `f` times row `i` from row `k`. */
  function EliminateRow(m: Matrix, k: nat, i: nat, f: real): (m': Matrix)
    requires k < |m| && i < |m| && |m[k]| == |m[i]|
    ensures |m'| == |m| && |m'[k]| == |m[k]|
    ensures forall c :: 0 <= c < |m[k]| ==> m'[k][c] == m[k][c] - f * m[i][c]
    ensures forall r :: 0 <= r < |m| && r != k ==> m'[r] == m[r]
  {
    m[k := seq(|m[k]|, c requires 0 <= c < |m[k]| => m[k][c] - f * m[i][c])]
  }

  /** Row `p` is the partial pivot for column `i`: the first row from `i` on
      whose entry in column `i` has the largest magnitude. */
  ghost predicate IsPivotRow(m: Matrix, i: nat, p: nat)
  {
    && i <= p < |m|
    && (forall k :: i <= k < |m| ==> i < |m[k]|)
    && (forall k :: i <= k < |m| ==> Abs(m[k][i]) <= Abs(m[p][i]))
    && (forall k :: i <= k < p ==> Abs(m[k][i]) < Abs(m[p][i]))
  }

  /** Ties go to the earlier row, so the pivot row is determined. */
  lemma PivotRowUnique(m: Matrix, i: nat, p: nat, q: nat)
    requires IsPivotRow(m, i, p) && IsPivotRow(m, i, q)
    ensures p == q
  {
    assert Abs(m[p][i]) == Abs(m[q][i]);
  }

  lemma SameSolutionsTransitive(m: Matrix, m': Matrix, m'': Matrix, n: nat)
    requires SameSolutions(m, m', n) && SameSolutions(m', m'', n)
    ensures SameSolutions(m, m'', n)
  {
  }

  /** Exchanging two equations keeps the solution set. */
  lemma SwapKeepsSolutions(m: Matrix, n: nat, i: nat, j: nat)
    requires IsMatrix(m, n, n + 1) && i < n && j < n
    ensures IsMatrix(SwapRows(m, i, j), n, n + 1)
    ensures SameSolutions(m, SwapRows(m, i, j), n)
  {
    var m' := SwapRows(m, i, j);
    forall x
      ensures SolvesAugmented(m, n, x) <==> SolvesAugmented(m', n, x)
    {
      if SolvesAugmented(m, n, x) {
        assert forall r :: 0 <= r < n ==> Dot(m'[r], x, n) == m'[r][n] by {
          forall r | 0 <= r < n ensures Dot(m'[r], x, n) == m'[r][n] {
            var s := if r == i then j else if r == j then i else r;
            assert m'[r] == m[s];
          }
        }
      }
      if SolvesAugmented(m', n, x) {
        assert forall r :: 0 <= r < n ==> Dot(m[r], x, n) == m[r][n] by {
          forall r | 0 <= r < n ensures Dot(m[r], x, n) == m[r][n] {
            var s := if r == i then j else if r == j then i else r;
            assert m[r] == m'[s];
          }
        }
      }
    }
  }

  /** Dividing an equation by a non-zero number keeps the solution set. */
  lemma DivideKeepsSolutions(m: Matrix, n: nat, i: nat, p: real)
    requires IsMatrix(m, n, n + 1) && i < n && p != 0.0
    ensures IsMatrix(DivideRow(m, i, p), n, n + 1)
    ensures SameSolutions(m, DivideRow(m, i, p), n)
  {
    var m' := DivideRow(m, i, p);
    forall c | 0 <= c < n + 1
      ensures m[i][c] == p * m'[i][c]
    {
      assert m'[i][c] == m[i][c] / p;
    }
    forall x | |x| == n
      ensures SolvesAugmented(m, n, x) <==> SolvesAugmented(m', n, x)
    {
      DotScaled(m[i], m'[i], p, x, n);
    }
  }

  /** With the pivot equation holding, an equation holds exactly when it
      holds after subtracting `f` times the pivot equation. */
  lemma EliminatedEquation(lhs: real, rhs: real, pivotLhs: real, pivotRhs: real, f: real, lhs': real, rhs': real)
    requires lhs' == lhs - f * pivotLhs && rhs' == rhs - f * pivotRhs && pivotLhs == pivotRhs
    ensures lhs == rhs <==> lhs' == rhs'
  {
  }

  /** Subtracting a multiple of another equation keeps the solution set. */
  lemma EliminateKeepsSolutions(m: Matrix, n: nat, k: nat, i: nat, f: real)
    requires IsMatrix(m, n, n + 1) && k < n && i < n && k != i
    ensures IsMatrix(EliminateRow(m, k, i, f), n, n + 1)
    ensures SameSolutions(m, EliminateRow(m, k, i, f), n)
  {
    var m' := EliminateRow(m, k, i, f);
    forall x | |x| == n
      ensures SolvesAugmented(m, n, x) <==> SolvesAugmented(m', n, x)
    {
      assert m'[i] == m[i];
      if Dot(m[i], x, n) == m[i][n] {
        DotEliminated(m[k], m[i], m'[k], f, x, n);
        EliminatedEquation(Dot(m[k], x, n), m[k][n], Dot(m[i], x, n), m[i][n], f, Dot(m'[k], x, n), m'[k][n]);
      }
    }
  }

  /** Swapping two rows at or below the finished columns keeps them unit columns. */
  lemma SwapKeepsUnitColumns(m: Matrix, n: nat, cols: nat, i: nat, j: nat)
    requires UnitColumns(m, n, cols) && cols <= i < n && cols <= j < n
    ensures UnitColumns(SwapRows(m, i, j), n, cols)
  {
  }

  /** Dividing the pivot row by its pivot puts a 1 on the diagonal and keeps
      the finished columns. */
  lemma DivideKeepsUnitColumns(m: Matrix, n: nat, i: nat)
    requires UnitColumns(m, n, i) && i < n && m[i][i] != 0.0
    ensures UnitColumns(DivideRow(m, i, m[i][i]), n, i)
    ensures DivideRow(m, i, m[i][i])[i][i] == 1.0
  {
    var m' := DivideRow(m, i, m[i][i]);
    forall r, c | 0 <= r < n && 0 <= c < i
      ensures m'[r][c] == if r == c then 1.0 else 0.0
    {
      if r == i {
        assert m'[r][c] == 0.0 / m[i][i];
      }
    }
  }

  /** Subtracting a multiple of the unit pivot row `i` from row `k` clears
      entry `(k, i)` and keeps the finished columns and the pivot column's
      other entries. */
  lemma EliminateKeepsUnitColumns(m: Matrix, n: nat, k: nat, i: nat)
    requires UnitColumns(m, n, i) && i < n && k < n && k != i && m[i][i] == 1.0
    ensures UnitColumns(EliminateRow(m, k, i, m[k][i]), n, i)
    ensures EliminateRow(m, k, i, m[k][i])[k][i] == 0.0
    ensures forall r :: 0 <= r < n && r != k ==> EliminateRow(m, k, i, m[k][i])[r] == m[r]
  {
    var m' := EliminateRow(m, k, i, m[k][i]);
    forall r, c | 0 <= r < n && 0 <= c < i
      ensures m'[r][c] == if r == c then 1.0 else 0.0
    {
      if r == k {
        assert m[i][c] == 0.0;
      }
    }
  }

  /** Once the left block is the identity, the last column is the solution. */
  lemma {:induction false} IdentitySolvedByLastColumn(m: Matrix, n: nat, x: Vector)
    requires UnitColumns(m, n, n)
    requires |x| == n && forall r :: 0 <= r < n ==> x[r] == m[r][n]
    ensures SolvesAugmented(m, n, x)
  {
    forall r | 0 <= r < n
      ensures Dot(m[r], x, n) == m[r][n]
    {
      DotUnit(m[r], x, r, 1.0, n);
    }
  }

  // ---------------------------------------------------------------------------
  // Determinants

  function Sign(j: nat): real
  {
    if j % 2 == 0 then 1.0 else -1.0
  }

  /** `m` without its first row and its column `j`. */
  function Minor(m: Matrix, j: nat): (r: Matrix)
    requires 1 <= |m| && IsMatrix(m, |m|, |m|) && j < |m|
    ensures IsMatrix(r, |m| - 1, |m| - 1)
  {
    seq(|m| - 1, i requires 0 <= i < |m| - 1 => m[i + 1][..j] + m[i + 1][j + 1..])
  }

  /** The determinant, by cofactor expansion along the first row. */
  function Det(m: Matrix): real
    requires IsMatrix(m, |m|, |m|)
    decreases |m|, 1, 0
  {
    if |m| == 0 then 1.0 else CofactorSum(m, |m|)
  }

  /** The first `k` terms of the cofactor expansion of `m` along its first row. */
  function CofactorSum(m: Matrix, k: nat): real
    requires 1 <= |m| && IsMatrix(m, |m|, |m|) && k <= |m|
    decreases |m|, 0, k
  {
    if k == 0 then 0.0
    else CofactorSum(m, k - 1) + Sign(k - 1) * m[0][k - 1] * Det(Minor(m, k - 1))
  }

  /** The determinant of a 1x1 matrix is its entry. */
  lemma Det1(m: Matrix)
    requires IsMatrix(m, 1, 1)
    ensures Det(m) == m[0][0]
  {
    assert Minor(m, 0) == [];
    assert CofactorSum(m, 1) == CofactorSum(m, 0) + Sign(0) * m[0][0] * Det(Minor(m, 0));
  }

  /** The determinant of a 2x2 matrix in closed form. */
  lemma Det2(m: Matrix)
    requires IsMatrix(m, 2, 2)
    ensures Det(m) == m[0][0] * m[1][1] - m[0][1] * m[1][0]
  {
    var m0, m1 := Minor(m, 0), Minor(m, 1);
    assert m0[0] == m[1][..0] + m[1][1..] == [m[1][1]];
    assert m1[0] == m[1][..1] + m[1][2..] == [m[1][0]];
    Det1(m0);
    Det1(m1);
    assert CofactorSum(m, 1) == CofactorSum(m, 0) + Sign(0) * m[0][0] * Det(m0);
    assert CofactorSum(m, 2) == CofactorSum(m, 1) + Sign(1) * m[0][1] * Det(m1);
  }

  /** Cramer's rule for two equations in two unknowns, on plain numbers:
      unknowns that times the determinant `d` give the column determinants
      `d0` and `d1` satisfy both equations. */
  lemma Cramer2Satisfies(a00: real, a01: real, a10: real, a11: real, b0: real, b1: real,
                         d: real, d0: real, d1: real, x0: real, x1: real)
    requires d == a00 * a11 - a01 * a10 && d != 0.0
    requires d0 == b0 * a11 - a01 * b1 && d1 == a00 * b1 - b0 * a10
    requires x0 * d == d0 && x1 * d == d1
    ensures a00 * x0 + a01 * x1 == b0 && a10 * x0 + a11 * x1 == b1
  {
    assert (a00 * x0 + a01 * x1) * d == a00 * (x0 * d) + a01 * (x1 * d) == b0 * d;
    assert (a10 * x0 + a11 * x1) * d == a10 * (x0 * d) + a11 * (x1 * d) == b1 * d;
    Cancel(a00 * x0 + a01 * x1, b0, d);
    Cancel(a10 * x0 + a11 * x1, b1, d);
  }

  /** Two equations in two unknowns with a non-zero determinant have only the
      solution Cramer's rule gives. */
  lemma Cramer2Unique(a00: real, a01: real, a10: real, a11: real, b0: real, b1: real, x0: real, x1: real)
    requires a00 * x0 + a01 * x1 == b0 && a10 * x0 + a11 * x1 == b1
    ensures x0 * (a00 * a11 - a01 * a10) == b0 * a11 - a01 * b1
    ensures x1 * (a00 * a11 - a01 * a10) == a00 * b1 - b0 * a10
  {
    assert x0 * (a00 * a11 - a01 * a10) == a11 * (a00 * x0 + a01 * x1) - a01 * (a10 * x0 + a11 * x1);
    assert x1 * (a00 * a11 - a01 * a10) == a00 * (a10 * x0 + a11 * x1) - a10 * (a00 * x0 + a01 * x1);
  }

  /** A non-zero factor can be cancelled. */
  lemma Cancel(p: real, q: real, d: real)
    requires d != 0.0 && p * d == q * d
    ensures p == q
  {
    assert (p - q) * d == 0.0;
  }

  /** The quotient `e / d` is the one number that `d` takes to `e`. */
  lemma Quotient(q: real, e: real, d: real)
    requires d != 0.0
    ensures q * d == e <==> q == e / d
  {
  }

  /** `m` with column `j` replaced by `b`. */
  function ReplaceColumn(m: Matrix, j: nat, b: Vector): (r: Matrix)
    requires IsMatrix(m, |b|, |b|) && j < |b|
    ensures IsMatrix(r, |b|, |b|)
    ensures forall i, c :: 0 <= i < |b| && 0 <= c < |b| ==> r[i][c] == if c == j then b[i] else m[i][c]
  {
    seq(|b|, i requires 0 <= i < |b| => m[i][j := b[i]])
  }

  /** The vector Cramer's rule yields: entry `i` is `det(A_i) / det(A)`. */
  function CramerVector(a: Matrix, b: Vector): (x: Vector)
    requires IsMatrix(a, |b|, |b|) && Det(a) != 0.0
    ensures |x| == |b|
  {
    seq(|b|, i requires 0 <= i < |b| => Det(ReplaceColumn(a, i, b)) / Det(a))
  }

  /** Dot over three columns, written out. */
  lemma Dot3(row: Vector, x: Vector)
    requires 3 <= |row| && 3 <= |x|
    ensures Dot(row, x, 3) == row[0] * x[0] + row[1] * x[1] + row[2] * x[2]
  {
    Dot2(row, x);
  }

  /** Dot over two columns, written out. */
  lemma Dot2(row: Vector, x: Vector)
    requires 2 <= |row| && 2 <= |x|
    ensures Dot(row, x, 2) == row[0] * x[0] + row[1] * x[1]
  {
    assert Dot(row, x, 1) == row[0] * x[0];
  }

  /** Cramer's vector of a 1x1 system in closed form. */
  lemma CramerVector1(a: Matrix, b: Vector)
    requires IsMatrix(a, 1, 1) && |b| == 1 && Det(a) != 0.0
    ensures a[0][0] != 0.0 && CramerVector(a, b) == [b[0] / a[0][0]]
  {
    var a0 := ReplaceColumn(a, 0, b);
    Det1(a);
    Det1(a0);
    assert a0[0][0] == b[0];
  }

  /** The determinant of a 2x2 matrix whose column `j` is replaced by `b`. */
  lemma Det2Column(a: Matrix, b: Vector, j: nat)
    requires IsMatrix(a, 2, 2) && |b| == 2 && j < 2
    ensures Det(ReplaceColumn(a, j, b)) ==
      if j == 0 then b[0] * a[1][1] - a[0][1] * b[1] else a[0][0] * b[1] - b[0] * a[1][0]
  {
    var aj := ReplaceColumn(a, j, b);
    Det2(aj);
    if j == 0 {
      assert aj[0][0] == b[0] && aj[0][1] == a[0][1] && aj[1][0] == b[1] && aj[1][1] == a[1][1];
    } else {
      assert aj[0][0] == a[0][0] && aj[0][1] == b[0] && aj[1][0] == a[1][0] && aj[1][1] == b[1];
    }
  }

  /** The three determinants of a 2x2 Cramer step in closed form. */
  lemma Det2Columns(a: Matrix, b: Vector)
    requires IsMatrix(a, 2, 2) && |b| == 2
    ensures Det(a) == a[0][0] * a[1][1] - a[0][1] * a[1][0]
    ensures Det(ReplaceColumn(a, 0, b)) == b[0] * a[1][1] - a[0][1] * b[1]
    ensures Det(ReplaceColumn(a, 1, b)) == a[0][0] * b[1] - b[0] * a[1][0]
  {
    Det2(a);
    Det2Column(a, b, 0);
    Det2Column(a, b, 1);
  }

  lemma CramerSolves1(a: Matrix, b: Vector)
    requires IsMatrix(a, 1, 1) && |b| == 1 && Det(a) != 0.0
    ensures Solves(a, b, CramerVector(a, b))
  {
    var x := CramerVector(a, b);
    CramerVector1(a, b);
    assert Dot(a[0], x, 1) == a[0][0] * (b[0] / a[0][0]) == b[0];
  }

  /** The closed-form quotients of Cramer's rule for a 2x2 system. */
  function Cramer2Closed(a: Matrix, b: Vector): (x: Vector)
    requires IsMatrix(a, 2, 2) && |b| == 2 && a[0][0] * a[1][1] - a[0][1] * a[1][0] != 0.0
    ensures |x| == 2
  {
    var d := a[0][0] * a[1][1] - a[0][1] * a[1][0];
    [(b[0] * a[1][1] - a[0][1] * b[1]) / d, (a[0][0] * b[1] - b[0] * a[1][0]) / d]
  }

  /** The closed-form quotients solve the 2x2 system. */
  lemma Cramer2ClosedSolves(a: Matrix, b: Vector)
    requires IsMatrix(a, 2, 2) && |b| == 2 && a[0][0] * a[1][1] - a[0][1] * a[1][0] != 0.0
    ensures Solves(a, b, Cramer2Closed(a, b))
  {
    var d := a[0][0] * a[1][1] - a[0][1] * a[1][0];
    var d0, d1 := b[0] * a[1][1] - a[0][1] * b[1], a[0][0] * b[1] - b[0] * a[1][0];
    var y := Cramer2Closed(a, b);
    Quotient(y[0], d0, d);
    Quotient(y[1], d1, d);
    Cramer2Satisfies(a[0][0], a[0][1], a[1][0], a[1][1], b[0], b[1], d, d0, d1, y[0], y[1]);
    Dot2(a[0], y);
    Dot2(a[1], y);
  }

  /** Every solution of a 2x2 system with a non-zero closed-form determinant
      is the closed-form quotients. */
  lemma Cramer2ClosedUnique(a: Matrix, b: Vector, x: Vector)
    requires IsMatrix(a, 2, 2) && |b| == 2 && a[0][0] * a[1][1] - a[0][1] * a[1][0] != 0.0
    requires Solves(a, b, x)
    ensures x == Cramer2Closed(a, b)
  {
    var d := a[0][0] * a[1][1] - a[0][1] * a[1][0];
    var d0, d1 := b[0] * a[1][1] - a[0][1] * b[1], a[0][0] * b[1] - b[0] * a[1][0];
    Solves2(a, b, x);
    Quotient(x[0], d0, d);
    Quotient(x[1], d1, d);
    assert x == [d0 / d, d1 / d];
  }

  /** For a 2x2 matrix, Cramer's vector is the closed-form quotients. */
  lemma CramerVectorClosed2(a: Matrix, b: Vector)
    requires IsMatrix(a, 2, 2) && |b| == 2 && Det(a) != 0.0
    ensures a[0][0] * a[1][1] - a[0][1] * a[1][0] != 0.0
    ensures CramerVector(a, b) == Cramer2Closed(a, b)
  {
    Det2Columns(a, b);
    var y := CramerVector(a, b);
    assert y[0] == Det(ReplaceColumn(a, 0, b)) / Det(a);
    assert y[1] == Det(ReplaceColumn(a, 1, b)) / Det(a);
  }

  /** A 2x2 system with a non-zero determinant is solved by Cramer's vector. */
  lemma CramerSolves2(a: Matrix, b: Vector)
    requires IsMatrix(a, 2, 2) && |b| == 2 && Det(a) != 0.0
    ensures Solves(a, b, CramerVector(a, b))
  {
    CramerVectorClosed2(a, b);
    Cramer2ClosedSolves(a, b);
  }

  /** For 1x1 and 2x2 systems with a non-zero determinant, Cramer's vector
      solves the system. */
  lemma CramerSolvesSmall(a: Matrix, b: Vector)
    requires IsMatrix(a, |b|, |b|) && |b| <= 2 && Det(a) != 0.0
    ensures Solves(a, b, CramerVector(a, b))
  {
    if |b| == 1 {
      CramerSolves1(a, b);
    } else if |b| == 2 {
      CramerSolves2(a, b);
    }
  }

  lemma SolutionIsCramer1(a: Matrix, b: Vector, x: Vector)
    requires IsMatrix(a, 1, 1) && |b| == 1 && Det(a) != 0.0
    requires Solves(a, b, x)
    ensures x == CramerVector(a, b)
  {
    CramerVector1(a, b);
    assert Dot(a[0], x, 1) == a[0][0] * x[0] == b[0];
    assert x[0] == b[0] / a[0][0];
    assert x == [x[0]];
  }

  /** Any solution of a 2x2 system, multiplied by the closed-form determinant. */
  lemma Solves2(a: Matrix, b: Vector, x: Vector)
    requires IsMatrix(a, 2, 2) && |b| == 2 && Solves(a, b, x)
    ensures x[0] * (a[0][0] * a[1][1] - a[0][1] * a[1][0]) == b[0] * a[1][1] - a[0][1] * b[1]
    ensures x[1] * (a[0][0] * a[1][1] - a[0][1] * a[1][0]) == a[0][0] * b[1] - b[0] * a[1][0]
  {
    Dot2(a[0], x);
    Dot2(a[1], x);
    Cramer2Unique(a[0][0], a[0][1], a[1][0], a[1][1], b[0], b[1], x[0], x[1]);
  }

  lemma SolutionIsCramer2(a: Matrix, b: Vector, x: Vector)
    requires IsMatrix(a, 2, 2) && |b| == 2 && Det(a) != 0.0
    requires Solves(a, b, x)
    ensures x == CramerVector(a, b)
  {
    CramerVectorClosed2(a, b);
    Cramer2ClosedUnique(a, b, x);
  }

  /** For 1x1 and 2x2 systems with a non-zero determinant, every solution is
      Cramer's vector: any two strategies that solve such a system agree. */
  lemma SmallSolutionIsCramer(a: Matrix, b: Vector, x: Vector)
    requires IsMatrix(a, |b|, |b|) && |b| <= 2 && Det(a) != 0.0
    requires Solves(a, b, x)
    ensures x == CramerVector(a, b)
  {
    if |b| == 1 {
      SolutionIsCramer1(a, b, x);
    } else if |b| == 2 {
      SolutionIsCramer2(a, b, x);
    }
  }
}
