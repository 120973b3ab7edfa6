/** Gauss-Jordan elimination over GF(2) (utils.py `ge_initialize_given_syndrome`).

    The system H x = s is reduced on the augmented matrix [H | s]: column by
    column, the first row at or below the current pivot row with a 1 in the
    column is swapped into place and XORed into every other row holding a 1
    there. The solution puts the right-hand side of pivot row i at pivot
    column i and 0 at every free column. */
module Elimination {
  import opened Bits
  import opened Results

  /** The state of the elimination when it stops: the reduced augmented
      matrix and the pivot column of each leading row. */
  datatype Reduction = Reduction(rows: Matrix, pivots: seq<nat>)

  /** The augmented matrix [H | s]: each row of H with its syndrome bit
      appended as an extra last column. */
  function Augment(H: Matrix, s: Bits, n: nat): (A: Matrix)
    requires |s| == |H| && HasColumns(H, n)
    ensures |A| == |H| && HasColumns(A, n + 1)
    ensures forall i :: 0 <= i < |A| ==> A[i][..n] == H[i] && A[i][n] == s[i]
  {
    seq(|H|, i requires 0 <= i < |H| => H[i] + [s[i]])
  }

  /** x satisfies every row equation `row[..n] . x == row[n]` of A. */
  ghost predicate Solves(A: Matrix, n: nat, x: Bits)
    requires HasColumns(A, n + 1) && |x| == n
  {
    forall i {:trigger Dot(A[i][..n], x)} :: 0 <= i < |A| ==> Dot(A[i][..n], x) == A[i][n]
  }

  /** Solutions of [H | s] are exactly the error vectors with syndrome s. */
  lemma AugmentSolves(H: Matrix, s: Bits, n: nat, x: Bits)
    requires |s| == |H| && HasColumns(H, n) && |x| == n
    ensures Solves(Augment(H, s, n), n, x) <==> Syndrome(H, x) == s
  {
  }

  // ---------------------------------------------------------------------
  // Row operations

  /** The pivot search of one column: the first row at or below r with a 1
      in column c, or none when the search runs off the bottom. */
  function FindPivot(A: Matrix, r: nat, c: nat): (p: Option<nat>)
    requires r <= |A| && forall k :: 0 <= k < |A| ==> c < |A[k]|
    ensures p.Some? ==> r <= p.value < |A| && A[p.value][c]
    ensures p.Some? ==> forall k :: r <= k < p.value ==> !A[k][c]
    ensures p.None? ==> forall k :: r <= k < |A| ==> !A[k][c]
    decreases |A| - r
  {
    if r == |A| then None
    else if A[r][c] then Some(r)
    else FindPivot(A, r + 1, c)
  }

  /** Exchanges rows r and i (a no-op when they coincide). */
  function SwapRows(A: Matrix, r: nat, i: nat): (B: Matrix)
    requires r < |A| && i < |A|
    ensures |B| == |A|
  {
    A[r := A[i]][i := A[r]]
  }

  /** Clears column c outside the pivot row: every other row with a 1 in
      column c has the pivot row r added to it. `ge_initialize_given_syndrome`
      does this one row at a time, but row r itself is never changed along the way, so every
      row is added the same pivot row and the updates may be made at once. */
  function Eliminate(A: Matrix, n: nat, r: nat, c: nat): (B: Matrix)
    requires HasColumns(A, n + 1) && r < |A| && c < n
    ensures |B| == |A| && HasColumns(B, n + 1)
  {
    seq(|A|, k requires 0 <= k < |A| => if k != r && A[k][c] then Xor(A[k], A[r]) else A[k])
  }

  /** A row swap keeps the solution set of the system. */
  lemma SwapPreserves(A: Matrix, n: nat, r: nat, i: nat, x: Bits)
    requires HasColumns(A, n + 1) && r < |A| && i < |A| && |x| == n
    ensures HasColumns(SwapRows(A, r, i), n + 1)
    ensures Solves(A, n, x) <==> Solves(SwapRows(A, r, i), n, x)
  {
    var B := SwapRows(A, r, i);
    if Solves(A, n, x) {
      forall k | 0 <= k < |B| ensures Dot(B[k][..n], x) == B[k][n] {
        if k == i {
        } else if k == r {
        }
      }
    }
    if Solves(B, n, x) {
      forall k | 0 <= k < |A| ensures Dot(A[k][..n], x) == A[k][n] {
        if k == i {
          assert A[k] == B[r];
        } else if k == r {
          assert A[k] == B[i];
        } else {
          assert A[k] == B[k];
        }
      }
    }
  }

  /** XORing row a with row b: the equation of the sum is the sum of the
      equations. */
  lemma RowSum(a: Bits, b: Bits, n: nat, x: Bits)
    requires |a| == |b| == n + 1 && |x| == n
    ensures Dot(Xor(a, b)[..n], x) == (Dot(a[..n], x) != Dot(b[..n], x))
  {
    XorPrefix(a, b, n);
    DotXorLeft(a[..n], b[..n], x);
  }

  /** Clearing column c with the pivot row keeps the solution set. */
  lemma EliminatePreserves(A: Matrix, n: nat, r: nat, c: nat, x: Bits)
    requires HasColumns(A, n + 1) && r < |A| && c < n && |x| == n
    ensures Solves(A, n, x) <==> Solves(Eliminate(A, n, r, c), n, x)
  {
    var B := Eliminate(A, n, r, c);
    assert B[r] == A[r];
    if Solves(A, n, x) {
      forall k | 0 <= k < |B| ensures Dot(B[k][..n], x) == B[k][n] {
        if k != r && A[k][c] {
          RowSum(A[k], A[r], n, x);
        }
      }
    }
    if Solves(B, n, x) {
      forall k | 0 <= k < |A| ensures Dot(A[k][..n], x) == A[k][n] {
        if k != r && A[k][c] {
          RowSum(B[k], B[r], n, x);
          assert A[k] == Xor(B[k], B[r]);
        }
      }
    }
  }

  // ---------------------------------------------------------------------
  // The column loop

  /** The loop state before column c: rows [0, r) carry the pivots found so
      far, each pivot column is zero outside its own row, and rows at or
      below r are zero in every column already visited. */
  ghost predicate Partial(A: Matrix, n: nat, c: nat, r: nat, pivots: seq<nat>)
  {
    && HasColumns(A, n + 1) && c <= n && r <= |A| && |pivots| == r
    && (forall i, j :: 0 <= i < j < r ==> pivots[i] < pivots[j])
    && (forall i :: 0 <= i < r ==> pivots[i] < c)
    && (forall i, k :: 0 <= i < r && 0 <= k < |A| ==> A[k][pivots[i]] == (k == i))
    && (forall k, j :: r <= k < |A| && 0 <= j < c ==> !A[k][j])
  }

  /** Reduced row echelon form of an augmented matrix: strictly increasing
      pivot columns, each a unit column with its 1 in its own row, and no
      coefficient left in the rows below the pivots. */
  ghost predicate Reduced(R: Matrix, n: nat, pivots: seq<nat>)
  {
    && HasColumns(R, n + 1) && |pivots| <= |R|
    && (forall i, j :: 0 <= i < j < |pivots| ==> pivots[i] < pivots[j])
    && (forall i :: 0 <= i < |pivots| ==> pivots[i] < n)
    && (forall i, k :: 0 <= i < |pivots| && 0 <= k < |R| ==> R[k][pivots[i]] == (k == i))
    && (forall k, j :: |pivots| <= k < |R| && 0 <= j < n ==> !R[k][j])
  }

  /** One pivot step (swap, then clear the column) extends the loop state by
      one pivot. */
  lemma PivotStep(A: Matrix, n: nat, c: nat, r: nat, pivots: seq<nat>, i: nat)
    requires Partial(A, n, c, r, pivots) && c < n
    requires r <= i < |A| && A[i][c]
    ensures Partial(Eliminate(SwapRows(A, r, i), n, r, c), n, c + 1, r + 1, pivots + [c])
  {
    var S := SwapRows(A, r, i);
    var B := Eliminate(S, n, r, c);
    var P := pivots + [c];
    assert HasColumns(S, n + 1) by {
      forall k | 0 <= k < |S| ensures |S[k]| == n + 1 {
        if k == i { } else if k == r { }
      }
    }
    // rows at or below r of S come from rows at or below r of A
    assert forall k :: r <= k < |S| ==> (k == r || k == i || S[k] == A[k]);
    assert S[r] == A[i];
    forall k, j | r <= k < |S| && 0 <= j < c ensures !S[k][j] {
      if k == r {
      } else if k == i {
        assert S[k] == A[r];
      }
    }
    forall t, k | 0 <= t < r && 0 <= k < |S| ensures S[k][pivots[t]] == (k == t) {
      if k == i {
        assert S[k] == A[r];
      } else if k == r {
      }
    }
    forall t, k | 0 <= t < r + 1 && 0 <= k < |B| ensures B[k][P[t]] == (k == t) {
      if t < r {
        assert !S[r][pivots[t]];
      }
    }
    forall k, j | r + 1 <= k < |B| && 0 <= j < c + 1 ensures !B[k][j] {
      if j < c {
        assert !S[r][j];
      }
    }
  }

  /** A column with no 1 at or below row r extends the loop state without a
      new pivot. */
  lemma SkipStep(A: Matrix, n: nat, c: nat, r: nat, pivots: seq<nat>)
    requires Partial(A, n, c, r, pivots) && c < n && FindPivot(A, r, c).None?
    ensures Partial(A, n, c + 1, r, pivots)
  {
  }

  /** The column loop of `ge_initialize_given_syndrome` from column c with r
      pivots found; it stops after the last column or as soon as every row
      holds a pivot. */
  function ReduceFrom(A: Matrix, n: nat, c: nat, r: nat, pivots: seq<nat>): (red: Reduction)
    requires Partial(A, n, c, r, pivots)
    ensures |red.rows| == |A|
    ensures Reduced(red.rows, n, red.pivots)
    decreases n - c
  {
    if c == n then Reduction(A, pivots)
    else
      match FindPivot(A, r, c)
      case None => ReduceFrom(A, n, c + 1, r, pivots)
      case Some(i) =>
        PivotStep(A, n, c, r, pivots, i);
        var B := Eliminate(SwapRows(A, r, i), n, r, c);
        if r + 1 == |A| then Reduction(B, pivots + [c])
        else ReduceFrom(B, n, c + 1, r + 1, pivots + [c])
  }

  /** The elimination leaves the solution set of the system unchanged. */
  lemma {:induction false} ReducePreserves(A: Matrix, n: nat, c: nat, r: nat, pivots: seq<nat>, x: Bits)
    requires Partial(A, n, c, r, pivots) && |x| == n
    ensures Solves(A, n, x) <==> Solves(ReduceFrom(A, n, c, r, pivots).rows, n, x)
    decreases n - c
  {
    if c < n {
      match FindPivot(A, r, c)
      case None =>
        assert Partial(A, n, c + 1, r, pivots) by {
          SkipStep(A, n, c, r, pivots);
        }
        ReducePreserves(A, n, c + 1, r, pivots, x);
      case Some(i) =>
        var B := Eliminate(SwapRows(A, r, i), n, r, c);
        assert Solves(A, n, x) <==> Solves(B, n, x) by {
          PivotPreserves(A, n, r, i, c, x);
        }
        if r + 1 < |A| {
          assert Partial(B, n, c + 1, r + 1, pivots + [c]) by {
            PivotStep(A, n, c, r, pivots, i);
          }
          ReducePreserves(B, n, c + 1, r + 1, pivots + [c], x);
        }
    }
  }

  /** A whole pivot step (swap, then clear the column) keeps the solution set. */
  lemma PivotPreserves(A: Matrix, n: nat, r: nat, i: nat, c: nat, x: Bits)
    requires HasColumns(A, n + 1) && r < |A| && i < |A| && c < n && |x| == n
    ensures Solves(A, n, x) <==> Solves(Eliminate(SwapRows(A, r, i), n, r, c), n, x)
  {
    SwapPreserves(A, n, r, i, x);
    EliminatePreserves(SwapRows(A, r, i), n, r, c, x);
  }

  /** Every right-hand side is 0. */
  ghost predicate ZeroRhs(A: Matrix, n: nat)
    requires HasColumns(A, n + 1)
  {
    forall k :: 0 <= k < |A| ==> !A[k][n]
  }

  /** Row swaps and row sums of equations with right-hand side 0 keep it 0. */
  lemma {:induction false} ReduceKeepsZeroRhs(A: Matrix, n: nat, c: nat, r: nat, pivots: seq<nat>)
    requires Partial(A, n, c, r, pivots) && ZeroRhs(A, n)
    ensures ZeroRhs(ReduceFrom(A, n, c, r, pivots).rows, n)
    decreases n - c
  {
    if c < n {
      match FindPivot(A, r, c)
      case None =>
        assert Partial(A, n, c + 1, r, pivots) by {
          SkipStep(A, n, c, r, pivots);
        }
        ReduceKeepsZeroRhs(A, n, c + 1, r, pivots);
      case Some(i) =>
        var B := Eliminate(SwapRows(A, r, i), n, r, c);
        assert ZeroRhs(B, n) by {
          PivotKeepsZeroRhs(A, n, r, i, c);
        }
        if r + 1 < |A| {
          assert Partial(B, n, c + 1, r + 1, pivots + [c]) by {
            PivotStep(A, n, c, r, pivots, i);
          }
          ReduceKeepsZeroRhs(B, n, c + 1, r + 1, pivots + [c]);
        }
    }
  }

  /** A pivot step on equations whose right-hand sides are all 0 keeps them 0. */
  lemma PivotKeepsZeroRhs(A: Matrix, n: nat, r: nat, i: nat, c: nat)
    requires HasColumns(A, n + 1) && r < |A| && i < |A| && c < n && ZeroRhs(A, n)
    ensures ZeroRhs(Eliminate(SwapRows(A, r, i), n, r, c), n)
  {
    var S := SwapRows(A, r, i);
    assert HasColumns(S, n + 1) && ZeroRhs(S, n) by {
      forall k | 0 <= k < |S| ensures |S[k]| == n + 1 && !S[k][n] {
        if k == i { } else if k == r { }
      }
    }
  }

  /** The whole elimination, started at column 0 with no pivots. */
  function Reduce(A: Matrix, n: nat): (red: Reduction)
    requires HasColumns(A, n + 1)
    ensures |red.rows| == |A| && Reduced(red.rows, n, red.pivots)
  {
    ReduceFrom(A, n, 0, 0, [])
  }

  // ---------------------------------------------------------------------
  // Back substitution

  /** Back substitution from a zero vector: for each of the first `count`
      pivot rows, the pivot column gets that row's right-hand side; every
      other column stays 0. */
  function AssignPivots(R: Matrix, n: nat, pivots: seq<nat>, count: nat): (x: Bits)
    requires HasColumns(R, n + 1) && count <= |pivots| && count <= |R|
    requires forall i :: 0 <= i < count ==> pivots[i] < n
    requires forall i, j :: 0 <= i < j < count ==> pivots[i] < pivots[j]
    ensures |x| == n
    ensures forall i :: 0 <= i < count ==> x[pivots[i]] == R[i][n]
    ensures forall j :: 0 <= j < n && j !in pivots[..count] ==> !x[j]
  {
    if count == 0 then Zeros(n)
    else
      var x' := AssignPivots(R, n, pivots, count - 1);
      assert forall j :: j in pivots[..count] <==> j in pivots[..count - 1] || j == pivots[count - 1];
      x'[pivots[count - 1] := R[count - 1][n]]
  }

  /** `ge_initialize_given_syndrome(H, s)`: the particular solution with
      every free variable set to 0. It holds the right-hand side of pivot
      row i at pivot column i and 0 at every free column; it reproduces
      every achievable syndrome, and a zero syndrome gives the zero vector. */
  function Solve(H: Matrix, s: Bits, n: nat): (x: Bits)
    requires |s| == |H| && HasColumns(H, n)
    ensures |x| == n
    ensures var red := Reduce(Augment(H, s, n), n);
            && (forall i :: 0 <= i < |red.pivots| ==> x[red.pivots[i]] == red.rows[i][n])
            && (forall j :: 0 <= j < n && j !in red.pivots ==> !x[j])
    ensures Achievable(H, s, n) ==> Syndrome(H, x) == s
    ensures s == Zeros(|H|) ==> IsZero(x)
  {
    var red := Reduce(Augment(H, s, n), n);
    assert red.pivots[..|red.pivots|] == red.pivots;
    BackSubstitutionSolves(H, s, n);
    BackSubstitutionZero(H, s, n);
    AssignPivots(red.rows, n, red.pivots, |red.pivots|)
  }

  // ---------------------------------------------------------------------
  // Properties of the solver

  /** A strictly increasing list of columns below n has at most n entries. */
  lemma {:induction false} IncreasingBound(p: seq<nat>, n: nat)
    requires forall i, j :: 0 <= i < j < |p| ==> p[i] < p[j]
    requires forall i :: 0 <= i < |p| ==> p[i] < n
    ensures |p| <= n
    decreases |p|
  {
    if |p| > 0 {
      IncreasingBound(p[..|p| - 1], p[|p| - 1]);
    }
  }

  /** The pivot columns are strictly increasing and number at most min(m, n);
      each is a unit column of the reduced matrix with its 1 in its own row.
      Solve's result is described in terms of these pivots. */
  lemma PivotShape(H: Matrix, s: Bits, n: nat)
    requires |s| == |H| && HasColumns(H, n)
    ensures var red := Reduce(Augment(H, s, n), n);
            && |red.pivots| <= |H| && |red.pivots| <= n
            && (forall i, j :: 0 <= i < j < |red.pivots| ==> red.pivots[i] < red.pivots[j])
            && (forall i, k :: 0 <= i < |red.pivots| && 0 <= k < |H| ==>
                  red.rows[k][red.pivots[i]] == (k == i))
  {
    var red := Reduce(Augment(H, s, n), n);
    IncreasingBound(red.pivots, n);
  }

  /** The reduced system is satisfied by the back-substituted vector,
      provided no zero row was left with right-hand side 1. */
  lemma ReducedSolved(R: Matrix, n: nat, pivots: seq<nat>)
    requires Reduced(R, n, pivots)
    requires forall k :: |pivots| <= k < |R| ==> !R[k][n]
    ensures Solves(R, n, AssignPivots(R, n, pivots, |pivots|))
  {
    var x := AssignPivots(R, n, pivots, |pivots|);
    assert pivots[..|pivots|] == pivots;
    forall k | 0 <= k < |R| ensures Dot(R[k][..n], x) == R[k][n] {
      if k < |pivots| {
        PivotRowSolved(R, n, pivots, x, k);
      } else {
        DotZero(R[k][..n], x);
      }
    }
  }

  /** Pivot row k meets the back-substituted vector only at its own pivot
      column, where the vector holds the row's right-hand side. */
  lemma PivotRowSolved(R: Matrix, n: nat, pivots: seq<nat>, x: Bits, k: nat)
    requires Reduced(R, n, pivots) && k < |pivots| && |x| == n
    requires forall i :: 0 <= i < |pivots| ==> x[pivots[i]] == R[i][n]
    requires forall j :: 0 <= j < n && j !in pivots ==> !x[j]
    ensures Dot(R[k][..n], x) == R[k][n]
  {
    var T: set<nat> := if R[k][n] then {pivots[k]} else {};
    forall j | 0 <= j < n ensures (R[k][..n][j] && x[j]) <==> j in T {
      if j in pivots {
        var t :| 0 <= t < |pivots| && pivots[t] == j;
        if t != k {
          assert !R[k][j];
        }
      }
    }
    DotParity(R[k][..n], x, T);
  }

  /** Correctness (utils.py:71): when s is achievable, back substitution on
      the reduced augmented system gives a vector x with H . x == s (mod 2). */
  lemma BackSubstitutionSolves(H: Matrix, s: Bits, n: nat)
    requires |s| == |H| && HasColumns(H, n)
    ensures var red := Reduce(Augment(H, s, n), n);
            Achievable(H, s, n) ==> Syndrome(H, AssignPivots(red.rows, n, red.pivots, |red.pivots|)) == s
  {
    if Achievable(H, s, n) {
      var A := Augment(H, s, n);
      var red := Reduce(A, n);
      var R := red.rows;
      var e: Bits :| |e| == n && HasColumns(H, |e|) && Syndrome(H, e) == s;
      AugmentSolves(H, s, n, e);
      ReducePreserves(A, n, 0, 0, [], e);
      forall k | |red.pivots| <= k < |R| ensures !R[k][n] {
        DotZero(R[k][..n], e);
      }
      ReducedSolved(R, n, red.pivots);
      var x := AssignPivots(R, n, red.pivots, |red.pivots|);
      ReducePreserves(A, n, 0, 0, [], x);
      AugmentSolves(H, s, n, x);
    }
  }

  /** A zero syndrome keeps every right-hand side 0 through the reduction,
      so back substitution yields the zero correction. */
  lemma BackSubstitutionZero(H: Matrix, s: Bits, n: nat)
    requires |s| == |H| && HasColumns(H, n)
    ensures var red := Reduce(Augment(H, s, n), n);
            s == Zeros(|H|) ==> IsZero(AssignPivots(red.rows, n, red.pivots, |red.pivots|))
  {
    if s == Zeros(|H|) {
      ReduceKeepsZeroRhs(Augment(H, s, n), n, 0, 0, []);
    }
  }
}
