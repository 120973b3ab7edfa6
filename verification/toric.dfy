/** Geometry of the L x L toric code (code.py).

    Qubits sit on the 2L^2 edges of a periodic L x L lattice. Horizontal edge
    (x, y) is qubit (y mod L) * L + (x mod L); vertical edge (x, y) is that
    index shifted by L^2. Python's `%` with a positive modulus is the
    non-negative remainder, which is exactly Dafny's Euclidean `%`. */
module Toric {
  import opened Bits

  /** Number of qubits: one per edge of the torus, 2L². */
  function QubitCount(L: nat): (n: nat) {
    2 * (L * L)
  }

  // ---------------------------------------------------------------------
  // Division and remainder facts

  lemma MulSign(d: int, L: nat)
    ensures d >= 1 ==> d * L >= L
    ensures d <= -1 ==> d * L + L <= 0
  {
  }

  lemma MulMonotone(a: int, b: int, L: nat)
    ensures a <= b ==> a * L <= b * L
  {
    MulSign(b - a, L);
    assert b * L - a * L == (b - a) * L;
  }

  /** Division by L has a unique quotient and remainder in [0, L). */
  lemma DivModUnique(L: nat, q: int, r: int)
    requires L >= 1 && 0 <= r < L
    ensures (q * L + r) / L == q && (q * L + r) % L == r
  {
    var a := q * L + r;
    var d := a / L - q;
    assert a == (a / L) * L + a % L;
    assert d * L == (a / L) * L - q * L;
    MulSign(d, L);
  }

  lemma SmallMod(L: nat, a: int)
    requires 0 <= a < L
    ensures a % L == a && a / L == 0
  {
    DivModUnique(L, 0, a);
  }

  lemma CellBound(L: nat, a: int, b: int)
    requires 0 <= a < L && 0 <= b < L
    ensures a * L + b < L * L
  {
    MulMonotone(a, L - 1, L);
    assert (L - 1) * L == L * L - L;
  }

  /** Successor on residues: (a + 1) mod L is determined by a mod L. */
  lemma WrapSucc(L: nat, a: int)
    requires L >= 1
    ensures (a + 1) % L == (if a % L + 1 == L then 0 else a % L + 1)
  {
    var q := a / L;
    assert a == q * L + a % L;
    if a % L + 1 == L {
      DivModUnique(L, q + 1, 0);
      assert a + 1 == (q + 1) * L + 0;
    } else {
      DivModUnique(L, q, a % L + 1);
    }
  }

  /** Shifting both sides by one preserves congruence mod L, both ways. */
  lemma WrapShift(L: nat, a: int, b: int)
    requires L >= 1
    ensures a % L == b % L <==> (a + 1) % L == (b + 1) % L
  {
    WrapSucc(L, a);
    WrapSucc(L, b);
  }

  // ---------------------------------------------------------------------
  // Edge index maps (code.py `_edge_index_hori`, `_edge_index_vert`)

  function HorizontalEdge(L: nat, x: int, y: int): (k: nat)
    requires L >= 1
    ensures k < L * L
  {
    CellBound(L, y % L, x % L);
    (y % L) * L + x % L
  }

  function VerticalEdge(L: nat, x: int, y: int): (k: nat)
    requires L >= 1
    ensures L * L <= k < QubitCount(L)
  {
    L * L + HorizontalEdge(L, x, y)
  }

  /** Horizontal index of a qubit: its row-major cell (x, y). */
  function CellOf(L: nat, k: nat): (c: (nat, nat))
    requires L >= 1 && k < L * L
    ensures c.0 < L && c.1 < L
  {
    var y := k / L;
    assert k == y * L + k % L;
    MulMonotone(L, y, L);
    (k % L, y)
  }

  /** A horizontal index is the edge whose coordinates reduce to its cell. */
  lemma HorizontalAt(L: nat, k: nat, x: int, y: int)
    requires L >= 1 && k < L * L
    ensures k == HorizontalEdge(L, x, y) <==> (x % L == k % L && y % L == k / L)
  {
    DivModUnique(L, y % L, x % L);
    assert k == (k / L) * L + k % L;
  }

  /** Two edges of the same orientation coincide exactly when their
      coordinates agree mod L. */
  lemma EdgeEquality(L: nat, a: int, b: int, c: int, d: int)
    requires L >= 1
    ensures HorizontalEdge(L, a, b) == HorizontalEdge(L, c, d)
            <==> (a % L == c % L && b % L == d % L)
    ensures VerticalEdge(L, a, b) == VerticalEdge(L, c, d)
            <==> (a % L == c % L && b % L == d % L)
  {
    DivModUnique(L, b % L, a % L);
    DivModUnique(L, d % L, c % L);
  }

  /** Both index maps are L-periodic in each coordinate. */
  lemma {:induction false} EdgePeriodic(L: nat, x: int, y: int)
    requires L >= 1
    ensures HorizontalEdge(L, x + L, y) == HorizontalEdge(L, x, y)
    ensures HorizontalEdge(L, x, y + L) == HorizontalEdge(L, x, y)
    ensures VerticalEdge(L, x + L, y) == VerticalEdge(L, x, y)
    ensures VerticalEdge(L, x, y + L) == VerticalEdge(L, x, y)
  {
    DivModUnique(L, x / L + 1, x % L);
    assert x + L == (x / L + 1) * L + x % L;
    DivModUnique(L, y / L + 1, y % L);
    assert y + L == (y / L + 1) * L + y % L;
  }

  /** On the fundamental cell [0, L) x [0, L) the horizontal map is a
      bijection onto [0, L^2) with inverse CellOf. */
  lemma {:induction false} HorizontalBijection(L: nat, x: nat, y: nat, k: nat)
    requires L >= 1 && x < L && y < L && k < L * L
    ensures CellOf(L, HorizontalEdge(L, x, y)) == (x, y)
    ensures HorizontalEdge(L, CellOf(L, k).0, CellOf(L, k).1) == k
  {
    SmallMod(L, x);
    SmallMod(L, y);
    DivModUnique(L, y, x);
    var c := CellOf(L, k);
    SmallMod(L, c.0);
    SmallMod(L, c.1);
    HorizontalAt(L, k, c.0, c.1);
  }

  /** On the fundamental cell the vertical map is a bijection onto
      [L^2, 2L^2) with inverse k |-> CellOf(L, k - L^2). */
  lemma {:induction false} VerticalBijection(L: nat, x: nat, y: nat, k: nat)
    requires L >= 1 && x < L && y < L && L * L <= k < QubitCount(L)
    ensures CellOf(L, VerticalEdge(L, x, y) - L * L) == (x, y)
    ensures VerticalEdge(L, CellOf(L, k - L * L).0, CellOf(L, k - L * L).1) == k
  {
    HorizontalBijection(L, x, y, k - L * L);
  }

  // ---------------------------------------------------------------------
  // Stabilizers (code.py `_build_Xs`, `_build_Zs`)

  /** X stabilizers are the plaquettes, Z stabilizers the vertices. */
  datatype Family = XFamily | ZFamily

  /** The four qubits of the stabilizer of the given family at (x, y), in
      the order the Python lists them. */
  function Stabilizer(L: nat, f: Family, x: int, y: int): (s: seq<nat>)
    requires L >= 1
    ensures |s| == 4
    ensures forall i :: 0 <= i < 4 ==> s[i] < QubitCount(L)
  {
    match f
    case XFamily =>
      [HorizontalEdge(L, x, y), VerticalEdge(L, x, y),
       HorizontalEdge(L, x, y + 1), VerticalEdge(L, x + 1, y)]
    case ZFamily =>
      [HorizontalEdge(L, x, y), VerticalEdge(L, x, y),
       HorizontalEdge(L, x - 1, y), VerticalEdge(L, x, y - 1)]
  }

  /** The stabilizer list of a family: entry y * L + x is the stabilizer at
      cell (x, y), which is the order of the nested `for y` / `for x` loops. */
  function Stabilizers(L: nat, f: Family): (ss: seq<seq<nat>>)
    ensures |ss| == L * L
    ensures forall i :: 0 <= i < |ss| ==>
              |ss[i]| == 4 && forall j :: 0 <= j < 4 ==> ss[i][j] < QubitCount(L)
  {
    seq(L * L, i requires 0 <= i < L * L => Stabilizer(L, f, i % L, i / L))
  }

  /** Cell (x, y) of the fundamental domain owns entry y * L + x. */
  lemma StabilizerLayout(L: nat, f: Family, x: nat, y: nat)
    requires L >= 1 && x < L && y < L
    ensures y * L + x < L * L
    ensures Stabilizers(L, f)[y * L + x] == Stabilizer(L, f, x, y)
  {
    CellBound(L, y, x);
    DivModUnique(L, y, x);
    var i := y * L + x;
    assert Stabilizers(L, f)[i] == Stabilizer(L, f, i % L, i / L);
  }

  /** The loop of `_build_Xs` / `_build_Zs`: rows y, then columns x, one
      append per cell. */
  method BuildStabilizers(L: nat, f: Family) returns (ss: seq<seq<nat>>)
    ensures ss == Stabilizers(L, f)
  {
    ss := [];
    var y := 0;
    while y < L
      invariant 0 <= y <= L
      invariant |ss| == y * L
      invariant forall t :: 0 <= t < |ss| ==> ss[t] == Stabilizer(L, f, t % L, t / L)
    {
      var x := 0;
      while x < L
        invariant 0 <= x <= L
        invariant |ss| == y * L + x
        invariant forall t :: 0 <= t < |ss| ==> ss[t] == Stabilizer(L, f, t % L, t / L)
      {
        DivModUnique(L, y, x);
        ss := ss + [Stabilizer(L, f, x, y)];
        x := x + 1;
      }
      assert y * L + L == (y + 1) * L;
      y := y + 1;
    }
  }

  // ---------------------------------------------------------------------
  // Logical operators

  /** `logical_Z_support`: vertical edges of column x = 0. */
  function LogicalZSupport(L: nat): (s: seq<nat>)
    ensures |s| == L
    ensures forall i :: 0 <= i < L ==> L * L <= s[i] < QubitCount(L)
    ensures forall i, j :: 0 <= i < j < L ==> s[i] != s[j]
  {
    forall i, j | 0 <= i < j < L ensures VerticalEdge(L, 0, i) != VerticalEdge(L, 0, j) {
      EdgeEquality(L, 0, i, 0, j);
      SmallMod(L, i);
      SmallMod(L, j);
    }
    seq(L, y requires 0 <= y < L => VerticalEdge(L, 0, y))
  }

  /** `logical_X_support`: horizontal edges of row y = 0. */
  function LogicalXSupport(L: nat): (s: seq<nat>)
    ensures |s| == L
    ensures forall i :: 0 <= i < L ==> s[i] < L * L
    ensures forall i, j :: 0 <= i < j < L ==> s[i] != s[j]
  {
    forall i, j | 0 <= i < j < L ensures HorizontalEdge(L, i, 0) != HorizontalEdge(L, j, 0) {
      EdgeEquality(L, i, 0, j, 0);
      SmallMod(L, i);
      SmallMod(L, j);
    }
    seq(L, x requires 0 <= x < L => HorizontalEdge(L, x, 0))
  }

  /** `logical_X_conjugate`: vertical edges of row y = 0. */
  function LogicalXConjugate(L: nat): (s: seq<nat>)
    ensures |s| == L
    ensures forall i :: 0 <= i < L ==> L * L <= s[i] < QubitCount(L)
    ensures forall i, j :: 0 <= i < j < L ==> s[i] != s[j]
  {
    forall i, j | 0 <= i < j < L ensures VerticalEdge(L, i, 0) != VerticalEdge(L, j, 0) {
      EdgeEquality(L, i, 0, j, 0);
      SmallMod(L, i);
      SmallMod(L, j);
    }
    seq(L, x requires 0 <= x < L => VerticalEdge(L, x, 0))
  }

  /** `logical_Z_conjugate`: horizontal edges of column x = 0. */
  function LogicalZConjugate(L: nat): (s: seq<nat>)
    ensures |s| == L
    ensures forall i :: 0 <= i < L ==> s[i] < L * L
    ensures forall i, j :: 0 <= i < j < L ==> s[i] != s[j]
  {
    forall i, j | 0 <= i < j < L ensures HorizontalEdge(L, 0, i) != HorizontalEdge(L, 0, j) {
      EdgeEquality(L, 0, i, 0, j);
      SmallMod(L, i);
      SmallMod(L, j);
    }
    seq(L, y requires 0 <= y < L => HorizontalEdge(L, 0, y))
  }

  // ---------------------------------------------------------------------
  // Check matrices (code.py `stabilizer_matrices`)

  /** `H[i, stab] = 1` on a zero row: column j is 1 iff j is listed in stab. */
  function IndicatorRow(n: nat, s: seq<nat>): (row: Bits)
    ensures |row| == n
  {
    seq(n, j requires 0 <= j < n => j in s)
  }

  function CheckMatrix(n: nat, ss: seq<seq<nat>>): (H: Matrix)
    ensures |H| == |ss| && HasColumns(H, n)
  {
    seq(|ss|, i requires 0 <= i < |ss| => IndicatorRow(n, ss[i]))
  }

  /** The plaquette at (x, y) touches the vertex at (x', y'): the vertex is
      one of the plaquette's four corners. */
  predicate Touches(L: nat, x: int, y: int, x': int, y': int)
    requires L >= 1
  {
    (x % L == x' % L || (x + 1) % L == x' % L) && (y' % L == y % L || y' % L == (y + 1) % L)
  }

  lemma SharedHorizontal(L: nat, x: int, y: int, x': int, y': int, k: nat)
    requires L >= 1 && k < L * L
    ensures (k in Stabilizer(L, XFamily, x, y) && k in Stabilizer(L, ZFamily, x', y'))
            <==> (Touches(L, x, y, x', y') && k == HorizontalEdge(L, x, y'))
  {
    WrapShift(L, x, x' - 1);
    HorizontalAt(L, k, x, y);
    HorizontalAt(L, k, x, y + 1);
    HorizontalAt(L, k, x', y');
    HorizontalAt(L, k, x' - 1, y');
    HorizontalAt(L, k, x, y');
  }

  lemma SharedVertical(L: nat, x: int, y: int, x': int, y': int, k: nat)
    requires L >= 1 && L * L <= k < QubitCount(L)
    ensures (k in Stabilizer(L, XFamily, x, y) && k in Stabilizer(L, ZFamily, x', y'))
            <==> (Touches(L, x, y, x', y') && k == VerticalEdge(L, x', y))
  {
    WrapShift(L, y' - 1, y);
    var k' := k - L * L;
    HorizontalAt(L, k', x, y);
    HorizontalAt(L, k', x + 1, y);
    HorizontalAt(L, k', x', y');
    HorizontalAt(L, k', x', y' - 1);
    HorizontalAt(L, k', x', y);
  }

  /** An X stabilizer and a Z stabilizer overlap on an even number of qubits:
      none when the plaquette does not touch the vertex, otherwise exactly
      one horizontal and one vertical edge. */
  lemma StabilizersCommute(L: nat, x: int, y: int, x': int, y': int)
    requires L >= 1
    ensures !Dot(IndicatorRow(QubitCount(L), Stabilizer(L, XFamily, x, y)),
                 IndicatorRow(QubitCount(L), Stabilizer(L, ZFamily, x', y')))
  {
    var n := QubitCount(L);
    var u := IndicatorRow(n, Stabilizer(L, XFamily, x, y));
    var v := IndicatorRow(n, Stabilizer(L, ZFamily, x', y'));
    var h := HorizontalEdge(L, x, y');
    var w := VerticalEdge(L, x', y);
    var T: set<nat> := if Touches(L, x, y, x', y') then {h, w} else {};
    forall k | 0 <= k < n
      ensures (u[k] && v[k]) <==> k in T
    {
      if k < L * L {
        SharedHorizontal(L, x, y, x', y', k);
      } else {
        SharedVertical(L, x, y, x', y', k);
      }
    }
    DotParity(u, v, T);
  }

  /** `stabilizer_matrices()` returns (HZ, HX): L^2 x 2L^2 matrices whose row i
      marks the qubits of the i-th Z (resp. X) stabilizer, and every row of HX
      has even overlap with every row of HZ. */
  function StabilizerMatrices(L: nat): (m: (Matrix, Matrix))
    ensures |m.0| == L * L && |m.1| == L * L
    ensures HasColumns(m.0, QubitCount(L)) && HasColumns(m.1, QubitCount(L))
    ensures forall i, j :: 0 <= i < L * L && 0 <= j < QubitCount(L) ==>
              (m.0[i][j] <==> j in Stabilizers(L, ZFamily)[i])
              && (m.1[i][j] <==> j in Stabilizers(L, XFamily)[i])
    ensures forall i, j :: 0 <= i < L * L && 0 <= j < L * L ==> !Dot(m.1[i], m.0[j])
  {
    var n := QubitCount(L);
    var hz := CheckMatrix(n, Stabilizers(L, ZFamily));
    var hx := CheckMatrix(n, Stabilizers(L, XFamily));
    forall i, j | 0 <= i < L * L && 0 <= j < L * L
      ensures !Dot(hx[i], hz[j])
    {
      StabilizersCommute(L, i % L, i / L, j % L, j / L);
    }
    (hz, hx)
  }

  // ---------------------------------------------------------------------
  // Logical operators against the stabilizers

  /** `logical_Z_conjugate` is exactly the horizontal edges of column 0. */
  lemma InLogicalZConjugate(L: nat, k: nat)
    requires L >= 1
    ensures k in LogicalZConjugate(L) <==> k < L * L && k % L == 0
  {
    if k < L * L && k % L == 0 {
      var c := CellOf(L, k);
      HorizontalBijection(L, 0, c.1, k);
      assert LogicalZConjugate(L)[c.1] == k;
    }
    if k in LogicalZConjugate(L) {
      var y :| 0 <= y < L && LogicalZConjugate(L)[y] == k;
      HorizontalAt(L, k, 0, y);
    }
  }

  /** `logical_X_support` is exactly the horizontal edges of row 0. */
  lemma InLogicalXSupport(L: nat, k: nat)
    requires L >= 1
    ensures k in LogicalXSupport(L) <==> k < L * L && k / L == 0
  {
    if k < L * L && k / L == 0 {
      var c := CellOf(L, k);
      HorizontalBijection(L, c.0, 0, k);
      assert LogicalXSupport(L)[c.0] == k;
    }
    if k in LogicalXSupport(L) {
      var x :| 0 <= x < L && LogicalXSupport(L)[x] == k;
      HorizontalAt(L, k, x, 0);
    }
  }

  /** `logical_Z_support` is exactly the vertical edges of column 0. */
  lemma InLogicalZSupport(L: nat, k: nat)
    requires L >= 1
    ensures k in LogicalZSupport(L) <==> L * L <= k < QubitCount(L) && (k - L * L) % L == 0
  {
    if L * L <= k < QubitCount(L) && (k - L * L) % L == 0 {
      var c := CellOf(L, k - L * L);
      VerticalBijection(L, 0, c.1, k);
      assert LogicalZSupport(L)[c.1] == k;
    }
    if k in LogicalZSupport(L) {
      var y :| 0 <= y < L && LogicalZSupport(L)[y] == k;
      HorizontalAt(L, k - L * L, 0, y);
    }
  }

  /** `logical_X_conjugate` is exactly the vertical edges of row 0. */
  lemma InLogicalXConjugate(L: nat, k: nat)
    requires L >= 1
    ensures k in LogicalXConjugate(L) <==> L * L <= k < QubitCount(L) && (k - L * L) / L == 0
  {
    if L * L <= k < QubitCount(L) && (k - L * L) / L == 0 {
      var c := CellOf(L, k - L * L);
      VerticalBijection(L, c.0, 0, k);
      assert LogicalXConjugate(L)[c.0] == k;
    }
    if k in LogicalXConjugate(L) {
      var x :| 0 <= x < L && LogicalXConjugate(L)[x] == k;
      HorizontalAt(L, k - L * L, x, 0);
    }
  }

  /** Two qubit lists whose common qubits below n form a set of even size
      have even overlap as check-matrix rows. */
  lemma EvenOverlap(s: seq<nat>, t: seq<nat>, n: nat, T: set<nat>)
    requires forall k :: 0 <= k < n ==> (k in s && k in t <==> k in T)
    requires forall k :: k in T ==> k < n
    requires |T| % 2 == 0
    ensures !Dot(IndicatorRow(n, s), IndicatorRow(n, t))
  {
    DotParity(IndicatorRow(n, s), IndicatorRow(n, t), T);
  }

  /** Two distinct residues: a and a + 1 differ mod L once L >= 2. */
  lemma SuccDiffers(L: nat, a: int)
    requires L >= 2
    ensures a % L != (a + 1) % L
  {
    WrapSucc(L, a);
  }

  /** A plaquette meets column 0's horizontal edges in both of its
      horizontal edges or in none. */
  lemma PlaquetteMeetsZConjugate(L: nat, x: int, y: int)
    requires L >= 2
    ensures !Dot(IndicatorRow(QubitCount(L), Stabilizer(L, XFamily, x, y)),
                 IndicatorRow(QubitCount(L), LogicalZConjugate(L)))
  {
    var a := HorizontalEdge(L, x, y);
    var b := HorizontalEdge(L, x, y + 1);
    var T: set<nat> := if x % L == 0 then {a, b} else {};
    forall k | 0 <= k < QubitCount(L)
      ensures k in Stabilizer(L, XFamily, x, y) && k in LogicalZConjugate(L) <==> k in T
    {
      InLogicalZConjugate(L, k);
      if k < L * L {
        HorizontalAt(L, k, x, y);
        HorizontalAt(L, k, x, y + 1);
      }
    }
    if x % L == 0 {
      SuccDiffers(L, y);
      EdgeEquality(L, x, y, x, y + 1);
    }
    EvenOverlap(Stabilizer(L, XFamily, x, y), LogicalZConjugate(L), QubitCount(L), T);
  }

  /** A plaquette meets row 0's vertical edges in both of its vertical
      edges or in none. */
  lemma PlaquetteMeetsXConjugate(L: nat, x: int, y: int)
    requires L >= 2
    ensures !Dot(IndicatorRow(QubitCount(L), Stabilizer(L, XFamily, x, y)),
                 IndicatorRow(QubitCount(L), LogicalXConjugate(L)))
  {
    var a := VerticalEdge(L, x, y);
    var b := VerticalEdge(L, x + 1, y);
    var T: set<nat> := if y % L == 0 then {a, b} else {};
    forall k | 0 <= k < QubitCount(L)
      ensures k in Stabilizer(L, XFamily, x, y) && k in LogicalXConjugate(L) <==> k in T
    {
      InLogicalXConjugate(L, k);
      if L * L <= k {
        HorizontalAt(L, k - L * L, x, y);
        HorizontalAt(L, k - L * L, x + 1, y);
      }
    }
    if y % L == 0 {
      SuccDiffers(L, x);
      EdgeEquality(L, x, y, x + 1, y);
    }
    EvenOverlap(Stabilizer(L, XFamily, x, y), LogicalXConjugate(L), QubitCount(L), T);
  }

  /** A vertex meets row 0's horizontal edges in both of its horizontal
      edges or in none. */
  lemma VertexMeetsXSupport(L: nat, x: int, y: int)
    requires L >= 2
    ensures !Dot(IndicatorRow(QubitCount(L), Stabilizer(L, ZFamily, x, y)),
                 IndicatorRow(QubitCount(L), LogicalXSupport(L)))
  {
    var a := HorizontalEdge(L, x, y);
    var b := HorizontalEdge(L, x - 1, y);
    var T: set<nat> := if y % L == 0 then {a, b} else {};
    forall k | 0 <= k < QubitCount(L)
      ensures k in Stabilizer(L, ZFamily, x, y) && k in LogicalXSupport(L) <==> k in T
    {
      InLogicalXSupport(L, k);
      if k < L * L {
        HorizontalAt(L, k, x, y);
        HorizontalAt(L, k, x - 1, y);
      }
    }
    if y % L == 0 {
      SuccDiffers(L, x - 1);
      EdgeEquality(L, x, y, x - 1, y);
    }
    EvenOverlap(Stabilizer(L, ZFamily, x, y), LogicalXSupport(L), QubitCount(L), T);
  }

  /** A vertex meets column 0's vertical edges in both of its vertical
      edges or in none. */
  lemma VertexMeetsZSupport(L: nat, x: int, y: int)
    requires L >= 2
    ensures !Dot(IndicatorRow(QubitCount(L), Stabilizer(L, ZFamily, x, y)),
                 IndicatorRow(QubitCount(L), LogicalZSupport(L)))
  {
    var a := VerticalEdge(L, x, y);
    var b := VerticalEdge(L, x, y - 1);
    var T: set<nat> := if x % L == 0 then {a, b} else {};
    forall k | 0 <= k < QubitCount(L)
      ensures k in Stabilizer(L, ZFamily, x, y) && k in LogicalZSupport(L) <==> k in T
    {
      InLogicalZSupport(L, k);
      if L * L <= k {
        HorizontalAt(L, k - L * L, x, y);
        HorizontalAt(L, k - L * L, x, y - 1);
      }
    }
    if x % L == 0 {
      SuccDiffers(L, y - 1);
      EdgeEquality(L, x, y, x, y - 1);
    }
    EvenOverlap(Stabilizer(L, ZFamily, x, y), LogicalZSupport(L), QubitCount(L), T);
  }

  /** The logical lists are unaffected by stabilizer flips: every
      plaquette (X stabilizer) has even overlap with `logical_Z_conjugate`
      and `logical_X_conjugate`, every vertex (Z stabilizer) with
      `logical_X_support` and `logical_Z_support`. At L = 1 the plaquette's
      two horizontal edges coincide and the overlap is odd. */
  lemma LogicalsCommute(L: nat, x: int, y: int)
    requires L >= 2
    ensures !Dot(IndicatorRow(QubitCount(L), Stabilizer(L, XFamily, x, y)),
                 IndicatorRow(QubitCount(L), LogicalZConjugate(L)))
    ensures !Dot(IndicatorRow(QubitCount(L), Stabilizer(L, XFamily, x, y)),
                 IndicatorRow(QubitCount(L), LogicalXConjugate(L)))
    ensures !Dot(IndicatorRow(QubitCount(L), Stabilizer(L, ZFamily, x, y)),
                 IndicatorRow(QubitCount(L), LogicalXSupport(L)))
    ensures !Dot(IndicatorRow(QubitCount(L), Stabilizer(L, ZFamily, x, y)),
                 IndicatorRow(QubitCount(L), LogicalZSupport(L)))
  {
    PlaquetteMeetsZConjugate(L, x, y);
    PlaquetteMeetsXConjugate(L, x, y);
    VertexMeetsXSupport(L, x, y);
    VertexMeetsZSupport(L, x, y);
  }

  /** Row 0 and column 0 of the horizontal edges cross only at edge 0. */
  lemma HorizontalCross(L: nat, k: nat)
    requires L >= 1
    ensures k in LogicalXSupport(L) && k in LogicalZConjugate(L) <==> k == 0
  {
    InLogicalXSupport(L, k);
    InLogicalZConjugate(L, k);
    if k < L * L && k % L == 0 && k / L == 0 {
      assert k == (k / L) * L + k % L;
    }
  }

  /** Column 0 and row 0 of the vertical edges cross only at edge L^2. */
  lemma VerticalCross(L: nat, k: nat)
    requires L >= 1
    ensures k in LogicalZSupport(L) && k in LogicalXConjugate(L) <==> k == L * L
  {
    InLogicalZSupport(L, k);
    InLogicalXConjugate(L, k);
    var k' := k - L * L;
    if L * L <= k && k' % L == 0 && k' / L == 0 {
      assert k' == (k' / L) * L + k' % L;
    }
  }

  /** Each logical list meets its conjugate in exactly one qubit, so the
      two have odd overlap: row 0 and column 0 cross at horizontal edge 0
      and at vertical edge L^2. */
  lemma LogicalPairsOverlapOnce(L: nat)
    requires L >= 1
    ensures forall k :: k in LogicalXSupport(L) && k in LogicalZConjugate(L) <==> k == 0
    ensures forall k :: k in LogicalZSupport(L) && k in LogicalXConjugate(L) <==> k == L * L
    ensures Dot(IndicatorRow(QubitCount(L), LogicalXSupport(L)), IndicatorRow(QubitCount(L), LogicalZConjugate(L)))
    ensures Dot(IndicatorRow(QubitCount(L), LogicalZSupport(L)), IndicatorRow(QubitCount(L), LogicalXConjugate(L)))
  {
    forall k: nat ensures k in LogicalXSupport(L) && k in LogicalZConjugate(L) <==> k == 0 {
      HorizontalCross(L, k);
    }
    forall k: nat ensures k in LogicalZSupport(L) && k in LogicalXConjugate(L) <==> k == L * L {
      VerticalCross(L, k);
    }
    var n := QubitCount(L);
    DotParity(IndicatorRow(n, LogicalXSupport(L)), IndicatorRow(n, LogicalZConjugate(L)), {0});
    DotParity(IndicatorRow(n, LogicalZSupport(L)), IndicatorRow(n, LogicalXConjugate(L)), {L * L});
  }

  /** Why LogicalsCommute needs L >= 2: on the single-cell lattice a
      plaquette's two horizontal edges are the same qubit 0, which is all
      of `logical_Z_conjugate`, so the overlap is odd. */
  lemma SingleCellOddOverlap(L: nat, x: int, y: int)
    requires L == 1
    ensures Dot(IndicatorRow(QubitCount(L), Stabilizer(L, XFamily, x, y)),
                IndicatorRow(QubitCount(L), LogicalZConjugate(L)))
  {
    var u := IndicatorRow(QubitCount(L), Stabilizer(L, XFamily, x, y));
    var v := IndicatorRow(QubitCount(L), LogicalZConjugate(L));
    forall k | 0 <= k < |u| ensures (u[k] && v[k]) <==> k in {0} {
      SingleCellShared(L, x, y, k);
    }
    DotParity(u, v, {0});
  }

  lemma SingleCellShared(L: nat, x: int, y: int, k: nat)
    requires L == 1 && k < QubitCount(L)
    ensures k in Stabilizer(L, XFamily, x, y) && k in LogicalZConjugate(L) <==> k == 0
  {
    InLogicalZConjugate(L, k);
  }
}
