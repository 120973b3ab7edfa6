/** Binary vectors and matrices over GF(2).

    The simulator stores error vectors, syndromes and parity-check rows as
    numpy integer arrays whose entries are 0 or 1; here an entry is a `bool`
    (`true` stands for 1). */
module Bits {

  type Bits = seq<bool>
  type Matrix = seq<seq<bool>>

  /** The all-zero vector of length n (`np.zeros(n, dtype=int)`). */
  function Zeros(n: nat): (z: Bits)
    ensures |z| == n
    ensures forall i :: 0 <= i < n ==> !z[i]
  {
    seq(n, _ => false)
  }

  predicate IsZero(v: Bits) {
    forall i :: 0 <= i < |v| ==> !v[i]
  }

  /** Entry-wise sum mod 2 (numpy `^`). */
  function Xor(u: Bits, v: Bits): (w: Bits)
    requires |u| == |v|
    ensures |w| == |u|
    ensures forall i :: 0 <= i < |w| ==> w[i] == (u[i] != v[i])
  {
    seq(|u|, i requires 0 <= i < |u| => u[i] != v[i])
  }

  /** Hamming weight: the number of 1 entries (`int(e.sum())` on a 0/1 vector). */
  function Weight(v: Bits): (w: nat)
  {
    if |v| == 0 then 0 else Weight(v[..|v| - 1]) + (if v[|v| - 1] then 1 else 0)
  }

  /** Inner product mod 2 (`(u.dot(v)) % 2` on 0/1 vectors). */
  function Dot(u: Bits, v: Bits): (b: bool)
    requires |u| == |v|
  {
    if |u| == 0 then false
    else Dot(u[..|u| - 1], v[..|v| - 1]) != (u[|u| - 1] && v[|v| - 1])
  }

  /** Every row of H has length n. */
  predicate HasColumns(H: Matrix, n: nat) {
    forall i :: 0 <= i < |H| ==> |H[i]| == n
  }

  /** The syndrome `(H.dot(e)) % 2`: one parity bit per row of H. */
  function Syndrome(H: Matrix, e: Bits): (s: Bits)
    requires HasColumns(H, |e|)
    ensures |s| == |H|
    ensures forall i :: 0 <= i < |H| ==> s[i] == Dot(H[i], e)
  {
    seq(|H|, i requires 0 <= i < |H| => Dot(H[i], e))
  }

  /** Some error vector of length n has syndrome s under H. */
  ghost predicate Achievable(H: Matrix, s: Bits, n: nat) {
    exists e: Bits :: |e| == n && HasColumns(H, |e|) && Syndrome(H, e) == s
  }

  /** Every row of H has even overlap with v, so flipping v is invisible to H. */
  predicate Orthogonal(H: Matrix, v: Bits)
    requires HasColumns(H, |v|)
  {
    forall i :: 0 <= i < |H| ==> !Dot(H[i], v)
  }

  lemma {:induction false} XorPrefix(u: Bits, v: Bits, k: nat)
    requires |u| == |v| && k <= |u|
    ensures Xor(u, v)[..k] == Xor(u[..k], v[..k])
  {
  }

  /** The inner product is linear in its second argument. */
  lemma {:induction false} DotXorRight(u: Bits, e: Bits, v: Bits)
    requires |u| == |e| == |v|
    ensures Dot(u, Xor(e, v)) == (Dot(u, e) != Dot(u, v))
    decreases |u|
  {
    if |u| > 0 {
      var k := |u| - 1;
      XorPrefix(e, v, k);
      DotXorRight(u[..k], e[..k], v[..k]);
    }
  }

  /** The inner product is linear in its first argument. */
  lemma {:induction false} DotXorLeft(u: Bits, v: Bits, x: Bits)
    requires |u| == |v| == |x|
    ensures Dot(Xor(u, v), x) == (Dot(u, x) != Dot(v, x))
    decreases |u|
  {
    if |u| > 0 {
      var k := |u| - 1;
      XorPrefix(u, v, k);
      DotXorLeft(u[..k], v[..k], x[..k]);
    }
  }

  /** The mod-2 inner product does not depend on the order of its arguments. */
  lemma {:induction false} DotSymmetric(u: Bits, v: Bits)
    requires |u| == |v|
    ensures Dot(u, v) == Dot(v, u)
    decreases |u|
  {
    if |u| > 0 {
      DotSymmetric(u[..|u| - 1], v[..|v| - 1]);
    }
  }

  /** A zero vector has zero inner product with everything. */
  lemma {:induction false} DotZero(u: Bits, x: Bits)
    requires |u| == |x| && IsZero(u)
    ensures !Dot(u, x)
    decreases |u|
  {
    if |u| > 0 {
      DotZero(u[..|u| - 1], x[..|x| - 1]);
    }
  }

  /** The inner product is the parity of the set T of positions where both
      vectors hold a 1. */
  lemma {:induction false} DotParity(u: Bits, v: Bits, T: set<nat>)
    requires |u| == |v|
    requires forall i :: 0 <= i < |u| ==> ((u[i] && v[i]) <==> i in T)
    requires forall i :: i in T ==> i < |u|
    ensures Dot(u, v) == (|T| % 2 == 1)
    decreases |u|
  {
    if |u| > 0 {
      var k := |u| - 1;
      var T' := T - {k};
      forall i | 0 <= i < k ensures (u[..k][i] && v[..k][i]) <==> i in T' { }
      forall i | i in T' ensures i < k { }
      DotParity(u[..k], v[..k], T');
      RemoveTop(T, k);
    } else {
      EmptyBounded(T);
    }
  }

  /** Removing one element shrinks a set by one exactly when it was there. */
  lemma RemoveTop(T: set<nat>, k: nat)
    ensures k in T ==> |T| == |T - {k}| + 1
    ensures k !in T ==> T - {k} == T
  {
    if k in T {
      assert T == (T - {k}) + {k};
    }
  }

  /** A set of naturals all below 0 is empty. */
  lemma EmptyBounded(T: set<nat>)
    requires forall i :: i in T ==> i < 0
    ensures T == {}
  {
    forall i | i in T ensures false { }
  }

  /** Adding the same vector twice gives the original back: each flip
      undoes itself. */
  lemma XorInvolution(u: Bits, v: Bits)
    requires |u| == |v|
    ensures Xor(Xor(u, v), v) == u
  {
  }

  /** The syndrome map is linear: the syndrome of a sum is the sum of the
      syndromes. */
  lemma SyndromeLinear(H: Matrix, e: Bits, v: Bits)
    requires |e| == |v| && HasColumns(H, |e|)
    ensures Syndrome(H, Xor(e, v)) == Xor(Syndrome(H, e), Syndrome(H, v))
  {
    forall i | 0 <= i < |H|
      ensures Dot(H[i], Xor(e, v)) == (Dot(H[i], e) != Dot(H[i], v))
    {
      DotXorRight(H[i], e, v);
    }
  }

  /** Flipping a vector invisible to H leaves the syndrome unchanged. */
  lemma SyndromeInvariant(H: Matrix, e: Bits, v: Bits)
    requires |e| == |v| && HasColumns(H, |e|) && Orthogonal(H, v)
    ensures Syndrome(H, Xor(e, v)) == Syndrome(H, e)
  {
    SyndromeLinear(H, e, v);
  }

  /** Hamming weight counts exactly the set of 1 positions. */
  lemma {:induction false} WeightIsSupportSize(v: Bits, T: set<nat>)
    requires forall i :: 0 <= i < |v| ==> (v[i] <==> i in T)
    requires forall i :: i in T ==> i < |v|
    ensures Weight(v) == |T|
    decreases |v|
  {
    if |v| > 0 {
      var k := |v| - 1;
      var T' := T - {k};
      forall i | 0 <= i < k ensures v[..k][i] <==> i in T' { }
      forall i | i in T' ensures i < k { }
      WeightIsSupportSize(v[..k], T');
      RemoveTop(T, k);
    } else {
      EmptyBounded(T);
    }
  }
}
