// invert_mat of lib/libfec.c: in-place Gauss-Jordan inversion.
//
// The algebra comes first.  Each pivot exchanges one input coordinate with one output coordinate of
// the linear relation y = A x, so that after pivoting on a set of indices the matrix in memory maps
// the mixed vector (y on pivoted indices, x elsewhere) to the mixed vector with the roles exchanged.
// Once every index has been a pivot, the matrix in memory maps y to x.

module GaussJordan {
  import opened GaloisField
  import opened LinearAlgebra

  /* ---------------------------------------------------------------- the relation kept by pivoting */

  /** Take y where an index has been a pivot, x elsewhere. */
  function Mix(piv: seq<int>, x: Vec, y: Vec): (z: Vec)
    requires |piv| == |x| == |y|
    ensures |z| == |x| && forall j :: 0 <= j < |x| ==> z[j] == if piv[j] == 1 then y[j] else x[j]
  {
    seq(|x|, j requires 0 <= j < |x| => if piv[j] == 1 then y[j] else x[j])
  }

  ghost predicate Holds(m: Mat, piv: seq<int>, x: Vec, y: Vec)
    requires IsMat(m, |piv|, |piv|) && |x| == |y| == |piv|
  {
    Apply(m, Mix(piv, x, y)) == Mix(piv, y, x)
  }

  /** m, read with the pivots done so far, describes the same linear map as a. */
  ghost predicate Tracks(a: Mat, m: Mat, piv: seq<int>)
  {
    && IsMat(a, |piv|, |piv|) && IsMat(m, |piv|, |piv|)
    && forall x: Vec, y: Vec :: |x| == |piv| && |y| == |piv| ==> (Apply(a, x) == y <==> Holds(m, piv, x, y))
  }

  lemma TracksStart(a: Mat, piv: seq<int>)
    requires IsMat(a, |piv|, |piv|) && forall i :: 0 <= i < |piv| ==> piv[i] == 0
    ensures Tracks(a, a, piv)
  {
    hide Apply, Add, Mul;
    forall x: Vec, y: Vec | |x| == |piv| && |y| == |piv|
      ensures Apply(a, x) == y <==> Holds(a, piv, x, y)
    {
      assert Mix(piv, x, y) == x;
      assert Mix(piv, y, x) == y;
    }
  }

  lemma TracksEnd(a: Mat, m: Mat, piv: seq<int>)
    requires Tracks(a, m, piv) && forall i :: 0 <= i < |piv| ==> piv[i] == 1
    ensures IsInverse(a, m, |piv|)
  {
    hide Apply, Add, Mul;
    forall x: Vec, y: Vec | |x| == |piv| && |y| == |piv|
      ensures Apply(a, x) == y <==> Apply(m, y) == x
    {
      assert Mix(piv, x, y) == y;
      assert Mix(piv, y, x) == x;
      assert Apply(a, x) == y <==> Holds(m, piv, x, y);
    }
  }

  /* ---------------------------------------------------------------- one pivot */

  function PivotRow(m: Mat, p: nat): (r: Vec)
    requires IsMat(m, |m|, |m|) && p < |m| && m[p][p] != 0
    ensures |r| == |m|
  {
    Scale(Inv(m[p][p]), m[p][p := 1])
  }

  /** The matrix after scaling the pivot row and clearing the pivot column elsewhere. */
  function Pivoted(m: Mat, p: nat): (r: Mat)
    requires IsMat(m, |m|, |m|) && p < |m| && m[p][p] != 0
    ensures IsMat(r, |m|, |m|)
    ensures r[p] == PivotRow(m, p)
    ensures forall i :: 0 <= i < |m| && i != p ==> r[i] == AddMul(m[i][p := 0], PivotRow(m, p), m[i][p])
  {
    seq(|m|, i requires 0 <= i < |m| =>
      if i == p then PivotRow(m, p) else AddMul(m[i][p := 0], PivotRow(m, p), m[i][p]))
  }

  /** The pivot row, solved for its own coordinate. */
  lemma PivotRowSolves(m: Mat, p: nat, z: Vec, w: Gf)
    requires IsMat(m, |m|, |m|) && p < |m| && m[p][p] != 0 && |z| == |m|
    ensures Dot(m[p], z) == w <==> Dot(PivotRow(m, p), z[p := w]) == z[p]
  {
    hide Add, Mul, Inv, DotTo, Scale;
    var c, row := m[p][p], m[p];
    var inv, rest := Inv(c), Dot(row[p := 0], z);
    var z' := z[p := w];
    // row . z == rest + c * z[p]
    DotSplit(row, z, p, |z|);
    // pivot row . z' == inv * (rest + w)
    DotScale(inv, row[p := 1], z', |z|);
    DotSplit(row[p := 1], z', p, |z|);
    assert row[p := 1][p := 0] == row[p := 0];
    DotIgnore(row[p := 0], z, p, w);
    MulOne(w);
    assert Dot(PivotRow(m, p), z') == Mul(inv, Add(rest, w));
    SolveForPivot(c, inv, rest, z[p], w);
  }

  lemma SolveForPivot(c: Gf, inv: Gf, rest: Gf, v: Gf, w: Gf)
    requires c != 0 && inv == Inv(c)
    ensures Add(rest, Mul(c, v)) == w <==> Mul(inv, Add(rest, w)) == v
  {
    hide Add, Mul, Inv;
    InvMul(c);
    AddComm(rest, Mul(c, v));
    AddMove(Mul(c, v), rest, w);
    AddComm(w, rest);
    // left: c * v == rest + w
    MulAssoc(inv, c, v);
    MulOne(v);
    MulAssoc(c, inv, Add(rest, w));
    MulOne(Add(rest, w));
  }

  /** The other rows keep their value once the pivot coordinate is exchanged. */
  lemma PivotOtherKeeps(m: Mat, p: nat, i: nat, z: Vec, w: Gf)
    requires IsMat(m, |m|, |m|) && p < |m| && i < |m| && i != p && m[p][p] != 0 && |z| == |m|
    requires Dot(PivotRow(m, p), z[p := w]) == z[p]
    ensures Dot(Pivoted(m, p)[i], z[p := w]) == Dot(m[i], z)
  {
    hide Add, Mul, Inv, DotTo, PivotRow, Pivoted, AddMul;
    var row := m[i];
    DotAddMul(row[p := 0], PivotRow(m, p), row[p], z[p := w], |z|);
    DotIgnore(row[p := 0], z, p, w);
    DotSplit(row, z, p, |z|);
  }

  lemma PivotHolds(m: Mat, piv: seq<int>, p: nat, x: Vec, y: Vec)
    requires IsMat(m, |piv|, |piv|) && |x| == |y| == |piv| && p < |piv| && piv[p] != 1 && m[p][p] != 0
    ensures Holds(m, piv, x, y) <==> Holds(Pivoted(m, p), piv[p := 1], x, y)
  {
    hide Add, Mul, DotTo, PivotRow, Pivoted, Apply, Mix, Dot;
    var z, w := Mix(piv, x, y), Mix(piv, y, x);
    var z', w' := Mix(piv[p := 1], x, y), Mix(piv[p := 1], y, x);
    var m' := Pivoted(m, p);
    assert z' == z[p := w[p]];
    assert w' == w[p := z[p]];
    PivotRowSolves(m, p, z, w[p]);
    if Dot(m[p], z) == w[p] {
      forall i | 0 <= i < |piv| ensures Dot(m[i], z) == w[i] <==> Dot(m'[i], z') == w'[i] {
        if i != p {
          PivotOtherKeeps(m, p, i, z, w[p]);
        }
      }
    }
    VectorEquality(Apply(m, z), w);
    VectorEquality(Apply(m', z'), w');
  }

  lemma VectorEquality(a: Vec, b: Vec)
    requires |a| == |b|
    ensures a == b <==> forall i :: 0 <= i < |a| ==> a[i] == b[i]
  {
  }

  lemma TracksPivot(a: Mat, m: Mat, piv: seq<int>, p: nat)
    requires Tracks(a, m, piv) && p < |piv| && piv[p] != 1 && m[p][p] != 0
    ensures Tracks(a, Pivoted(m, p), piv[p := 1])
  {
    hide Apply, Holds, Pivoted;
    forall x: Vec, y: Vec | |x| == |piv| && |y| == |piv|
      ensures Apply(a, x) == y <==> Holds(Pivoted(m, p), piv[p := 1], x, y)
    {
      PivotHolds(m, piv, p, x, y);
    }
  }

  /* ---------------------------------------------------------------- row and column exchanges */

  function Swapped<T>(s: seq<T>, r: nat, c: nat): (t: seq<T>)
    requires r < |s| && c < |s|
    ensures |t| == |s| && t[r] == s[c] && t[c] == s[r]
    ensures forall i :: 0 <= i < |s| && i != r && i != c ==> t[i] == s[i]
  {
    s[r := s[c]][c := s[r]]
  }

  function ColumnsSwapped(m: Mat, r: nat, c: nat): (t: Mat)
    requires IsMat(m, |m|, |m|) && r < |m| && c < |m|
    ensures IsMat(t, |m|, |m|) && forall i :: 0 <= i < |m| ==> t[i] == Swapped(m[i], r, c)
  {
    seq(|m|, i requires 0 <= i < |m| => Swapped(m[i], r, c))
  }

  lemma SwapTwice<T>(s: seq<T>, r: nat, c: nat)
    requires r < |s| && c < |s|
    ensures Swapped(Swapped(s, r, c), r, c) == s
  {
  }

  lemma ApplySwappedRows(m: Mat, r: nat, c: nat, x: Vec)
    requires IsMat(m, |m|, |m|) && r < |m| && c < |m| && |x| == |m|
    ensures Apply(Swapped(m, r, c), x) == Swapped(Apply(m, x), r, c)
  {
    hide Dot, DotTo, Add, Mul;
  }

  lemma DotSwapped(a: Vec, b: Vec, r: nat, c: nat)
    requires |a| == |b| && r < |a| && c < |a|
    ensures Dot(Swapped(a, r, c), Swapped(b, r, c)) == Dot(a, b)
  {
    hide Add, Mul, DotTo;
    if r != c {
      var n, a', b' := |a|, Swapped(a, r, c), Swapped(b, r, c);
      TakeOutTwo(a, b, r, c);
      TakeOutTwo(a', b', r, c);
      assert Swapped(a, r, c)[r := 0][c := 0] == a[r := 0][c := 0];
      assert forall i :: 0 <= i < n && i != r && i != c ==> b[i] == b'[i];
      var rest := a[r := 0][c := 0];
      MulZero(b[r]);
      MulZero(b[c]);
      DotCongruent(rest, b', rest, b, n);
      var d, u, v := Dot(rest, b), Mul(a[r], b[r]), Mul(a[c], b[c]);
      AddAssoc(d, u, v);
      AddComm(u, v);
      AddAssoc(d, v, u);
    } else {
      assert Swapped(a, r, c) == a && Swapped(b, r, c) == b;
    }
  }

  lemma TakeOutTwo(a: Vec, b: Vec, r: nat, c: nat)
    requires |a| == |b| && r < |a| && c < |a| && r != c
    ensures Dot(a, b) == Add(Add(Dot(a[r := 0][c := 0], b), Mul(a[c], b[c])), Mul(a[r], b[r]))
  {
    hide Add, Mul, DotTo;
    DotSplit(a, b, r, |a|);
    DotSplit(a[r := 0], b, c, |a|);
  }

  lemma TracksSwap(a: Mat, m: Mat, piv: seq<int>, r: nat, c: nat)
    requires Tracks(a, m, piv) && r < |piv| && c < |piv| && piv[r] != 1 && piv[c] != 1
    ensures Tracks(Swapped(a, r, c), Swapped(m, r, c), piv)
  {
    hide Apply, Mix, Swapped;
    var a', m' := Swapped(a, r, c), Swapped(m, r, c);
    assert IsMat(a', |piv|, |piv|) && IsMat(m', |piv|, |piv|);
    forall x: Vec, y: Vec | |x| == |piv| && |y| == |piv|
      ensures Apply(a', x) == y <==> Holds(m', piv, x, y)
    {
      var y' := Swapped(y, r, c);
      ApplySwappedRows(a, r, c, x);
      SwapTwice(y, r, c);
      SwapTwice(Apply(a, x), r, c);
      assert Apply(a', x) == y <==> Apply(a, x) == y';
      assert Apply(a, x) == y' <==> Holds(m, piv, x, y');
      assert Mix(piv, x, y') == Mix(piv, x, y);
      assert Mix(piv, y', x) == Swapped(Mix(piv, y, x), r, c);
      ApplySwappedRows(m, r, c, Mix(piv, x, y));
      SwapTwice(Mix(piv, y, x), r, c);
      SwapTwice(Apply(m, Mix(piv, x, y)), r, c);
    }
  }

  /** Exchanging two rows of a matrix exchanges the same two columns of its inverse. */
  lemma InverseSwap(a: Mat, b: Mat, k: nat, r: nat, c: nat)
    requires IsInverse(a, b, k) && r < k && c < k
    ensures IsInverse(Swapped(a, r, c), ColumnsSwapped(b, r, c), k)
  {
    hide Apply, Swapped, ColumnsSwapped;
    var a', b' := Swapped(a, r, c), ColumnsSwapped(b, r, c);
    assert IsMat(a', k, k) && IsMat(b', k, k);
    forall x: Vec, y: Vec | |x| == k && |y| == k
      ensures Apply(a', x) == y <==> Apply(b', y) == x
    {
      var y' := Swapped(y, r, c);
      ApplySwappedRows(a, r, c, x);
      SwapTwice(y, r, c);
      SwapTwice(Apply(a, x), r, c);
      assert Apply(a', x) == y <==> Apply(a, x) == y';
      assert Apply(a, x) == y' <==> Apply(b, y') == x;
      ApplySwappedColumns(b, r, c, y);
    }
  }

  lemma ApplySwappedColumns(b: Mat, r: nat, c: nat, y: Vec)
    requires IsMat(b, |b|, |b|) && r < |b| && c < |b| && |y| == |b|
    ensures Apply(ColumnsSwapped(b, r, c), y) == Apply(b, Swapped(y, r, c))
  {
    hide Swapped, Dot;
    SwapTwice(y, r, c);
    forall i | 0 <= i < |b| ensures Dot(ColumnsSwapped(b, r, c)[i], y) == Dot(b[i], Swapped(y, r, c)) {
      DotSwapped(b[i], Swapped(y, r, c), r, c);
    }
  }

  /* ---------------------------------------------------------------- singular matrices */

  /** If the rows and columns without a pivot hold only zeros, some non-zero vector is mapped to zero. */
  lemma NoPivotLeft(a: Mat, m: Mat, piv: seq<int>, p: nat)
    requires Tracks(a, m, piv) && p < |piv| && piv[p] != 1
    requires forall i, j :: 0 <= i < |piv| && 0 <= j < |piv| && piv[i] != 1 && piv[j] != 1 ==> m[i][j] == 0
    ensures !NonSingular(a, |piv|)
  {
    hide Apply, Mix, Unit, Dot;
    var k := |piv|;
    var e, zero := Unit(k, p), Zeros(k);
    var x := Mix(piv, e, Apply(m, e));
    assert Mix(piv, x, zero) == e;
    forall i | 0 <= i < k && piv[i] != 1 ensures Apply(m, e)[i] == 0 {
      DotComm(m[i], e);
      DotUnit(p, m[i]);
    }
    assert Mix(piv, zero, x) == Apply(m, e);
    assert Holds(m, piv, x, zero);
    assert Apply(a, x) == zero;
    assert x[p] == 1;
  }

  lemma ApplyZeros(a: Mat, k: nat)
    requires IsMat(a, k, k)
    ensures Apply(a, Zeros(k)) == Zeros(k)
  {
    hide Dot;
    forall i | 0 <= i < k ensures Dot(a[i], Zeros(k)) == 0 {
      DotOfZeros(a[i]);
    }
  }

  lemma DotOfZeros(a: Vec)
    ensures Dot(a, Zeros(|a|)) == 0
  {
    DotZeros(a, Zeros(|a|), |a|);
  }

  lemma InvertibleIsNonSingular(a: Mat, b: Mat, k: nat)
    requires IsInverse(a, b, k)
    ensures NonSingular(a, k)
  {
    hide Apply;
    ApplyZeros(a, k);
    forall x: Vec | |x| == k && Apply(a, x) == Zeros(k) ensures x == Zeros(k) {
      assert Apply(b, Zeros(k)) == x;
    }
  }

  lemma SwapKeepsSingular(a: Mat, k: nat, r: nat, c: nat)
    requires IsMat(a, k, k) && r < k && c < k
    ensures NonSingular(Swapped(a, r, c), k) <==> NonSingular(a, k)
  {
    hide Apply, Swapped;
    SwapKeepsNonSingular(a, k, r, c);
    SwapKeepsNonSingular(Swapped(a, r, c), k, r, c);
    SwapTwice(a, r, c);
  }

  lemma SwapKeepsNonSingular(a: Mat, k: nat, r: nat, c: nat)
    requires IsMat(a, k, k) && r < k && c < k
    ensures NonSingular(a, k) ==> NonSingular(Swapped(a, r, c), k)
  {
    hide Apply, Swapped, Zeros;
    var a', zero := Swapped(a, r, c), Zeros(k);
    assert IsMat(a', k, k);
    assert Swapped(zero, r, c) == zero;
    if NonSingular(a, k) {
      forall x: Vec | |x| == k && Apply(a', x) == zero ensures x == zero {
        ApplySwappedRows(a, r, c, x);
        SwapTwice(Apply(a, x), r, c);
        assert Apply(a, x) == zero;
      }
    }
  }
}
