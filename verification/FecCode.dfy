// The systematic erasure code of lib/libfec.c: its generator matrix, and the fact that any k of its
// n packets determine the source.

module FecCode {
  import opened Basics
  import opened GaloisField
  import opened LinearAlgebra
  import opened Polynomials
  import opened InvertVdm

  /** The evaluation points: 0, then the powers of alpha. */
  function Point(i: nat): Gf
  {
    if i == 0 then 0 else Exp(i - 1)
  }

  function Points(n: nat): (p: Vec)
    ensures |p| == n && forall i :: 0 <= i < n ==> p[i] == Point(i)
  {
    seq(n, i requires 0 <= i < n => Point(i))
  }

  lemma PointsDistinct(n: nat)
    requires n <= 256
    ensures NoRepeats(Points(n))
  {
    hide Exp;
    var p := Points(n);
    forall i, j | 0 <= i < j < n ensures p[i] != p[j] {
      ExpNonZero(j - 1);
      if i > 0 && Exp(i - 1) == Exp(j - 1) {
        ExpInjective(i - 1, j - 1);
        assert false;
      }
    }
  }

  lemma {:induction false} PowExp(row: nat, col: nat)
    ensures Pow(Exp(row), col) == Exp(row * col)
  {
    hide Exp, Mul;
    if col == 0 {
      ExpStart();
    } else {
      PowExp(row, col - 1);
      MulExp(row, row * (col - 1));
      assert row + row * (col - 1) == row * col;
    }
  }

  /* ---------------------------------------------------------------- the generator matrix */

  /** The row of the systematic generator matrix for packet i: the identity on top, and below it the
      Vandermonde row times the inverse of the top Vandermonde square. */
  function EncRow(k: nat, i: nat): (r: Vec)
    requires k <= 256
    ensures |r| == k
  {
    PointsDistinct(k);
    if i < k then Unit(k, i) else Combine(PowerRow(Point(i), k), VandermondeInverse(Points(k)), k, k)
  }

  /** Packet i of the source packets src. */
  function Encoded(k: nat, src: Mat, i: nat, width: nat): (p: Vec)
    requires k <= 256 && IsMat(src, k, width)
    ensures |p| == width
  {
    Combine(EncRow(k, i), src, k, width)
  }

  /** A column of source symbols, read as the values of a polynomial at the first k points. */
  ghost function Interpolant(k: nat, d: Vec): (f: Vec)
    requires k <= 256 && |d| == k
    ensures |f| == k
  {
    PointsDistinct(k);
    Apply(VandermondeInverse(Points(k)), d)
  }

  lemma InterpolantAtPoint(k: nat, d: Vec, i: nat)
    requires k <= 256 && |d| == k
    ensures Dot(EncRow(k, i), d) == Eval(Interpolant(k, d), Point(i))
  {
    hide Eval, VandermondeInverse, Dot, Combine, Apply, Points, Point, PowerRow;
    PointsDistinct(k);
    var w := VandermondeInverse(Points(k));
    if i < k {
      Interpolates(Points(k), d, i);
      DotUnit(i, d);
    } else {
      DotCombineAll(PowerRow(Point(i), k), w, k, d);
      EvalIsDot(Apply(w, d), Point(i));
    }
  }

  /* ---------------------------------------------------------------- packets as values of polynomials */

  /** The polynomial f, of degree below k, has the symbols number s of the source packets as its values: that
      of packet 0 at 0, and that of packet i + 1 at the power i of 2. */
  ghost predicate Through(f: Vec, k: nat, src: Mat, s: nat)
  {
    && 1 <= |src| == k && |f| <= k && (forall i :: 0 <= i < k ==> s < |src[i]|)
    && Eval(f, 0) == src[0][s] && forall i :: 0 <= i < k - 1 ==> Eval(f, Exp(i)) == src[i + 1][s]
  }

  lemma {:induction false} EvalPadded(f: Vec, n: nat, x: Gf)
    ensures Eval(f + Zeros(n), x) == Eval(f, x)
  {
    hide Eval, Add, Mul, Pow;
    if n == 0 {
      assert f + Zeros(0) == f;
    } else {
      EvalPadded(f, n - 1, x);
      assert f + Zeros(n) == f + Zeros(n - 1) + [0];
      EvalAppend(f + Zeros(n - 1), 0, x);
      MulZero(Pow(x, |f| + n - 1));
      AddZero(Eval(f, x));
    }
  }

  lemma ThroughAtPoint(f: Vec, k: nat, src: Mat, s: nat, i: nat)
    requires Through(f, k, src, s) && i < k
    ensures Eval(f, Point(i)) == src[i][s]
  {
    hide Eval, Exp;
    if i > 0 {
      assert Eval(f, Exp(i - 1)) == src[i - 1 + 1][s];
    }
  }

  lemma ThroughDegree(f: Vec, k: nat, src: Mat, s: nat)
    requires Through(f, k, src, s)
    ensures |f| <= k && k >= 1
  {
  }

  /** There is at most one such polynomial. */
  lemma ThroughIsInterpolant(f: Vec, k: nat, src: Mat, width: nat, s: nat)
    requires k <= 256 && IsMat(src, k, width) && s < width && Through(f, k, src, s)
    ensures f + Zeros(k - |f|) == Interpolant(k, Column(src, s))
  {
    hide Eval, Exp, Interpolant, Points, Point, Column, Through, EncRow, Dot;
    ThroughDegree(f, k, src, s);
    var g, h := Interpolant(k, Column(src, s)), f + Zeros(k - |f|);
    PointsDistinct(k);
    forall i | 0 <= i < k ensures Eval(h, Points(k)[i]) == Eval(g, Points(k)[i]) {
      ThroughAtPoint(f, k, src, s, i);
      EvalPadded(f, k - |f|, Point(i));
      InterpolantAtPoint(k, Column(src, s), i);
      UnitRow(k, i);
      DotUnit(i, Column(src, s));
      ColumnIs(src, s, i);
    }
    ValuesDetermine(Points(k), h, g);
  }

  lemma ColumnIs(src: Mat, s: nat, i: nat)
    requires i < |src| && forall j :: 0 <= j < |src| ==> s < |src[j]|
    ensures Column(src, s)[i] == src[i][s]
  {
  }

  /** And there is one. */
  lemma InterpolantThrough(k: nat, src: Mat, width: nat, s: nat)
    requires 1 <= k <= 256 && IsMat(src, k, width) && s < width
    ensures Through(Interpolant(k, Column(src, s)), k, src, s)
  {
    hide Eval, Exp, Interpolant, Column;
    var g := Interpolant(k, Column(src, s));
    forall i | 0 <= i < k ensures Eval(g, Point(i)) == src[i][s] {
      InterpolantAtPoint(k, Column(src, s), i);
      UnitRow(k, i);
      DotUnit(i, Column(src, s));
      ColumnIs(src, s, i);
    }
    assert Eval(g, Point(0)) == src[0][s];
    forall i | 0 <= i < k - 1 ensures Eval(g, Exp(i)) == src[i + 1][s] {
      assert Eval(g, Point(i + 1)) == src[i + 1][s];
    }
  }

  /** Packet j + 1 holds the values of these polynomials at the power j of 2. */
  lemma PacketIsPolynomial(k: nat, src: Mat, width: nat, f: Vec, s: nat, j: nat)
    requires k <= 256 && IsMat(src, k, width) && s < width && Through(f, k, src, s)
    ensures Encoded(k, src, 0, width)[s] == Eval(f, 0)
    ensures Encoded(k, src, j + 1, width)[s] == Eval(f, Exp(j))
  {
    hide Eval, Exp, Interpolant, Column, Through, Encoded, EncRow, Dot;
    ThroughDegree(f, k, src, s);
    var d := Column(src, s);
    ThroughIsInterpolant(f, k, src, width, s);
    forall i: nat ensures Encoded(k, src, i, width)[s] == Eval(f, Point(i)) {
      EncodedAt(k, src, i, width, s);
      InterpolantAtPoint(k, d, i);
      EvalPadded(f, k - |f|, Point(i));
    }
    assert Point(0) == 0 && Point(j + 1) == Exp(j);
  }

  /** The rows of k packets. */
  function Selected(k: nat, index: seq<int>): (m: Mat)
    requires k <= 256 && |index| == k && forall i :: 0 <= i < k ==> 0 <= index[i]
    ensures IsMat(m, k, k) && forall i :: 0 <= i < k ==> m[i] == EncRow(k, index[i])
  {
    seq(k, i requires 0 <= i < k => EncRow(k, index[i]))
  }

  /** Any k different packets determine the source: their rows form a non-singular matrix. */
  lemma AnyKPacketsSuffice(k: nat, index: seq<int>)
    requires k <= 256 && |index| == k && NoRepeats(index)
    requires forall i :: 0 <= i < k ==> 0 <= index[i] < 256
    ensures NonSingular(Selected(k, index), k)
  {
    hide Selected, EncRow, Apply, Interpolant, Eval, Zeros, Dot, Points, Point;
    forall d: Vec | |d| == k && Apply(Selected(k, index), d) == Zeros(k)
      ensures d == Zeros(k)
    {
      var f := Interpolant(k, d);
      var roots := seq(k, i requires 0 <= i < k => Point(index[i]));
      SelectedPointsDistinct(k, index, roots);
      forall i | 0 <= i < k ensures Eval(f, roots[i]) == 0 {
        assert Apply(Selected(k, index), d)[i] == 0;
        InterpolantAtPoint(k, d, index[i]);
      }
      RootsForceZero(f, roots);
      SourceOfZero(k, d);
    }
  }

  lemma SelectedPointsDistinct(k: nat, index: seq<int>, roots: Vec)
    requires |index| == |roots| == k && NoRepeats(index)
    requires forall i :: 0 <= i < k ==> 0 <= index[i] < 256 && roots[i] == Point(index[i])
    ensures NoRepeats(roots)
  {
    hide Points, Point;
    PointsDistinct(256);
    var p := Points(256);
    forall i, j | 0 <= i < j < k ensures roots[i] != roots[j] {
      assert p[index[i]] != p[index[j]] by {
        if index[i] < index[j] {
        } else {
          assert p[index[j]] != p[index[i]];
        }
      }
    }
  }

  lemma SourceOfZero(k: nat, d: Vec)
    requires k <= 256 && |d| == k && Interpolant(k, d) == Zeros(k)
    ensures d == Zeros(k)
  {
    hide Eval, Interpolant, EncRow, Dot;
    forall i | 0 <= i < k ensures d[i] == 0 {
      InterpolantAtPoint(k, d, i);
      UnitRow(k, i);
      DotUnit(i, d);
      EvalZeros(k, Point(i));
    }
  }

  lemma UnitRow(k: nat, i: nat)
    requires i < k <= 256
    ensures EncRow(k, i) == Unit(k, i)
  {
  }

  lemma {:induction false} EvalZeros(n: nat, x: Gf)
    ensures Eval(Zeros(n), x) == 0
  {
    hide Add, Mul;
    if n > 0 {
      assert Zeros(n)[1..] == Zeros(n - 1);
      EvalZeros(n - 1, x);
      MulZero(x);
      AddZero(0);
    }
  }

  /** At most one source has the given packets. */
  lemma SourceIsUnique(k: nat, index: seq<int>, src: Mat, other: Mat, width: nat)
    requires k <= 256 && |index| == k && NoRepeats(index)
    requires forall i :: 0 <= i < k ==> 0 <= index[i] < 256
    requires IsMat(src, k, width) && IsMat(other, k, width)
    requires forall i :: 0 <= i < k ==> Encoded(k, src, index[i], width) == Encoded(k, other, index[i], width)
    ensures src == other
  {
    hide Encoded, NonSingular, Column, Selected;
    AnyKPacketsSuffice(k, index);
    forall i | 0 <= i < k ensures src[i] == other[i] {
      forall s | 0 <= s < width ensures src[i][s] == other[i][s] {
        ColumnIsUnique(k, index, src, other, width, s);
        assert Column(src, s)[i] == Column(other, s)[i];
      }
    }
  }

  lemma EncodedAt(k: nat, src: Mat, i: nat, width: nat, s: nat)
    requires k <= 256 && IsMat(src, k, width) && s < width
    ensures Encoded(k, src, i, width)[s] == Dot(EncRow(k, i), Column(src, s))
  {
    hide EncRow, Column, Combine;
    CombineAt(EncRow(k, i), src, k, width, s);
  }

  lemma ColumnIsUnique(k: nat, index: seq<int>, src: Mat, other: Mat, width: nat, s: nat)
    requires k <= 256 && |index| == k
    requires forall i :: 0 <= i < k ==> 0 <= index[i]
    requires IsMat(src, k, width) && IsMat(other, k, width) && s < width
    requires forall i :: 0 <= i < k ==> Encoded(k, src, index[i], width) == Encoded(k, other, index[i], width)
    requires NonSingular(Selected(k, index), k)
    ensures Column(src, s) == Column(other, s)
  {
    hide Encoded, Column, Selected, Dot, AddMul, Apply, Zeros, EncRow;
    var a, b := Column(src, s), Column(other, s);
    var d := AddMul(a, b, 1);
    forall i | 0 <= i < k ensures Apply(Selected(k, index), d)[i] == 0 {
      EncodedAt(k, src, index[i], width, s);
      EncodedAt(k, other, index[i], width, s);
      DotDifference(EncRow(k, index[i]), a, b);
    }
    assert Apply(Selected(k, index), d) == Zeros(k);
    DifferenceZero(a, b);
  }

  lemma DotDifference(row: Vec, a: Vec, b: Vec)
    requires |row| == |a| == |b| && Dot(row, a) == Dot(row, b)
    ensures Dot(row, AddMul(a, b, 1)) == 0
  {
    hide DotTo, Add, Mul, AddMul;
    DotComm(row, a);
    DotComm(row, b);
    DotComm(row, AddMul(a, b, 1));
    DotAddMul(a, b, 1, row, |row|);
    MulOne(Dot(b, row));
    AddSelf(Dot(b, row));
  }

  lemma DifferenceZero(a: Vec, b: Vec)
    requires |a| == |b| && AddMul(a, b, 1) == Zeros(|a|)
    ensures a == b
  {
    hide Add, Mul;
    forall i | 0 <= i < |a| ensures a[i] == b[i] {
      assert AddMul(a, b, 1)[i] == 0;
      MulOne(b[i]);
      AddEqualIffZero(a[i], b[i]);
    }
  }
}
