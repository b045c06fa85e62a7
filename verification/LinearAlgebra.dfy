// Vectors and matrices over GF(2^8): the facts about sums of products that the erasure code of
// lib/libfec.c rests on.

module LinearAlgebra {
  import opened GaloisField

  type Vec = seq<Gf>
  type Mat = seq<Vec>

  ghost predicate IsMat(m: Mat, rows: nat, cols: nat)
  {
    |m| == rows && forall i :: 0 <= i < rows ==> |m[i]| == cols
  }

  /* ---------------------------------------------------------------- sums of products */

  /** The sum of the first n products a[i] * b[i]. */
  function DotTo(a: Vec, b: Vec, n: nat): Gf
    requires n <= |a| && n <= |b|
  {
    if n == 0 then 0 else Add(DotTo(a, b, n - 1), Mul(a[n - 1], b[n - 1]))
  }

  function Dot(a: Vec, b: Vec): Gf
    requires |a| == |b|
  {
    DotTo(a, b, |a|)
  }

  function Zeros(n: nat): (z: Vec)
    ensures |z| == n && forall i :: 0 <= i < n ==> z[i] == 0
  {
    seq(n, _ => 0)
  }

  function Unit(n: nat, i: nat): (e: Vec)
    requires i < n
    ensures |e| == n && e[i] == 1 && forall j :: 0 <= j < n && j != i ==> e[j] == 0
  {
    seq(n, j => if j == i then 1 else 0)
  }

  /** c * a */
  function Scale(c: Gf, a: Vec): (r: Vec)
    ensures |r| == |a| && forall i :: 0 <= i < |a| ==> r[i] == Mul(c, a[i])
  {
    seq(|a|, i requires 0 <= i < |a| => Mul(c, a[i]))
  }

  /** a + c * b, the operation addmul performs */
  function AddMul(a: Vec, b: Vec, c: Gf): (r: Vec)
    requires |a| == |b|
    ensures |r| == |a| && forall i :: 0 <= i < |a| ==> r[i] == Add(a[i], Mul(c, b[i]))
  {
    seq(|a|, i requires 0 <= i < |a| => Add(a[i], Mul(c, b[i])))
  }

  lemma {:induction false} DotCongruent(a: Vec, b: Vec, a': Vec, b': Vec, n: nat)
    requires n <= |a| && n <= |b| && n <= |a'| && n <= |b'|
    requires forall i :: 0 <= i < n ==> Mul(a[i], b[i]) == Mul(a'[i], b'[i])
    ensures DotTo(a, b, n) == DotTo(a', b', n)
  {
    hide Add, Mul;
    if n > 0 {
      DotCongruent(a, b, a', b', n - 1);
    }
  }

  lemma DotComm(a: Vec, b: Vec)
    requires |a| == |b|
    ensures Dot(a, b) == Dot(b, a)
  {
    hide Add, Mul;
    forall i | 0 <= i < |a| ensures Mul(a[i], b[i]) == Mul(b[i], a[i]) {
      MulComm(a[i], b[i]);
    }
    DotCongruent(a, b, b, a, |a|);
  }

  lemma {:induction false} DotZeros(a: Vec, b: Vec, n: nat)
    requires n <= |a| && n <= |b|
    requires forall i :: 0 <= i < n ==> a[i] == 0 || b[i] == 0
    ensures DotTo(a, b, n) == 0
  {
    hide Add, Mul;
    if n > 0 {
      DotZeros(a, b, n - 1);
      MulZero(a[n - 1]);
      MulZero(b[n - 1]);
      AddZero(0);
    }
  }

  /** One coordinate can be taken out of a sum of products. */
  lemma {:induction false} DotSplit(a: Vec, b: Vec, j: nat, n: nat)
    requires j < n <= |a| && n <= |b|
    ensures DotTo(a, b, n) == Add(DotTo(a[j := 0], b, n), Mul(a[j], b[j]))
  {
    hide Add, Mul;
    var z := a[j := 0];
    var last, lastZ := Mul(a[n - 1], b[n - 1]), Mul(z[n - 1], b[n - 1]);
    if j == n - 1 {
      DotCongruent(a, b, z, b, n - 1);
      MulZero(b[j]);
      AddZero(DotTo(z, b, n - 1));
    } else {
      DotSplit(a, b, j, n - 1);
      var rest, one := DotTo(z, b, n - 1), Mul(a[j], b[j]);
      AddAssoc(rest, one, last);
      AddComm(one, last);
      AddAssoc(rest, last, one);
    }
  }

  /** A coordinate with coefficient 0 does not matter. */
  lemma DotIgnore(a: Vec, b: Vec, j: nat, v: Gf)
    requires |a| == |b| && j < |a| && a[j] == 0
    ensures Dot(a, b[j := v]) == Dot(a, b)
  {
    hide Add, Mul;
    MulZero(b[j]);
    MulZero(v);
    DotCongruent(a, b[j := v], a, b, |a|);
  }

  lemma {:induction false} DotScale(c: Gf, a: Vec, b: Vec, n: nat)
    requires n <= |a| && n <= |b|
    ensures DotTo(Scale(c, a), b, n) == Mul(c, DotTo(a, b, n))
  {
    hide Add, Mul;
    if n == 0 {
      MulZero(c);
    } else {
      DotScale(c, a, b, n - 1);
      MulAssoc(c, a[n - 1], b[n - 1]);
      Distribute(c, DotTo(a, b, n - 1), Mul(a[n - 1], b[n - 1]));
    }
  }

  lemma {:induction false} DotAddMul(a: Vec, r: Vec, c: Gf, b: Vec, n: nat)
    requires |a| == |r| && n <= |a| && n <= |b|
    ensures DotTo(AddMul(a, r, c), b, n) == Add(DotTo(a, b, n), Mul(c, DotTo(r, b, n)))
  {
    hide Add, Mul;
    if n == 0 {
      MulZero(c);
      AddZero(0);
    } else {
      DotAddMul(a, r, c, b, n - 1);
      var da, dr := DotTo(a, b, n - 1), DotTo(r, b, n - 1);
      var x, y, z := a[n - 1], r[n - 1], b[n - 1];
      Distribute(z, x, Mul(c, y));
      MulAssoc(c, y, z);
      Distribute(c, dr, Mul(y, z));
      AddExchange(da, Mul(c, dr), Mul(x, z), Mul(c, Mul(y, z)));
    }
  }

  lemma DotUnit(i: nat, b: Vec)
    requires i < |b|
    ensures Dot(Unit(|b|, i), b) == b[i]
  {
    hide Add, Mul, Unit;
    var e := Unit(|b|, i);
    DotSplit(e, b, i, |b|);
    DotZeros(e[i := 0], b, |b|);
    MulOne(b[i]);
    AddZero(b[i]);
  }

  /* ---------------------------------------------------------------- matrices */

  /** The matrix-vector product. */
  function Apply(m: Mat, x: Vec): (y: Vec)
    requires forall i :: 0 <= i < |m| ==> |m[i]| == |x|
    ensures |y| == |m| && forall i :: 0 <= i < |m| ==> y[i] == Dot(m[i], x)
  {
    seq(|m|, i requires 0 <= i < |m| => Dot(m[i], x))
  }

  function Column(m: Mat, j: nat): (c: Vec)
    requires forall i :: 0 <= i < |m| ==> j < |m[i]|
    ensures |c| == |m| && forall i :: 0 <= i < |m| ==> c[i] == m[i][j]
  {
    seq(|m|, i requires 0 <= i < |m| => m[i][j])
  }

  /** The sum of the first n rows, each scaled by its coefficient: what a sequence of addmul calls
      leaves in a buffer that started at zero. */
  function Combine(coefs: Vec, rows: Mat, n: nat, width: nat): (r: Vec)
    requires n <= |coefs| && n <= |rows| && forall i :: 0 <= i < |rows| ==> |rows[i]| == width
    ensures |r| == width
  {
    if n == 0 then Zeros(width) else AddMul(Combine(coefs, rows, n - 1, width), rows[n - 1], coefs[n - 1])
  }

  lemma {:induction false} CombineAt(coefs: Vec, rows: Mat, n: nat, width: nat, j: nat)
    requires n <= |coefs| && n <= |rows| && forall i :: 0 <= i < |rows| ==> |rows[i]| == width
    requires j < width
    ensures Combine(coefs, rows, n, width)[j] == DotTo(coefs, Column(rows, j), n)
  {
    hide Add, Mul, Zeros, AddMul, Column;
    if n > 0 {
      CombineAt(coefs, rows, n - 1, width, j);
    }
  }

  /** Combining rows and then taking a product is the same as combining the products. */
  lemma {:induction false} DotCombine(coefs: Vec, rows: Mat, n: nat, width: nat, x: Vec)
    requires n <= |coefs| && n <= |rows| && forall i :: 0 <= i < |rows| ==> |rows[i]| == width
    requires |x| == width
    ensures Dot(Combine(coefs, rows, n, width), x) == DotTo(coefs, Apply(rows, x), n)
  {
    hide Add, Mul, Zeros, AddMul, Apply;
    if n == 0 {
      DotZeros(Zeros(width), x, width);
    } else {
      DotCombine(coefs, rows, n - 1, width, x);
      DotAddMul(Combine(coefs, rows, n - 1, width), rows[n - 1], coefs[n - 1], x, width);
    }
  }

  /** b undoes a and a undoes b. */
  ghost predicate IsInverse(a: Mat, b: Mat, k: nat)
  {
    && IsMat(a, k, k) && IsMat(b, k, k)
    && forall x: Vec, y: Vec :: |x| == k && |y| == k ==> (Apply(a, x) == y <==> Apply(b, y) == x)
  }

  /** Only the zero vector is mapped to zero. */
  ghost predicate NonSingular(a: Mat, k: nat)
    requires IsMat(a, k, k)
  {
    forall x: Vec :: |x| == k && Apply(a, x) == Zeros(k) ==> x == Zeros(k)
  }
}
