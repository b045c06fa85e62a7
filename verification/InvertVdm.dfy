// invert_vdm of lib/libfec.c: the inverse of a Vandermonde matrix from the polynomial that vanishes
// at all its points.  The source leaves out the constant coefficient of that polynomial at every
// stage, which does no harm because the first point is 0 (fec_new arranges this).

module InvertVdm {
  import opened Basics
  import opened GaloisField
  import opened LinearAlgebra
  import opened Polynomials
  import opened InvertMat
  import opened GaloisTables

  /* ---------------------------------------------------------------- the master polynomial */

  /** The product of (x - p) over the first n points. */
  function Master(points: Vec, n: nat): (c: Vec)
    requires n <= |points|
    ensures |c| == n + 1
  {
    if n == 0 then [1] else TimesLinear(Master(points, n - 1), points[n - 1])
  }

  lemma {:induction false} MasterLeads(points: Vec, n: nat)
    requires n <= |points|
    ensures Master(points, n)[n] == 1
  {
    hide Add, Mul, TimesLinear;
    if n > 0 {
      MasterLeads(points, n - 1);
      TimesLinearAt(Master(points, n - 1), points[n - 1], n);
      MulZero(points[n - 1]);
      AddZero(1);
    }
  }

  lemma {:induction false} MasterVanishes(points: Vec, n: nat, i: nat)
    requires i < n <= |points|
    ensures Eval(Master(points, n), points[i]) == 0
  {
    hide Add, Mul, TimesLinear, Eval;
    var c, r := Master(points, n - 1), points[n - 1];
    EvalTimesLinear(c, r, points[i]);
    if i == n - 1 {
      AddSelf(r);
      MulZero(Eval(c, r));
    } else {
      MasterVanishes(points, n - 1, i);
      MulZero(Add(points[i], r));
    }
  }

  /* ---------------------------------------------------------------- Lagrange polynomials */

  /** The quotient of the master polynomial by one of its factors. */
  function Cofactor(points: Vec, s: nat): (b: Vec)
    requires s < |points|
    ensures |b| == |points|
  {
    Quotient(Master(points, |points|), points[s])
  }

  lemma CofactorVanishes(points: Vec, s: nat, r: nat)
    requires s < |points| && r < |points| && r != s && NoRepeats(points)
    ensures Eval(Cofactor(points, s), points[r]) == 0
  {
    hide Add, Mul, Eval, Quotient, Master;
    var c, x := Master(points, |points|), points[r];
    QuotientRemainder(c, points[s], x);
    MasterVanishes(points, |points|, r);
    MasterVanishes(points, |points|, s);
    AddZero(0);
    assert x != points[s] by { assert if r < s then points[r] != points[s] else points[s] != points[r]; }
    AddEqualIffZero(x, points[s]);
    if Eval(Cofactor(points, s), x) != 0 {
      MulNonZero(Add(x, points[s]), Eval(Cofactor(points, s), x));
      assert false;
    }
  }

  lemma CofactorLeads(points: Vec, s: nat)
    requires s < |points|
    ensures Cofactor(points, s)[|points| - 1] == 1
  {
    hide Add, Mul, Master, Quotient;
    var k := |points|;
    var c := Master(points, k);
    QuotientAt(c, points[s], k - 1);
    MasterLeads(points, k);
    assert c[k..] == [1];
    assert [1 as Gf][1..] == [];
    MulZero(points[s]);
    AddZero(1);
  }

  /** At its own point the cofactor is not zero: it would have too many roots. */
  lemma CofactorAtOwnPoint(points: Vec, s: nat)
    requires s < |points| && NoRepeats(points)
    ensures Eval(Cofactor(points, s), points[s]) != 0
  {
    hide Eval, Cofactor;
    var b := Cofactor(points, s);
    if Eval(b, points[s]) == 0 {
      forall r | 0 <= r < |points| ensures Eval(b, points[r]) == 0 {
        if r != s {
          CofactorVanishes(points, s, r);
        }
      }
      RootsForceZero(b, points);
      CofactorLeads(points, s);
      assert false;
    }
  }

  /** The polynomial that is 1 at point s and 0 at the others. */
  function Lagrange(points: Vec, s: nat): (l: Vec)
    requires s < |points| && NoRepeats(points)
    ensures |l| == |points|
  {
    CofactorAtOwnPoint(points, s);
    Scale(Inv(Eval(Cofactor(points, s), points[s])), Cofactor(points, s))
  }

  lemma LagrangeValues(points: Vec, s: nat, r: nat)
    requires s < |points| && r < |points| && NoRepeats(points)
    ensures Eval(Lagrange(points, s), points[r]) == if r == s then 1 else 0
  {
    hide Eval, Cofactor, Mul, Inv;
    CofactorAtOwnPoint(points, s);
    var b := Cofactor(points, s);
    var t := Eval(b, points[s]);
    EvalScale(Inv(t), b, points[r]);
    if r == s {
      InvMul(t);
    } else {
      CofactorVanishes(points, s, r);
      MulZero(Inv(t));
    }
  }

  function Lagranges(points: Vec): (m: Mat)
    requires NoRepeats(points)
    ensures IsMat(m, |points|, |points|)
    ensures forall s :: 0 <= s < |points| ==> m[s] == Lagrange(points, s)
  {
    seq(|points|, s requires 0 <= s < |points| => Lagrange(points, s))
  }

  /** What invert_vdm writes: column s holds the coefficients of the s-th Lagrange polynomial. */
  function VandermondeInverse(points: Vec): (m: Mat)
    requires NoRepeats(points)
    ensures IsMat(m, |points|, |points|)
    ensures forall i :: 0 <= i < |points| ==> m[i] == Column(Lagranges(points), i)
  {
    seq(|points|, i requires 0 <= i < |points| => Column(Lagranges(points), i))
  }

  /* ---------------------------------------------------------------- it is the inverse */

  /** The inverse interpolates: its result takes the given values at the points. */
  lemma Interpolates(points: Vec, y: Vec, r: nat)
    requires NoRepeats(points) && |y| == |points| && r < |points|
    ensures Eval(Apply(VandermondeInverse(points), y), points[r]) == y[r]
  {
    hide Eval, Lagrange, Dot, DotTo, Column, PowerRow, Combine, Apply, VandermondeInverse;
    var k, l := |points|, Lagranges(points);
    var f, row := Apply(VandermondeInverse(points), y), PowerRow(points[r], k);
    // f is the combination of the Lagrange polynomials with weights y
    forall j | 0 <= j < k ensures f[j] == Combine(y, l, k, k)[j] {
      InverseRow(points, y, j);
    }
    assert f == Combine(y, l, k, k);
    EvalIsDot(f, points[r]);
    DotComm(row, f);
    DotCombineAll(y, l, k, row);
    forall s | 0 <= s < k ensures Apply(l, row)[s] == Unit(k, r)[s] {
      EvalIsDot(l[s], points[r]);
      DotComm(row, l[s]);
      LagrangeValues(points, s, r);
    }
    assert Apply(l, row) == Unit(k, r);
    DotComm(y, Unit(k, r));
    DotUnit(r, y);
  }

  lemma InverseRow(points: Vec, y: Vec, j: nat)
    requires NoRepeats(points) && |y| == |points| && j < |points|
    ensures Apply(VandermondeInverse(points), y)[j] == Combine(y, Lagranges(points), |points|, |points|)[j]
  {
    hide Lagrange, DotTo, Column, Combine, VandermondeInverse;
    var k, l := |points|, Lagranges(points);
    CombineAt(y, l, k, k, j);
    DotComm(Column(l, j), y);
  }

  lemma DotCombineAll(coefs: Vec, rows: Mat, k: nat, x: Vec)
    requires |coefs| == k && IsMat(rows, k, k) && |x| == k
    ensures Dot(Combine(coefs, rows, k, k), x) == Dot(coefs, Apply(rows, x))
  {
    hide DotTo, Combine, Apply;
    DotCombine(coefs, rows, k, k, x);
  }

  lemma EvalIsDot(c: Vec, x: Gf)
    ensures Eval(c, x) == Dot(PowerRow(x, |c|), c)
  {
    hide Eval, PowerRow, DotTo;
    DotPowers(c, x, |c|);
    assert c[..|c|] == c;
  }

  /** Two coefficient vectors with the same values at enough different points are equal. */
  lemma ValuesDetermine(points: Vec, f: Vec, g: Vec)
    requires NoRepeats(points) && |f| == |g| <= |points|
    requires forall i :: 0 <= i < |points| ==> Eval(f, points[i]) == Eval(g, points[i])
    ensures f == g
  {
    hide Eval, AddMul, Add, Mul;
    var d := AddMul(f, g, 1);
    forall i | 0 <= i < |points| ensures Eval(d, points[i]) == 0 {
      EvalAddMul(f, g, 1, points[i]);
      MulOne(Eval(g, points[i]));
      AddSelf(Eval(g, points[i]));
    }
    RootsForceZero(d, points);
    forall j | 0 <= j < |f| ensures f[j] == g[j] {
      assert d[j] == 0;
      MulOne(g[j]);
      AddEqualIffZero(f[j], g[j]);
    }
  }

  lemma VandermondeInverseIsInverse(points: Vec)
    requires NoRepeats(points)
    ensures IsInverse(Vandermonde(points, |points|), VandermondeInverse(points), |points|)
  {
    hide Apply, VandermondeInverse, Vandermonde, Eval;
    var k := |points|;
    var v, w := Vandermonde(points, k), VandermondeInverse(points);
    forall x: Vec, y: Vec | |x| == k && |y| == k
      ensures Apply(v, x) == y <==> Apply(w, y) == x
    {
      var f := Apply(w, y);
      ApplyVandermonde(points, x);
      ApplyVandermonde(points, f);
      forall r | 0 <= r < k ensures Eval(f, points[r]) == y[r] {
        Interpolates(points, y, r);
      }
      assert Apply(v, f) == y;
      if Apply(v, x) == y {
        forall i | 0 <= i < k ensures Eval(f, points[i]) == Eval(x, points[i]) {
          assert Apply(v, f)[i] == Apply(v, x)[i];
        }
        ValuesDetermine(points, f, x);
      }
    }
  }

  /* ---------------------------------------------------------------- the denominators */

  /** The product of (x - p) over all points p. */
  function Differences(x: Gf, points: Vec, n: nat): Gf
    requires n <= |points|
  {
    if n == 0 then 1 else Mul(Add(x, points[n - 1]), Differences(x, points, n - 1))
  }

  lemma {:induction false} EvalMaster(points: Vec, n: nat, x: Gf)
    requires n <= |points|
    ensures Eval(Master(points, n), x) == Differences(x, points, n)
  {
    hide Add, Mul, TimesLinear;
    if n == 0 {
      assert [1 as Gf][1..] == [];
      MulZero(x);
      AddZero(1);
    } else {
      EvalMaster(points, n - 1, x);
      EvalTimesLinear(Master(points, n - 1), points[n - 1], x);
    }
  }

  /** The divisor t that invert_vdm finds by Horner's rule is the product of the differences between
      point s and all other points. */
  lemma DenominatorIsProduct(points: Vec, s: nat)
    requires s < |points| && NoRepeats(points)
    ensures var others := points[..s] + points[s + 1..];
      Eval(Cofactor(points, s), points[s]) == Differences(points[s], others, |others|)
  {
    hide Eval, Cofactor, Master, Differences;
    var others := points[..s] + points[s + 1..];
    var k := |points|;
    var f, g := Cofactor(points, s), Master(others, k - 1);
    CofactorLeads(points, s);
    MasterLeads(others, k - 1);
    assert NoRepeats(others);
    forall i | 0 <= i < k - 1 ensures Eval(f, others[i]) == 0 && Eval(g, others[i]) == 0 {
      CofactorVanishes(points, s, if i < s then i else i + 1);
      MasterVanishes(others, k - 1, i);
    }
    MonicWithSameRoots(f, g, others);
    EvalMaster(others, k - 1, points[s]);
  }

  lemma MonicWithSameRoots(f: Vec, g: Vec, roots: Vec)
    requires |f| == |g| == |roots| + 1 && NoRepeats(roots)
    requires f[|roots|] == 1 && g[|roots|] == 1
    requires forall i :: 0 <= i < |roots| ==> Eval(f, roots[i]) == 0 && Eval(g, roots[i]) == 0
    ensures f == g
  {
    hide Eval, Mul, Add;
    var n := |roots|;
    var f', g' := f[..n], g[..n];
    assert f == f' + [1] && g == g' + [1];
    forall i | 0 <= i < n ensures Eval(f', roots[i]) == Eval(g', roots[i]) {
      var x := roots[i];
      EvalAppend(f', 1, x);
      EvalAppend(g', 1, x);
      AddEqualIffZero(Eval(f', x), Mul(1, Pow(x, n)));
      AddEqualIffZero(Eval(g', x), Mul(1, Pow(x, n)));
    }
    ValuesDetermine(roots, f', g');
  }

  /* ---------------------------------------------------------------- what the code computes */

  /** The coefficients that invert_vdm works with: the constant one is lost when the second point comes. */
  function Computed(points: Vec, n: nat): (c: Vec)
    requires n <= |points|
    ensures |c| == n + 1
  {
    if n < 2 then Master(points, n)
    else if n == 2 then [0, Add(points[0], points[1]), 1]
    else TimesLinear(Computed(points, n - 1), points[n - 1])
  }

  lemma {:induction false} ComputedLeads(points: Vec, n: nat)
    requires n <= |points|
    ensures Computed(points, n)[n] == 1
    ensures n >= 2 ==> Computed(points, n)[0] == 0
  {
    hide Add, Mul, TimesLinear;
    if n < 2 {
      MasterLeads(points, n);
    } else if n > 2 {
      var c := Computed(points, n - 1);
      ComputedLeads(points, n - 1);
      TimesLinearAt(c, points[n - 1], n);
      TimesLinearAt(c, points[n - 1], 0);
      MulZero(points[n - 1]);
      AddZero(0);
      AddZero(1);
    }
  }

  lemma MasterOfTwo(points: Vec)
    requires |points| >= 2
    ensures Master(points, 2) == [Mul(points[1], points[0]), Add(points[0], points[1]), 1]
  {
    hide Add, Mul, TimesLinear;
    var m := Master(points, 1);
    FirstStage(points);
    MasterLeads(points, 1);
    MasterLeads(points, 2);
    assert m == [points[0], 1];
    TimesLinearAt(m, points[1], 0);
    TimesLinearAt(m, points[1], 1);
    MulOne(points[1]);
    AddComm(0, Mul(points[1], points[0]));
    AddZero(Mul(points[1], points[0]));
  }

  /** Nothing is lost if one of the first two points is 0. */
  lemma {:induction false} ComputedIsMaster(points: Vec, n: nat)
    requires n <= |points| && |points| >= 2 && (points[0] == 0 || points[1] == 0)
    ensures Computed(points, n) == Master(points, n)
  {
    hide Add, Mul, TimesLinear;
    if n == 2 {
      MasterOfTwo(points);
      MulZero(points[0]);
      MulZero(points[1]);
    } else if n > 2 {
      ComputedIsMaster(points, n - 1);
    }
  }

  /** Else the second coefficient but one is wrong from then on. */
  lemma {:induction false} ComputedIsNot(points: Vec, n: nat)
    requires 2 <= n <= |points| && points[0] != 0 && points[1] != 0
    ensures Computed(points, n)[n - 2] != Master(points, n)[n - 2]
    ensures Computed(points, n)[n - 1] == Master(points, n)[n - 1]
  {
    hide Add, Mul, TimesLinear;
    if n == 2 {
      MasterOfTwo(points);
      MulNonZero(points[1], points[0]);
    } else {
      var c, m, p := Computed(points, n - 1), Master(points, n - 1), points[n - 1];
      ComputedIsNot(points, n - 1);
      ComputedLeads(points, n - 1);
      MasterLeads(points, n - 1);
      TimesLinearAt(c, p, n - 2);
      TimesLinearAt(m, p, n - 2);
      TimesLinearAt(c, p, n - 1);
      TimesLinearAt(m, p, n - 1);
      AddCancel(c[n - 3], m[n - 3], Mul(p, c[n - 2]));
    }
  }

  lemma AddCancel(a: Gf, b: Gf, c: Gf)
    ensures Add(a, c) == Add(b, c) ==> a == b
  {
  }

  /** The points for which invert_vdm works. */
  predicate Suitable(points: Vec)
  {
    |points| <= 2 || points[0] == 0 || points[1] == 0
  }

  /** What is written to the column of point x, given the coefficients c. */
  function Written(c: Vec, x: Gf): (w: Vec)
    requires |c| > 0
    ensures |w| == |c| - 1
  {
    Scale(InverseEntry(Eval(Quotient(c, x), x)), Quotient(c, x))
  }

  /** The constant coefficient is never used. */
  lemma SameWritten(c: Vec, d: Vec, x: Gf)
    requires |c| == |d| > 0 && c[1..] == d[1..]
    ensures Written(c, x) == Written(d, x)
  {
    hide Eval, Mul;
    assert Quotient(c, x) == Quotient(d, x);
  }

  /** All the others are. */
  lemma WrittenTells(c: Vec, d: Vec, x: Gf, m: nat)
    requires |c| == |d| >= 2 && c[|c| - 1] == d[|c| - 1] == 1 && 1 <= m < |c| - 1
    requires Eval(Quotient(d, x), x) != 0 && Written(c, x) == Written(d, x)
    ensures c[m] == d[m]
  {
    hide Eval, Mul, Quotient, Scale, Inv, Add;
    var q, r, k := Quotient(c, x), Quotient(d, x), |c| - 1;
    var t, u := InverseEntry(Eval(q, x)), InverseEntry(Eval(r, x));
    QuotientTop(c, x);
    QuotientTop(d, x);
    MulOne(t);
    MulOne(u);
    assert Written(c, x)[k - 1] == t && Written(d, x)[k - 1] == u;
    InvMul(Eval(r, x));
    assert u != 0;
    MulCancel(u, q[m - 1], r[m - 1]);
    MulCancel(u, q[m], r[m]);
    QuotientStep(c, x, m - 1);
    QuotientStep(d, x, m - 1);
    AddCancel(c[m], d[m], Mul(x, q[m]));
  }

  lemma MulCancel(u: Gf, a: Gf, b: Gf)
    requires u != 0
    ensures Mul(u, a) == Mul(u, b) ==> a == b
  {
    hide Mul, Inv;
    InvMul(u);
    MulAssoc(Inv(u), u, a);
    MulAssoc(Inv(u), u, b);
    MulOne(a);
    MulOne(b);
  }

  /** Every column is that of the inverse exactly for suitable points. */
  lemma WrittenIsLagrange(points: Vec, s: nat)
    requires s < |points| && NoRepeats(points) && |points| >= 2
    ensures Suitable(points) <==> Written(Computed(points, |points|), points[s]) == Lagrange(points, s)
  {
    hide Written, Computed, Master, Eval, Lagrange, Quotient, Cofactor;
    var k := |points|;
    var c, m := Computed(points, k), Master(points, k);
    LagrangeIsWritten(points, s);
    ComputedLeads(points, k);
    MasterLeads(points, k);
    if points[0] == 0 || points[1] == 0 {
      ComputedIsMaster(points, k);
    } else if k == 2 {
      ComputedIsNot(points, 2);
      assert c[1..] == m[1..];
      SameWritten(c, m, points[s]);
    } else {
      ComputedIsNot(points, k);
      if Written(c, points[s]) == Written(m, points[s]) {
        WrittenTells(c, m, points[s], k - 2);
      }
    }
  }

  lemma LagrangeIsWritten(points: Vec, s: nat)
    requires s < |points| && NoRepeats(points)
    ensures Lagrange(points, s) == Written(Master(points, |points|), points[s])
    ensures Eval(Quotient(Master(points, |points|), points[s]), points[s]) != 0
  {
    hide Eval, Quotient, Master;
    CofactorAtOwnPoint(points, s);
  }

  /** A matrix has one inverse. */
  lemma InverseIsUnique(a: Mat, b: Mat, c: Mat, k: nat)
    requires IsInverse(a, b, k) && IsInverse(a, c, k)
    ensures b == c
  {
    hide Dot, Unit;
    forall i | 0 <= i < k ensures b[i] == c[i] {
      forall j | 0 <= j < k ensures b[i][j] == c[i][j] {
        var e := Unit(k, j);
        assert Apply(b, e) == Apply(c, e) by {
          assert Apply(a, Apply(b, e)) == e;
        }
        assert Dot(b[i], e) == Apply(b, e)[i] == Apply(c, e)[i] == Dot(c[i], e);
        DotComm(b[i], e);
        DotComm(c[i], e);
        DotUnit(j, b[i]);
        DotUnit(j, c[i]);
      }
    }
  }

  /* ---------------------------------------------------------------- the code */

  /** Build the coefficients below the leading 1 in place, one point at a time. */
  method MasterCoefficients(gf: Tables, p: array<Gf>) returns (c: array<Gf>)
    requires gf.Ready() && p.Length > 0
    ensures fresh(c) && c.Length == p.Length
    ensures c[..] + [1] == Computed(p[..], p.Length)
  {
    hide Add, Mul, Master, Computed, Tables.Ready, Tables.Times;
    var k := p.Length;
    ghost var points := p[..];
    c := new Gf[k](_ => 0);
    c[k - 1] := p[0];
    FirstStage(points);
    ComputedFirst(points);
    for i := 1 to k
      invariant forall j :: 0 <= j < k - i ==> c[j] == 0
      invariant forall m :: 0 <= m < i ==> c[k - i + m] == Computed(points, i)[m]
    {
      var pi := p[i];
      ComputedLeads(points, i);
      MultiplyIn(gf, c, i, pi);
      ghost var next := Computed(points, i + 1);
      forall m | 0 <= m < i + 1 ensures c[k - (i + 1) + m] == next[m] {
        NextStage(points, i, m);
        MulOne(pi);
      }
    }
    ComputedLeads(points, k);
    assert c[..] + [1] == Computed(points, k);
  }

  /** One stage: the last i coefficients, and the leading 1 behind them, times (x - pi). */
  method MultiplyIn(gf: Tables, c: array<Gf>, i: nat, pi: Gf)
    requires gf.Ready() && gf.Outside({c}) && 1 <= i < c.Length
    modifies c
    ensures forall m :: 0 <= m < c.Length - i ==> c[m] == old(c[m])
    ensures forall m :: c.Length - i <= m < c.Length - 1 ==> c[m] == Add(old(c[m]), Mul(pi, old(c[m + 1])))
    ensures c[c.Length - 1] == Add(old(c[c.Length - 1]), pi)
  {
    hide Add, Mul, Tables.Ready, Tables.Times;
    var k := c.Length;
    for j := k - i to k - 1
      invariant forall m :: 0 <= m < k && !(k - i <= m < j) ==> c[m] == old(c[m])
      invariant forall m :: k - i <= m < j ==> c[m] == Add(old(c[m]), Mul(pi, old(c[m + 1])))
    {
      c[j] := Add(c[j], gf.Times(pi, c[j + 1]));
    }
    c[k - 1] := Add(c[k - 1], pi);
  }

  lemma FirstStage(points: Vec)
    requires |points| > 0
    ensures Master(points, 1)[0] == points[0]
  {
    hide Add, Mul, TimesLinear;
    assert Master(points, 0) == [1];
    TimesLinearAt([1], points[0], 0);
    MulOne(points[0]);
    AddZero(points[0]);
  }

  lemma ComputedFirst(points: Vec)
    requires |points| > 0
    ensures Computed(points, 1) == Master(points, 1)
  {
  }

  lemma NextStage(points: Vec, i: nat, m: nat)
    requires 1 <= i < |points| && m <= i
    ensures Computed(points, i + 1)[m] ==
      if m == 0 then 0 else Add(Computed(points, i)[m - 1], Mul(points[i], Computed(points, i)[m]))
  {
    hide Add, Mul, TimesLinear;
    ComputedLeads(points, i);
    if i == 1 {
      FirstStage(points);
      MasterLeads(points, 1);
      MulOne(points[1]);
    } else {
      TimesLinearAt(Computed(points, i), points[i], m);
      MulZero(points[i]);
      AddZero(0);
    }
  }

  /** Synthetic division by (x - xx), evaluating the quotient at xx on the way. */
  method Divide(gf: Tables, c: array<Gf>, xx: Gf, b: array<Gf>) returns (t: Gf)
    requires gf.Ready() && gf.Outside({b}) && c.Length == b.Length > 0 && c != b
    modifies b
    ensures b[..] == Quotient(c[..] + [1], xx)
    ensures t == Eval(b[..], xx)
  {
    hide Add, Mul, Eval, Quotient, Tables.Ready, Tables.Times;
    var k := c.Length;
    ghost var master := c[..] + [1];
    t := 1;
    b[k - 1] := 1;
    QuotientTop(master, xx);
    assert b[k - 1..] == [1];
    EvalOne(xx);
    var i := k - 2;
    while i >= 0
      invariant -1 <= i <= k - 2
      invariant forall j :: i < j < k ==> b[j] == Quotient(master, xx)[j]
      invariant t == Eval(b[i + 1..], xx)
    {
      ghost var tail := b[i + 1..];
      b[i] := Add(c[i + 1], gf.Times(xx, b[i + 1]));
      QuotientStep(master, xx, i);
      assert b[i + 1..] == tail;
      t := Add(gf.Times(xx, t), b[i]);
      assert b[i..][0] == b[i] && b[i..][1..] == tail;
      EvalStep(b[i..], xx);
      i := i - 1;
    }
    assert b[0..] == b[..];
  }

  lemma EvalOne(x: Gf)
    ensures Eval([1], x) == 1
  {
    hide Add, Mul;
    assert [1 as Gf][1..] == [];
    MulZero(x);
    AddZero(1);
  }

  lemma EvalStep(c: Vec, x: Gf)
    requires |c| > 0
    ensures Eval(c, x) == Add(Mul(x, Eval(c[1..], x)), c[0])
  {
    hide Add, Mul;
    AddComm(c[0], Mul(x, Eval(c[1..], x)));
  }

  lemma QuotientTop(c: Vec, r: Gf)
    requires |c| >= 2 && c[|c| - 1] == 1
    ensures Quotient(c, r)[|c| - 2] == 1
  {
    hide Add, Mul, Eval, Quotient;
    QuotientAt(c, r, |c| - 2);
    assert c[|c| - 1..] == [1];
    EvalOne(r);
  }

  lemma QuotientStep(c: Vec, r: Gf, i: nat)
    requires i + 2 < |c|
    ensures Quotient(c, r)[i] == Add(c[i + 1], Mul(r, Quotient(c, r)[i + 1]))
  {
    hide Add, Mul, Quotient;
    QuotientAt(c, r, i);
    QuotientAt(c, r, i + 1);
    assert c[i + 1..][1..] == c[i + 2..];
  }

  /** Replace the top square of src, a Vandermonde matrix on different points, by its inverse, which works
      exactly for suitable points.  Only the second column is read. */
  method Invert(gf: Tables, src: array2<Gf>, ghost points: Vec)
    requires gf.Ready() && gf.Outside({src})
    requires 1 <= src.Length1 == |points| <= src.Length0 && NoRepeats(points)
    requires Rows(src)[..|points|] == Vandermonde(points, |points|)
    modifies src
    ensures IsInverse(old(Rows(src)[..|points|]), Rows(src)[..|points|], |points|) <==> Suitable(points)
    ensures Suitable(points) ==> Rows(src)[..|points|] == VandermondeInverse(points)
    ensures Rows(src)[|points|..] == old(Rows(src)[|points|..])
  {
    hide VandermondeInverse, Vandermonde, Master, IsInverse, Tables.Ready, Lagrange, Computed, Written;
    VandermondeInverseIsInverse(points);
    var k := src.Length1;
    if k == 1 {
      SinglePoint(points);
      return;
    }
    ghost var bottom := Rows(src)[k..];
    var p := ReadPoints(src, points);
    var c := MasterCoefficients(gf, p);
    WriteColumns(gf, src, p, c, points);
    ColumnsTell(Rows(src)[..k], points);
    if IsInverse(Vandermonde(points, k), Rows(src)[..k], k) {
      InverseIsUnique(Vandermonde(points, k), Rows(src)[..k], VandermondeInverse(points), k);
    }
    forall i | 0 <= i < |bottom| ensures Rows(src)[k..][i] == bottom[i] {
      forall j | 0 <= j < k ensures Rows(src)[k..][i][j] == bottom[i][j] {
        assert src[k + i, j] == old(src[k + i, j]);
      }
    }
  }

  lemma InverseAt(points: Vec, i: nat, j: nat)
    requires NoRepeats(points) && i < |points| && j < |points|
    ensures VandermondeInverse(points)[i][j] == Lagrange(points, j)[i]
  {
    hide Lagrange;
    assert VandermondeInverse(points)[i] == Column(Lagranges(points), i);
  }

  /** A matrix with the columns that are written is the inverse exactly for suitable points. */
  lemma ColumnsTell(m: Mat, points: Vec)
    requires NoRepeats(points) && |points| >= 2 && IsMat(m, |points|, |points|)
    requires forall i, j :: 0 <= i < |points| && 0 <= j < |points| ==>
      m[i][j] == Written(Computed(points, |points|), points[j])[i]
    ensures m == VandermondeInverse(points) <==> Suitable(points)
  {
    hide Lagrange, Computed, Written, VandermondeInverse, Suitable, NoRepeats;
    var k, w := |points|, VandermondeInverse(points);
    if Suitable(points) {
      forall i | 0 <= i < k ensures m[i] == w[i] {
        forall j | 0 <= j < k ensures m[i][j] == w[i][j] {
          InverseAt(points, i, j);
          WrittenIsLagrange(points, j);
        }
      }
    }
    if m == w {
      var c := Written(Computed(points, k), points[0]);
      forall i | 0 <= i < k ensures c[i] == Lagrange(points, 0)[i] {
        InverseAt(points, i, 0);
        assert m[i][0] == w[i][0];
      }
      assert c == Lagrange(points, 0);
      WrittenIsLagrange(points, 0);
    }
  }

  method ReadPoints(src: array2<Gf>, ghost points: Vec) returns (p: array<Gf>)
    requires 2 <= src.Length1 == |points| <= src.Length0
    requires Rows(src)[..|points|] == Vandermonde(points, |points|)
    ensures fresh(p) && p[..] == points
  {
    hide Vandermonde;
    var k := src.Length1;
    p := new Gf[k];
    for i := 0 to k
      invariant forall j :: 0 <= j < i ==> p[j] == points[j]
    {
      SecondColumn(points, i);
      assert Rows(src)[..k][i][1] == src[i, 1];
      p[i] := src[i, 1];
    }
  }

  method WriteColumns(gf: Tables, src: array2<Gf>, p: array<Gf>, c: array<Gf>, ghost points: Vec)
    requires gf.Ready() && gf.Outside({src}) && src.Length1 == |points| <= src.Length0
    requires p[..] == points && c.Length == |points| > 0 && c[..] + [1] == Computed(points, |points|)
    modifies src
    ensures forall i, j :: |points| <= i < src.Length0 && 0 <= j < src.Length1 ==> src[i, j] == old(src[i, j])
    ensures forall i, j :: 0 <= i < |points| && 0 <= j < |points| ==>
      src[i, j] == Written(Computed(points, |points|), points[j])[i]
  {
    hide Computed, Written, Quotient, Eval, Tables.Ready;
    var k := src.Length1;
    var b := new Gf[k];
    for row := 0 to k
      invariant forall i, j :: 0 <= i < k && 0 <= j < row ==>
        src[i, j] == Written(Computed(points, k), points[j])[i]
      invariant forall i, j :: k <= i < src.Length0 && 0 <= j < k ==> src[i, j] == old(src[i, j])
    {
      var t := Divide(gf, c, p[row], b);
      StoreColumn(gf, src, row, t, b, Computed(points, k), points[row]);
    }
  }

  method StoreColumn(gf: Tables, src: array2<Gf>, row: nat, t: Gf, b: array<Gf>, ghost c: Vec, ghost x: Gf)
    requires gf.Ready() && gf.Outside({src}) && row < src.Length1 <= src.Length0 && b.Length == src.Length1
    requires |c| == src.Length1 + 1 && b[..] == Quotient(c, x) && t == Eval(b[..], x)
    modifies src
    ensures forall i, j :: 0 <= i < src.Length0 && 0 <= j < src.Length1 && (j != row || i >= src.Length1) ==>
      src[i, j] == old(src[i, j])
    ensures forall i :: 0 <= i < src.Length1 ==> src[i, row] == Written(c, x)[i]
  {
    hide Eval, Mul, Inv, Quotient, Tables.Ready, Tables.Times, Tables.InverseOf;
    var k := src.Length1;
    for col := 0 to k
      invariant forall i, j :: 0 <= i < src.Length0 && 0 <= j < k && (j != row || i >= col) ==>
        src[i, j] == old(src[i, j])
      invariant forall i :: 0 <= i < col ==> src[i, row] == Mul(InverseEntry(t), b[i])
    {
      src[col, row] := gf.Times(gf.InverseOf(t), b[col]);
    }
    forall i | 0 <= i < k ensures src[i, row] == Written(c, x)[i] {
      assert b[i] == b[..][i];
    }
  }

  lemma SecondColumn(points: Vec, i: nat)
    requires |points| >= 2 && i < |points|
    ensures Vandermonde(points, |points|)[i][1] == points[i]
  {
    hide Mul;
    var x := points[i];
    assert Pow(x, 1) == Mul(x, Pow(x, 0));
    MulOne(x);
  }

  /** Inverting the matrix [1] needs no work. */
  lemma SinglePoint(points: Vec)
    requires |points| == 1
    ensures VandermondeInverse(points) == Vandermonde(points, 1)
  {
    hide Add, Mul, Inv, Quotient, Eval;
    CofactorLeads(points, 0);
    assert Cofactor(points, 0) == [1];
    EvalOne(points[0]);
    InvMul(1);
    MulOne(Inv(1));
    assert Lagrange(points, 0) == [1];
    assert Pow(points[0], 0) == 1;
    assert Vandermonde(points, 1)[0] == [1];
    assert VandermondeInverse(points)[0] == Column(Lagranges(points), 0) == [1];
  }
}
