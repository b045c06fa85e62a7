// Polynomials over GF(2^8), lowest coefficient first, and the Vandermonde matrices built from them.

module Polynomials {
  import opened Basics
  import opened GaloisField
  import opened LinearAlgebra

  /** Horner evaluation. */
  function Eval(c: Vec, x: Gf): Gf
  {
    if |c| == 0 then 0 else Add(c[0], Mul(x, Eval(c[1..], x)))
  }

  function Pow(x: Gf, n: nat): Gf
  {
    if n == 0 then 1 else Mul(x, Pow(x, n - 1))
  }

  /** 1, x, x^2, ...: a row of a Vandermonde matrix. */
  function PowerRow(x: Gf, k: nat): (r: Vec)
    ensures |r| == k && forall j :: 0 <= j < k ==> r[j] == Pow(x, j)
  {
    seq(k, j requires 0 <= j < k => Pow(x, j))
  }

  function Vandermonde(points: Vec, k: nat): (m: Mat)
    ensures IsMat(m, |points|, k) && forall i :: 0 <= i < |points| ==> m[i] == PowerRow(points[i], k)
  {
    seq(|points|, i requires 0 <= i < |points| => PowerRow(points[i], k))
  }

  lemma {:induction false} EvalAppend(c: Vec, v: Gf, x: Gf)
    ensures Eval(c + [v], x) == Add(Eval(c, x), Mul(v, Pow(x, |c|)))
  {
    hide Add, Mul;
    if |c| == 0 {
      assert Eval([v], x) == Add(v, Mul(x, Eval([], x))) by { assert [v][1..] == []; }
      assert (c + [v]) == [v];
      MulZero(x);
      MulOne(v);
      AddZero(v);
    } else {
      assert (c + [v])[1..] == c[1..] + [v];
      EvalAppend(c[1..], v, x);
      var e, p := Eval(c[1..], x), Pow(x, |c| - 1);
      Distribute(x, e, Mul(v, p));
      MulAssoc(x, v, p);
      MulComm(x, v);
      MulAssoc(v, x, p);
      AddAssoc(c[0], Mul(x, e), Mul(v, Pow(x, |c|)));
    }
  }

  /** A Vandermonde row applied to coefficients evaluates the polynomial. */
  lemma {:induction false} DotPowers(c: Vec, x: Gf, n: nat)
    requires n <= |c|
    ensures DotTo(PowerRow(x, |c|), c, n) == Eval(c[..n], x)
  {
    hide Add, Mul, PowerRow, Pow;
    if n > 0 {
      DotPowers(c, x, n - 1);
      assert c[..n] == c[..n - 1] + [c[n - 1]];
      EvalAppend(c[..n - 1], c[n - 1], x);
      MulComm(Pow(x, n - 1), c[n - 1]);
    }
  }

  lemma ApplyVandermonde(points: Vec, c: Vec)
    ensures forall i :: 0 <= i < |points| ==> Apply(Vandermonde(points, |c|), c)[i] == Eval(c, points[i])
  {
    hide Add, Mul, Eval, DotTo, Vandermonde;
    assert c[..|c|] == c;
    forall i | 0 <= i < |points| ensures Apply(Vandermonde(points, |c|), c)[i] == Eval(c, points[i]) {
      DotPowers(c, points[i], |c|);
    }
  }

  /* ---------------------------------------------------------------- division by a linear factor */

  /** Synthetic division by (x - r): coefficient i of the quotient is the value at r of the
      coefficients above i. */
  function Quotient(c: Vec, r: Gf): (q: Vec)
    requires |c| > 0
    ensures |q| == |c| - 1
  {
    if |c| == 1 then [] else [Eval(c[1..], r)] + Quotient(c[1..], r)
  }

  lemma {:induction false} QuotientAt(c: Vec, r: Gf, i: nat)
    requires i + 1 < |c|
    ensures Quotient(c, r)[i] == Eval(c[i + 1..], r)
  {
    hide Eval;
    if i > 0 {
      QuotientAt(c[1..], r, i - 1);
      assert c[1..][i..] == c[i + 1..];
    }
  }

  /** c(x) - c(r) == (x - r) * q(x) */
  lemma {:induction false} QuotientRemainder(c: Vec, r: Gf, x: Gf)
    requires |c| > 0
    ensures Add(Eval(c, x), Eval(c, r)) == Mul(Add(x, r), Eval(Quotient(c, r), x))
  {
    hide Add, Mul;
    if |c| == 1 {
      assert Eval(c[1..], x) == 0 && Eval(c[1..], r) == 0;
      MulZero(x);
      MulZero(r);
      MulZero(Add(x, r));
      AddSelf(Add(c[0], 0));
    } else {
      var t := c[1..];
      QuotientRemainder(t, r, x);
      var q, ex, er, d := Eval(Quotient(t, r), x), Eval(t, x), Eval(t, r), Add(x, r);
      assert Quotient(c, r)[1..] == Quotient(t, r);
      assert Eval(Quotient(c, r), x) == Add(er, Mul(x, q));
      RemainderStep(c[0], x, r, ex, er, q);
    }
  }

  lemma RemainderStep(c: Gf, x: Gf, r: Gf, ex: Gf, er: Gf, q: Gf)
    requires Add(ex, er) == Mul(Add(x, r), q)
    ensures Add(Add(c, Mul(x, ex)), Add(c, Mul(r, er))) == Mul(Add(x, r), Add(er, Mul(x, q)))
  {
    hide *;
    var d := Add(x, r);
    // left == x * ex + r * er
    AddExchange(c, Mul(x, ex), c, Mul(r, er));
    AddSelf(c);
    AddZero(Add(Mul(x, ex), Mul(r, er)));
    // right == d * er + x * (ex + er)
    Distribute(d, er, Mul(x, q));
    MulAssoc(d, x, q);
    MulComm(d, x);
    MulAssoc(x, d, q);
    Distribute(x, ex, er);
    Distribute(er, x, r);
    // x * er cancels
    var a, b, e := Mul(x, ex), Mul(x, er), Mul(r, er);
    AddExchange(b, e, a, b);
    AddComm(e, b);
    AddExchange(b, a, b, e);
    AddSelf(b);
    AddZero(Add(a, e));
    AddComm(a, b);
    AddComm(Add(b, a), Add(b, e));
    AddExchange(a, b, b, e);
  }

  lemma {:induction false} QuotientZero(c: Vec, r: Gf)
    requires |c| > 0 && Eval(c, r) == 0 && Quotient(c, r) == Zeros(|c| - 1)
    ensures c == Zeros(|c|)
  {
    hide Add, Mul, Zeros;
    assert c == [c[0]] + c[1..];
    if |c| == 1 {
      assert Eval(c[1..], r) == 0;
    } else {
      assert Eval(c[1..], r) == Quotient(c, r)[0] == 0;
      assert Quotient(c[1..], r) == Quotient(c, r)[1..] == Zeros(|c| - 2);
      QuotientZero(c[1..], r);
    }
    MulZero(r);
    AddZero(c[0]);
    assert c[0] == 0;
  }

  /** A polynomial with as many different roots as coefficients is the zero polynomial. */
  lemma {:induction false} RootsForceZero(c: Vec, roots: Vec)
    requires |roots| >= |c| && NoRepeats(roots)
    requires forall i :: 0 <= i < |roots| ==> Eval(c, roots[i]) == 0
    ensures c == Zeros(|c|)
    decreases |c|
  {
    hide Add, Mul, Eval, Zeros;
    if |c| > 0 {
      var r, rest := roots[0], roots[1..];
      var q := Quotient(c, r);
      forall i | 0 <= i < |rest| ensures Eval(q, rest[i]) == 0 {
        var x := rest[i];
        assert x == roots[i + 1] && x != r;
        QuotientRemainder(c, r, x);
        AddZero(0);
        AddEqualIffZero(x, r);
        if Eval(q, x) != 0 {
          MulNonZero(Add(x, r), Eval(q, x));
          assert false;
        }
      }
      RootsForceZero(q, rest);
      QuotientZero(c, r);
    } else {
      assert c == Zeros(0);
    }
  }

  /* ---------------------------------------------------------------- products of linear factors */

  /** Coefficient j, zero outside the sequence. */
  function Coef(c: Vec, j: int): Gf
  {
    if 0 <= j < |c| then c[j] else 0
  }

  /** (x - r) * c(x) */
  function TimesLinear(c: Vec, r: Gf): (d: Vec)
    ensures |d| == |c| + 1
    ensures forall j :: 0 <= j <= |c| ==> d[j] == Add(Coef(c, j - 1), Mul(r, Coef(c, j)))
  {
    seq(|c| + 1, j requires 0 <= j <= |c| => Add(Coef(c, j - 1), Mul(r, Coef(c, j))))
  }

  lemma TimesLinearAt(c: Vec, r: Gf, j: nat)
    requires j <= |c|
    ensures TimesLinear(c, r)[j] == Add(Coef(c, j - 1), Mul(r, Coef(c, j)))
  {
    hide Add, Mul, Coef;
  }

  lemma EvalTimesLinear(c: Vec, r: Gf, x: Gf)
    ensures Eval(TimesLinear(c, r), x) == Mul(Add(x, r), Eval(c, x))
  {
    hide Add, Mul, Eval, TimesLinear, Scale;
    var shifted, scaled := [0 as Gf] + c, Scale(r, c) + [0];
    MulZero(r);
    forall j | 0 <= j <= |c| ensures TimesLinear(c, r)[j] == AddMul(shifted, scaled, 1)[j] {
      MulOne(scaled[j]);
      TimesLinearAt(c, r, j);
      assert shifted[j] == Coef(c, j - 1);
      assert scaled[j] == Mul(r, Coef(c, j));
    }
    assert TimesLinear(c, r) == AddMul(shifted, scaled, 1);
    EvalAddMul(shifted, scaled, 1, x);
    EvalShift(c, x);
    EvalAppend(Scale(r, c), 0, x);
    MulZero(Pow(x, |c|));
    AddZero(Eval(Scale(r, c), x));
    EvalScale(r, c, x);
    MulOne(Mul(r, Eval(c, x)));
    Distribute(Eval(c, x), x, r);
  }

  lemma EvalShift(c: Vec, x: Gf)
    ensures Eval([0 as Gf] + c, x) == Mul(x, Eval(c, x))
  {
    hide Add, Mul;
    assert ([0 as Gf] + c)[1..] == c;
    AddZero(Mul(x, Eval(c, x)));
  }

  lemma {:induction false} EvalScale(r: Gf, c: Vec, x: Gf)
    ensures Eval(Scale(r, c), x) == Mul(r, Eval(c, x))
  {
    hide Add, Mul, Scale;
    if |c| == 0 {
      MulZero(r);
    } else {
      assert Scale(r, c)[1..] == Scale(r, c[1..]);
      EvalScale(r, c[1..], x);
      var e := Eval(c[1..], x);
      Distribute(r, c[0], Mul(x, e));
      MulAssoc(r, x, e);
      MulComm(r, x);
      MulAssoc(x, r, e);
    }
  }

  lemma {:induction false} EvalAddMul(a: Vec, b: Vec, s: Gf, x: Gf)
    requires |a| == |b|
    ensures Eval(AddMul(a, b, s), x) == Add(Eval(a, x), Mul(s, Eval(b, x)))
  {
    hide Add, Mul, AddMul;
    if |a| == 0 {
      MulZero(s);
      AddZero(0);
    } else {
      assert AddMul(a, b, s)[1..] == AddMul(a[1..], b[1..], s);
      EvalAddMul(a[1..], b[1..], s, x);
      var ea, eb := Eval(a[1..], x), Eval(b[1..], x);
      Distribute(x, ea, Mul(s, eb));
      MulAssoc(x, s, eb);
      MulComm(x, s);
      MulAssoc(s, x, eb);
      Distribute(s, b[0], Mul(x, eb));
      AddExchange(a[0], Mul(s, b[0]), Mul(x, ea), Mul(s, Mul(x, eb)));
    }
  }
}
