// fec_new, fec_encode and fec_encode_linear of lib/libfec.c.  Packet buffers that are only read are
// values here.

module Fec {
  import opened Basics
  import opened GaloisField
  import opened LinearAlgebra
  import opened GaussJordan
  import opened Polynomials
  import opened FecCode
  import opened GaloisTables
  import Inversion = InvertMat
  import Vdm = InvertVdm

  /** struct fec_parms */
  class Code {
    const k: nat
    const n: nat
    const encMatrix: array2<Gf>
    /** The tables of the field, which all codes share in the source. */
    const gf: Tables

    ghost predicate Shape()
    {
      1 <= k <= n <= 256 && encMatrix.Length0 == n && encMatrix.Length1 == k
    }

    /** The tables are filled, and the matrix in memory is the systematic generator matrix. */
    ghost predicate Valid()
      reads encMatrix, gf.gfExp, gf.gfLog, gf.inverse, gf.gfMul
    {
      && Shape() && gf.Ready() && gf.Outside({encMatrix})
      && forall i :: 0 <= i < n ==> Inversion.Rows(encMatrix)[i] == EncRow(k, i)
    }

    /** The buffers that a caller passes are its own. */
    ghost predicate Outside(s: set<object>)
    {
      encMatrix !in s && gf.Outside(s)
    }

    constructor (k: nat, n: nat, gf: Tables)
      requires 1 <= k <= n <= 256
      ensures this.k == k && this.n == n && this.gf == gf && Shape() && fresh(encMatrix)
    {
      this.k := k;
      this.n := n;
      this.gf := gf;
      encMatrix := new Gf[n, k];
    }
  }

  /* ---------------------------------------------------------------- fec_new */

  /** Rows of powers of the evaluation points; the first row is special. */
  method FillVandermonde(gf: Tables, tmp: array2<Gf>, k: nat, n: nat)
    requires gf.Ready() && gf.Outside({tmp})
    requires 1 <= k <= n <= 256 && tmp.Length0 == n && tmp.Length1 == k
    modifies tmp
    ensures forall i :: 0 <= i < n ==> Inversion.Rows(tmp)[i] == PowerRow(Point(i), k)
  {
    hide Exp, Pow, Mul, Tables.Ready, Tables.Power;
    tmp[0, 0] := 1;
    for col := 1 to k
      invariant tmp[0, 0] == 1 && forall j :: 1 <= j < col ==> tmp[0, j] == 0
    {
      tmp[0, col] := 0;
    }
    for row := 0 to n - 1
      invariant tmp[0, 0] == 1 && forall j :: 1 <= j < k ==> tmp[0, j] == 0
      invariant forall i, j :: 0 <= i < row && 0 <= j < k ==> tmp[i + 1, j] == Pow(Exp(i), j)
    {
      for col := 0 to k
        invariant tmp[0, 0] == 1 && forall j :: 1 <= j < k ==> tmp[0, j] == 0
        invariant forall i, j :: 0 <= i < row && 0 <= j < k ==> tmp[i + 1, j] == Pow(Exp(i), j)
        invariant forall j :: 0 <= j < col ==> tmp[row + 1, j] == Pow(Exp(row), j)
      {
        PowExp(row, col);
        ExpModulo(row * col);
        var e := ModNN(row * col);
        tmp[row + 1, col] := gf.Power(e);
      }
    }
    forall i | 0 <= i < n ensures Inversion.Rows(tmp)[i] == PowerRow(Point(i), k) {
      forall j | 0 <= j < k ensures tmp[i, j] == Pow(Point(i), j) {
        if i == 0 {
          PowZero(j);
        } else {
          assert tmp[(i - 1) + 1, j] == Pow(Exp(i - 1), j);
        }
      }
    }
  }

  lemma PowZero(j: nat)
    ensures Pow(0, j) == if j == 0 then 1 else 0
  {
    hide Mul;
    if j > 0 {
      MulZero(Pow(0, j - 1));
    }
  }

  /** The rows below the first k, multiplied by the square matrix that now fills the first k. */
  method MatMul(gf: Tables, tmp: array2<Gf>, enc: array2<Gf>, k: nat, n: nat)
    requires gf.Ready() && gf.Outside({tmp, enc})
    requires 1 <= k <= n && tmp.Length0 == enc.Length0 == n && tmp.Length1 == enc.Length1 == k && tmp != enc
    modifies enc
    ensures forall i :: k <= i < n ==>
      Inversion.Rows(enc)[i] == Combine(Inversion.Rows(tmp)[i], Inversion.Rows(tmp)[..k], k, k)
  {
    hide Add, Mul, Combine, Column, DotTo, Tables.Ready;
    ghost var rows := Inversion.Rows(tmp);
    ghost var top := rows[..k];
    for row := 0 to n - k
      invariant forall i, j :: k <= i < k + row && 0 <= j < k ==> enc[i, j] == Dot(rows[i], Column(top, j))
    {
      for col := 0 to k
        invariant forall i, j :: k <= i < k + row && 0 <= j < k ==> enc[i, j] == Dot(rows[i], Column(top, j))
        invariant forall j :: 0 <= j < col ==> enc[k + row, j] == Dot(rows[k + row], Column(top, j))
      {
        enc[k + row, col] := DotRow(gf, tmp, k + row, col);
      }
    }
    forall i | k <= i < n ensures Inversion.Rows(enc)[i] == Combine(rows[i], top, k, k) {
      forall j | 0 <= j < k ensures enc[i, j] == Combine(rows[i], top, k, k)[j] {
        CombineAt(rows[i], top, k, k, j);
      }
    }
  }

  method DotRow(gf: Tables, tmp: array2<Gf>, row: nat, col: nat) returns (acc: Gf)
    requires gf.Ready()
    requires row < tmp.Length0 && col < tmp.Length1 <= tmp.Length0
    ensures acc == Dot(Inversion.Rows(tmp)[row], Column(Inversion.Rows(tmp)[..tmp.Length1], col))
  {
    hide Add, Mul, Tables.Ready, Tables.Times;
    var k := tmp.Length1;
    ghost var a, b := Inversion.Rows(tmp)[row], Column(Inversion.Rows(tmp)[..k], col);
    acc := 0;
    for i := 0 to k
      invariant acc == DotTo(a, b, i)
    {
      acc := Add(acc, gf.Times(tmp[row, i], tmp[i, col]));
    }
  }

  /** A new code, or nothing when the parameters do not fit the field. The tables are made for it. */
  method FecNew(k: int, n: int) returns (code: Code?)
    requires k >= 1
    ensures code == null <==> k > 256 || n > 256 || k > n
    ensures code != null ==> fresh(code) && code.k == k && code.n == n && code.Valid()
  {
    if k > 256 || n > 256 || k > n {
      return null;
    }
    var gf := new Tables();
    gf.Init();
    var c := new Code(k, n, gf);
    var tmp := new Gf[n, k];
    BuildMatrix(c, tmp);
    code := c;
  }

  method BuildMatrix(code: Code, tmp: array2<Gf>)
    requires code.gf.Ready() && code.gf.Outside({tmp, code.encMatrix})
    requires code.Shape() && tmp.Length0 == code.n && tmp.Length1 == code.k && tmp != code.encMatrix
    modifies tmp, code.encMatrix
    ensures code.Valid()
  {
    hide Inversion.Rows, PowerRow, Point, Points, Combine, Vdm.VandermondeInverse, IsInverse, Unit, EncRow;
    hide Tables.Ready;
    var k, n := code.k, code.n;
    FillVandermonde(code.gf, tmp, k, n);
    PointsDistinct(k);
    ghost var points := Points(k);
    ghost var before := Inversion.Rows(tmp);
    PointsStartAtZero(k);
    assert before[..k] == Vandermonde(points, k);
    Vdm.Invert(code.gf, tmp, points);
    ghost var rows := Inversion.Rows(tmp);
    forall i | k <= i < n ensures rows[i] == before[i] {
      assert rows[k..][i - k] == before[k..][i - k];
    }
    MatMul(code.gf, tmp, code.encMatrix, k, n);
    ClearTop(code.encMatrix, k);
    forall i | 0 <= i < n ensures Inversion.Rows(code.encMatrix)[i] == EncRow(k, i) {
      EncRowShape(k, i);
    }
  }

  lemma PointsStartAtZero(k: nat)
    requires k >= 1
    ensures Points(k)[0] == 0
  {
  }

  lemma EncRowShape(k: nat, i: nat)
    requires k <= 256 && NoRepeats(Points(k))
    ensures EncRow(k, i) ==
      if i < k then Unit(k, i) else Combine(PowerRow(Point(i), k), Vdm.VandermondeInverse(Points(k)), k, k)
  {
  }

  /** The upper square becomes the identity. */
  method ClearTop(enc: array2<Gf>, k: nat)
    requires k == enc.Length1 <= enc.Length0
    modifies enc
    ensures forall i :: 0 <= i < k ==> Inversion.Rows(enc)[i] == Unit(k, i)
    ensures forall i :: k <= i < enc.Length0 ==> Inversion.Rows(enc)[i] == old(Inversion.Rows(enc)[i])
  {
    forall i, j | 0 <= i < k && 0 <= j < k {
      enc[i, j] := 0;
    }
    for col := 0 to k
      invariant forall i, j :: 0 <= i < k && 0 <= j < k ==> enc[i, j] == if i == j && i < col then 1 else 0
      invariant forall i, j :: k <= i < enc.Length0 && 0 <= j < k ==> enc[i, j] == old(enc[i, j])
    {
      enc[col, col] := 1;
    }
    forall i | k <= i < enc.Length0 ensures Inversion.Rows(enc)[i] == old(Inversion.Rows(enc)[i]) {
      forall j | 0 <= j < k ensures Inversion.Rows(enc)[i][j] == old(Inversion.Rows(enc)[i])[j] {
        assert enc[i, j] == old(enc[i, j]);
      }
    }
  }

  /* ---------------------------------------------------------------- fec_encode */

  /** dst += c * src: sixteen symbols at a time, then the rest. */
  method AddMul1(gf: Tables, dst: array<Gf>, src: Vec, c: Gf)
    requires gf.Ready() && gf.Outside({dst})
    requires dst.Length == |src|
    modifies dst
    ensures dst[..] == AddMul(old(dst[..]), src, c)
  {
    hide Add, Mul, Tables.Ready, Tables.Times;
    var sz, pos := dst.Length, 0;
    while pos < sz - 15
      invariant 0 <= pos <= sz
      invariant forall i :: 0 <= i < pos ==> dst[i] == Add(old(dst[i]), Mul(c, src[i]))
      invariant forall i :: pos <= i < sz ==> dst[i] == old(dst[i])
    {
      for u := 0 to 16
        invariant forall i :: 0 <= i < pos + u ==> dst[i] == Add(old(dst[i]), Mul(c, src[i]))
        invariant forall i :: pos + u <= i < sz ==> dst[i] == old(dst[i])
      {
        dst[pos + u] := Add(dst[pos + u], gf.Times(c, src[pos + u]));
      }
      pos := pos + 16;
    }
    while pos < sz
      invariant 0 <= pos <= sz
      invariant forall i :: 0 <= i < pos ==> dst[i] == Add(old(dst[i]), Mul(c, src[i]))
      invariant forall i :: pos <= i < sz ==> dst[i] == old(dst[i])
    {
      dst[pos] := Add(dst[pos], gf.Times(c, src[pos]));
      pos := pos + 1;
    }
  }

  /** The loop shared by encoder and decoder: clear a buffer, then add scaled packets to it. */
  method Accumulate(gf: Tables, dst: array<Gf>, m: array2<Gf>, row: nat, packets: Mat, k: nat)
    requires gf.Ready() && gf.Outside({dst})
    requires row < m.Length0 && m.Length1 == k == |packets| && IsMat(packets, k, dst.Length)
    modifies dst
    ensures dst[..] == Combine(Inversion.Rows(m)[row], packets, k, dst.Length)
  {
    hide Add, Mul, AddMul, Tables.Ready;
    forall i | 0 <= i < dst.Length {
      dst[i] := 0;
    }
    ghost var coefs := Inversion.Rows(m)[row];
    assert dst[..] == Zeros(dst.Length);
    for i := 0 to k
      invariant dst[..] == Combine(coefs, packets, i, dst.Length)
    {
      if m[row, i] != 0 {
        AddMul1(gf, dst, packets[i], m[row, i]);
      } else {
        Inversion.AddMulZero(dst[..], packets[i]);
      }
    }
  }

  /** Packet number index of the source, written to fec; an index out of range writes nothing. Its symbols are
      the values, at 0 or at a power of 2, of the polynomials through the source symbols. */
  method FecEncode(code: Code, src: Mat, fec: array<Gf>, index: nat)
    requires code.Valid() && code.Outside({fec}) && IsMat(src, code.k, fec.Length)
    modifies fec
    ensures index < code.n ==> fec[..] == Encoded(code.k, src, index, fec.Length)
    ensures index < code.n ==> forall f, s :: 0 <= s < fec.Length && Through(f, code.k, src, s) ==>
      fec[s] == Eval(f, if index == 0 then 0 else Exp(index - 1))
    ensures index >= code.n ==> fec[..] == old(fec[..])
  {
    EncodeInto(code, src, fec, index);
    if index < code.n {
      IsPolynomial(code.k, src, fec[..], index);
    }
  }

  lemma IsPolynomial(k: nat, src: Mat, p: Vec, index: nat)
    requires k <= 256 && IsMat(src, k, |p|) && p == Encoded(k, src, index, |p|)
    ensures forall f, s :: 0 <= s < |p| && Through(f, k, src, s) ==>
      p[s] == Eval(f, if index == 0 then 0 else Exp(index - 1))
  {
    hide Encoded, Through, Eval, Exp;
    forall f, s | 0 <= s < |p| && Through(f, k, src, s)
      ensures p[s] == Eval(f, if index == 0 then 0 else Exp(index - 1))
    {
      PacketIsPolynomial(k, src, |p|, f, s, if index == 0 then 0 else index - 1);
    }
  }

  method EncodeInto(code: Code, src: Mat, fec: array<Gf>, index: nat)
    requires code.Valid() && code.Outside({fec}) && IsMat(src, code.k, fec.Length)
    modifies fec
    ensures index < code.n ==> fec[..] == Encoded(code.k, src, index, fec.Length)
    ensures index >= code.n ==> fec[..] == old(fec[..])
  {
    hide Combine, EncRow, Tables.Ready;
    if index < code.k {
      forall i | 0 <= i < fec.Length {
        fec[i] := src[index][i];
      }
      SourcePacket(code.k, src, index, fec.Length);
      assert fec[..] == src[index];
    } else if index < code.n {
      Accumulate(code.gf, fec, code.encMatrix, index, src, code.k);
    }
  }

  /** The code is systematic: the first k packets are the source itself. */
  lemma SourcePacket(k: nat, src: Mat, i: nat, width: nat)
    requires i < k <= 256 && IsMat(src, k, width)
    ensures Encoded(k, src, i, width) == src[i]
  {
    hide Encoded, Column, Dot;
    forall s | 0 <= s < width ensures Encoded(k, src, i, width)[s] == src[i][s] {
      EncodedAt(k, src, i, width, s);
      DotUnit(i, Column(src, s));
    }
  }

  /** The k consecutive packets of one buffer. */
  function PacketsOf(src: Vec, k: nat, width: nat): (m: Mat)
    requires |src| == k * width
    ensures IsMat(m, k, width)
    decreases k
  {
    if k == 0 then [] else
      assert |src| == (k - 1) * width + width;
      PacketsOf(src[..(k - 1) * width], k - 1, width) + [src[(k - 1) * width..]]
  }

  /** fec_encode_linear: the same packet, from a source stored in one buffer. */
  method FecEncodeLinear(code: Code, src: Vec, fec: array<Gf>, index: nat)
    requires code.Valid() && code.Outside({fec}) && |src| == code.k * fec.Length
    modifies fec
    ensures index < code.n ==> fec[..] == Encoded(code.k, PacketsOf(src, code.k, fec.Length), index, fec.Length)
    ensures index >= code.n ==> fec[..] == old(fec[..])
  {
    hide Combine, EncRow, AddMul, Tables.Ready;
    var k, sz := code.k, fec.Length;
    ghost var packets := PacketsOf(src, k, sz);
    if index < k {
      PacketAt(src, k, sz, index);
      forall i | 0 <= i < sz {
        fec[i] := src[index * sz + i];
      }
      SourcePacket(k, packets, index, sz);
      assert fec[..] == packets[index];
    } else if index < code.n {
      AccumulateLinear(code.gf, fec, code.encMatrix, index, src, k);
    }
  }

  method AccumulateLinear(gf: Tables, dst: array<Gf>, m: array2<Gf>, row: nat, src: Vec, k: nat)
    requires gf.Ready() && gf.Outside({dst})
    requires row < m.Length0 && m.Length1 == k && |src| == k * dst.Length
    modifies dst
    ensures dst[..] == Combine(Inversion.Rows(m)[row], PacketsOf(src, k, dst.Length), k, dst.Length)
  {
    hide Add, Mul, AddMul, PacketsOf, Tables.Ready;
    var sz := dst.Length;
    forall i | 0 <= i < sz {
      dst[i] := 0;
    }
    ghost var coefs, packets := Inversion.Rows(m)[row], PacketsOf(src, k, sz);
    assert dst[..] == Zeros(sz);
    for i := 0 to k
      invariant dst[..] == Combine(coefs, packets, i, sz)
    {
      PacketAt(src, k, sz, i);
      if m[row, i] != 0 {
        AddMul1(gf, dst, src[i * sz..i * sz + sz], m[row, i]);
      } else {
        Inversion.AddMulZero(dst[..], packets[i]);
      }
    }
  }

  lemma {:induction false} PacketAt(src: Vec, k: nat, width: nat, i: nat)
    requires |src| == k * width && i < k
    ensures 0 <= i * width && i * width + width <= |src|
    ensures PacketsOf(src, k, width)[i] == src[i * width..i * width + width]
    decreases k
  {
    assert k * width == (k - 1) * width + width;
    var cut := (k - 1) * width;
    assert PacketsOf(src, k, width) == PacketsOf(src[..cut], k - 1, width) + [src[cut..]];
    if i < k - 1 {
      PacketAt(src[..cut], k - 1, width, i);
      hide PacketsOf;
      SamePart(src, cut, i * width, width);
    } else {
      assert i * width == cut;
      hide PacketsOf;
      assert src[cut..] == src[cut..cut + width];
    }
  }

  lemma SamePart(src: Vec, cut: nat, a: nat, width: nat)
    requires a + width <= cut <= |src|
    ensures src[..cut][a..a + width] == src[a..a + width]
  {
  }
}
