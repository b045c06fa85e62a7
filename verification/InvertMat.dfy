// invert_mat of lib/libfec.c as it runs: row and column exchanges, scaling and elimination written
// back into the same matrix.

module InvertMat {
  import opened GaloisField
  import opened LinearAlgebra
  import opened GaussJordan
  import opened GaloisTables

  /** The contents of a matrix in memory. */
  ghost function Rows(a: array2<Gf>): (m: Mat)
    reads a
    ensures IsMat(m, a.Length0, a.Length1)
    ensures forall i, j :: 0 <= i < a.Length0 && 0 <= j < a.Length1 ==> m[i][j] == a[i, j]
  {
    seq(a.Length0, i requires 0 <= i < a.Length0 reads a =>
      seq(a.Length1, j requires 0 <= j < a.Length1 reads a => a[i, j]))
  }

  lemma RowsAre(a: array2<Gf>, m: Mat)
    requires IsMat(m, a.Length0, a.Length1)
    requires forall i, j :: 0 <= i < a.Length0 && 0 <= j < a.Length1 ==> m[i][j] == a[i, j]
    ensures Rows(a) == m
  {
    hide Rows;
    forall i | 0 <= i < a.Length0 ensures Rows(a)[i] == m[i] {
    }
  }

  method SwapRows(src: array2<Gf>, r: nat, c: nat)
    requires src.Length0 == src.Length1 && r < src.Length0 && c < src.Length0 && r != c
    modifies src
    ensures Rows(src) == Swapped(old(Rows(src)), r, c)
  {
    var k := src.Length0;
    for ix := 0 to k
      invariant forall i, j :: 0 <= i < k && 0 <= j < k && ((i != r && i != c) || j >= ix) ==>
        src[i, j] == old(src[i, j])
      invariant forall j :: 0 <= j < ix ==> src[r, j] == old(src[c, j]) && src[c, j] == old(src[r, j])
    {
      src[r, ix], src[c, ix] := src[c, ix], src[r, ix];
    }
    RowsAre(src, Swapped(old(Rows(src)), r, c));
  }

  method SwapColumns(src: array2<Gf>, r: nat, c: nat)
    requires src.Length0 == src.Length1 && r < src.Length0 && c < src.Length0 && r != c
    modifies src
    ensures Rows(src) == ColumnsSwapped(old(Rows(src)), r, c)
  {
    var k := src.Length0;
    for row := 0 to k
      invariant forall i, j :: 0 <= i < k && 0 <= j < k && ((j != r && j != c) || i >= row) ==>
        src[i, j] == old(src[i, j])
      invariant forall i :: 0 <= i < row ==> src[i, r] == old(src[i, c]) && src[i, c] == old(src[i, r])
    {
      src[row, r], src[row, c] := src[row, c], src[row, r];
    }
    RowsAre(src, ColumnsSwapped(old(Rows(src)), r, c));
  }

  /** Divide the pivot row by the pivot, leaving the inverse of the pivot in its place. */
  method ScalePivotRow(gf: Tables, src: array2<Gf>, p: nat)
    requires gf.Ready() && gf.Outside({src})
    requires src.Length0 == src.Length1 && p < src.Length0 && src[p, p] != 0
    modifies src
    ensures Rows(src) == old(Rows(src))[p := PivotRow(old(Rows(src)), p)]
  {
    hide Add, Mul, Inv, Tables.Ready, Tables.Times, Tables.InverseOf;
    var k, c := src.Length0, src[p, p];
    ghost var m := Rows(src);
    if c != 1 {
      c := gf.InverseOf(c);
      src[p, p] := 1;
      for ix := 0 to k
        invariant forall i, j :: 0 <= i < k && 0 <= j < k && i != p ==> src[i, j] == m[i][j]
        invariant forall j :: 0 <= j < ix ==> src[p, j] == Mul(c, m[p][p := 1][j])
        invariant forall j :: ix <= j < k ==> src[p, j] == m[p][p := 1][j]
      {
        src[p, ix] := gf.Times(c, src[p, ix]);
      }
    } else {
      UnitPivotRow(m, p);
    }
    RowsAre(src, m[p := PivotRow(m, p)]);
  }

  lemma UnitPivotRow(m: Mat, p: nat)
    requires IsMat(m, |m|, |m|) && p < |m| && m[p][p] == 1
    ensures PivotRow(m, p) == m[p]
  {
    hide Add, Mul, Inv;
    InvMul(1);
    MulOne(Inv(1));
    forall j | 0 <= j < |m| ensures Mul(Inv(1), m[p][j]) == m[p][j] {
      MulOne(m[p][j]);
    }
    assert m[p][p := 1] == m[p];
  }

  /** dst + c * pivot row, the row operation behind addmul, with the test for c == 0. */
  method AddMulRow(gf: Tables, src: array2<Gf>, dst: nat, p: nat, c: Gf)
    requires gf.Ready() && gf.Outside({src})
    requires src.Length0 == src.Length1 && p < src.Length0 && dst < src.Length0 && dst != p
    modifies src
    ensures Rows(src) == old(Rows(src))[dst := AddMul(old(Rows(src))[dst], old(Rows(src))[p], c)]
  {
    hide Add, Mul, Tables.Ready, Tables.Times;
    var k := src.Length0;
    ghost var m := Rows(src);
    if c != 0 {
      for j := 0 to k
        invariant forall i, l :: 0 <= i < k && 0 <= l < k && (i != dst || l >= j) ==> src[i, l] == m[i][l]
        invariant forall l :: 0 <= l < j ==> src[dst, l] == Add(m[dst][l], Mul(c, m[p][l]))
      {
        src[dst, j] := Add(src[dst, j], gf.Times(c, src[p, j]));
      }
    } else {
      AddMulZero(m[dst], m[p]);
    }
    RowsAre(src, m[dst := AddMul(m[dst], m[p], c)]);
  }

  lemma AddMulZero(a: Vec, b: Vec)
    requires |a| == |b|
    ensures AddMul(a, b, 0) == a
  {
    hide Add, Mul;
    forall i | 0 <= i < |a| ensures Add(a[i], Mul(0, b[i])) == a[i] {
      MulZero(b[i]);
      AddZero(a[i]);
    }
  }

  /** From every other row, remove the multiple of the pivot row that clears the pivot column. */
  method ClearColumn(gf: Tables, src: array2<Gf>, p: nat, ghost m: Mat)
    requires gf.Ready() && gf.Outside({src})
    requires src.Length0 == src.Length1 && p < src.Length0
    requires IsMat(m, src.Length0, src.Length0) && m[p][p] != 0
    requires Rows(src) == m[p := PivotRow(m, p)]
    modifies src
    ensures Rows(src) == Pivoted(m, p)
  {
    hide Add, Mul, Inv, PivotRow, AddMul, Rows, Tables.Ready;
    var k := src.Length0;
    for ix := 0 to k
      invariant Rows(src)[p] == PivotRow(m, p)
      invariant forall i :: 0 <= i < ix ==> Rows(src)[i] == Pivoted(m, p)[i]
      invariant forall i :: ix <= i < k && i != p ==> Rows(src)[i] == m[i]
    {
      if ix != p {
        var c := src[ix, p];
        ghost var before := Rows(src);
        src[ix, p] := 0;
        RowsAre(src, before[ix := before[ix][p := 0]]);
        AddMulRow(gf, src, ix, p, c);
      }
    }
    assert Rows(src) == Pivoted(m, p);
  }

  method RowEquals(src: array2<Gf>, p: nat, idRow: array<Gf>) returns (same: bool)
    requires p < src.Length0 && idRow.Length == src.Length1
    ensures same <==> Rows(src)[p] == idRow[..]
  {
    for j := 0 to src.Length1
      invariant forall l :: 0 <= l < j ==> src[p, l] == idRow[l]
    {
      if src[p, j] != idRow[j] {
        assert Rows(src)[p][j] != idRow[..][j];
        return false;
      }
    }
    assert Rows(src)[p] == idRow[..];
    same := true;
  }

  /** When the pivot row is already a unit row, elimination would change nothing. */
  lemma IdentityRowShortcut(m: Mat, p: nat)
    requires IsMat(m, |m|, |m|) && p < |m| && m[p][p] != 0 && PivotRow(m, p) == Unit(|m|, p)
    ensures m[p := PivotRow(m, p)] == Pivoted(m, p)
  {
    hide Add, Mul, Inv, PivotRow, AddMul, Unit;
    var e := Unit(|m|, p);
    forall i | 0 <= i < |m| && i != p ensures AddMul(m[i][p := 0], e, m[i][p]) == m[i] {
      forall j | 0 <= j < |m| ensures Add(m[i][p := 0][j], Mul(m[i][p], e[j])) == m[i][j] {
        MulOne(m[i][p]);
        MulZero(m[i][p]);
        AddZero(m[i][j]);
      }
    }
  }

  method PivotAt(gf: Tables, src: array2<Gf>, p: nat, idRow: array<Gf>)
    requires gf.Ready() && gf.Outside({src, idRow})
    requires src.Length0 == src.Length1 == idRow.Length && p < src.Length0 && src[p, p] != 0
    requires idRow[..] == Zeros(idRow.Length)
    modifies src, idRow
    ensures Rows(src) == Pivoted(old(Rows(src)), p)
    ensures idRow[..] == Zeros(idRow.Length)
  {
    hide Add, Mul, Inv, PivotRow, AddMul, Rows, Pivoted, Tables.Ready;
    ghost var m := Rows(src);
    ScalePivotRow(gf, src, p);
    idRow[p] := 1;
    assert idRow[..] == Unit(|m|, p);
    var same := RowEquals(src, p, idRow);
    if !same {
      ClearColumn(gf, src, p, m);
    } else {
      IdentityRowShortcut(m, p);
    }
    idRow[p] := 0;
    assert idRow[..] == Zeros(idRow.Length);
  }

  /* ---------------------------------------------------------------- the pivot search */

  ghost predicate PivotFlags(piv: seq<int>)
  {
    forall i :: 0 <= i < |piv| ==> piv[i] == 0 || piv[i] == 1
  }

  /** Try the diagonal first, then every row and column without a pivot.  The original also tests
      for a flag above 1, which no sequence of pivots produces. */
  method FindPivot(src: array2<Gf>, ipiv: array<int>, col: nat) returns (irow: int, icol: int)
    requires src.Length0 == src.Length1 == ipiv.Length && col < ipiv.Length && PivotFlags(ipiv[..])
    ensures icol == -1 <==> irow == -1
    ensures icol == -1 ==>
      forall i, j :: 0 <= i < ipiv.Length && 0 <= j < ipiv.Length && ipiv[i] != 1 && ipiv[j] != 1 ==> src[i, j] == 0
    ensures icol != -1 ==>
      0 <= irow < ipiv.Length && 0 <= icol < ipiv.Length && ipiv[irow] == 0 && ipiv[icol] == 0 && src[irow, icol] != 0
  {
    var k := ipiv.Length;
    assert forall i :: 0 <= i < k ==> ipiv[i] == ipiv[..][i];
    if ipiv[col] != 1 && src[col, col] != 0 {
      return col, col;
    }
    for row := 0 to k
      invariant forall i, j :: 0 <= i < row && 0 <= j < k && ipiv[i] != 1 && ipiv[j] != 1 ==> src[i, j] == 0
    {
      if ipiv[row] != 1 {
        for ix := 0 to k
          invariant forall j :: 0 <= j < ix && ipiv[j] != 1 ==> src[row, j] == 0
        {
          if ipiv[ix] == 0 && src[row, ix] != 0 {
            return row, ix;
          }
        }
      }
    }
    return -1, -1;
  }

  /** How many indices have been pivots. */
  function Pivots(piv: seq<int>): nat
  {
    if |piv| == 0 then 0 else Pivots(piv[..|piv| - 1]) + if piv[|piv| - 1] == 1 then 1 else 0
  }

  lemma {:induction false} PivotsBound(piv: seq<int>)
    ensures Pivots(piv) <= |piv|
    ensures Pivots(piv) == |piv| ==> forall i :: 0 <= i < |piv| ==> piv[i] == 1
    ensures Pivots(piv) < |piv| ==> exists i :: 0 <= i < |piv| && piv[i] != 1
  {
    if |piv| > 0 {
      var init, last := piv[..|piv| - 1], piv[|piv| - 1];
      PivotsBound(init);
      if Pivots(piv) < |piv| && last == 1 {
        var i :| 0 <= i < |init| && init[i] != 1;
        assert piv[i] != 1;
      }
    }
  }

  lemma {:induction false} PivotsGrow(piv: seq<int>, p: nat)
    requires p < |piv| && piv[p] != 1
    ensures Pivots(piv[p := 1]) == Pivots(piv) + 1
  {
    var n := |piv| - 1;
    if p == n {
      assert piv[p := 1][..n] == piv[..n];
    } else {
      PivotsGrow(piv[..n], p);
      assert piv[p := 1][..n] == piv[..n][p := 1];
    }
  }

  lemma {:induction false} NoPivotsYet(piv: seq<int>)
    requires forall i :: 0 <= i < |piv| ==> piv[i] == 0
    ensures Pivots(piv) == 0
  {
    if |piv| > 0 {
      NoPivotsYet(piv[..|piv| - 1]);
    }
  }

  /* ---------------------------------------------------------------- inversion */

  /** The row exchanges made so far lead from a to b. */
  ghost predicate Exchanged(a: Mat, b: Mat, k: nat, indxr: seq<int>, indxc: seq<int>)
    requires |indxr| == |indxc|
    decreases |indxr|
  {
    if |indxr| == 0 then a == b
    else
      var n := |indxr| - 1;
      && IsMat(b, k, k) && 0 <= indxr[n] < k && 0 <= indxc[n] < k
      && Exchanged(a, Swapped(b, indxr[n], indxc[n]), k, indxr[..n], indxc[..n])
  }

  /** One column of the elimination: find a pivot, bring it to the diagonal, exchange. */
  method PivotColumn(gf: Tables, src: array2<Gf>, ipiv: array<int>, idRow: array<Gf>, col: nat, ghost a: Mat)
    returns (ok: bool, irow: int, icol: int, ghost a': Mat)
    requires gf.Ready() && gf.Outside({src, ipiv, idRow})
    requires src.Length0 == src.Length1 == ipiv.Length == idRow.Length && col < ipiv.Length
    requires idRow as object != ipiv
    requires PivotFlags(ipiv[..]) && Tracks(a, Rows(src), ipiv[..]) && Pivots(ipiv[..]) == col
    requires idRow[..] == Zeros(idRow.Length)
    modifies src, ipiv, idRow
    ensures !ok ==> !NonSingular(a, ipiv.Length)
    ensures ok ==> 0 <= irow < ipiv.Length && 0 <= icol < ipiv.Length && a' == Swapped(a, irow, icol)
    ensures ok ==> PivotFlags(ipiv[..]) && Tracks(a', Rows(src), ipiv[..]) && Pivots(ipiv[..]) == col + 1
    ensures ok ==> idRow[..] == Zeros(idRow.Length)
  {
    hide Tracks, NonSingular, Pivoted, Swapped, Pivots, Tables.Ready;
    var k := ipiv.Length;
    ghost var m, piv := Rows(src), ipiv[..];
    a' := a;
    assert IsMat(a, k, k) by { TracksShape(a, m, piv); }
    irow, icol := FindPivot(src, ipiv, col);
    if icol == -1 {
      PivotsBound(piv);
      ghost var p :| 0 <= p < k && piv[p] != 1;
      NoPivotLeft(a, m, piv, p);
      return false, irow, icol, a';
    }
    TracksSwap(a, m, piv, irow, icol);
    PivotsGrow(piv, icol);
    a' := Swapped(a, irow, icol);
    ipiv[icol] := ipiv[icol] + 1;
    assert ipiv[..] == piv[icol := 1];
    if irow != icol {
      SwapRows(src, irow, icol);
    } else {
      SwapSame(m, irow);
    }
    ghost var m' := Swapped(m, irow, icol);
    assert Rows(src) == m';
    TracksPivot(a', m', piv, icol);
    PivotAt(gf, src, icol, idRow);
    ok := true;
  }

  lemma TracksShape(a: Mat, m: Mat, piv: seq<int>)
    requires Tracks(a, m, piv)
    ensures IsMat(a, |piv|, |piv|) && IsMat(m, |piv|, |piv|)
  {
  }

  lemma SwapSame<T>(s: seq<T>, r: nat)
    requires r < |s|
    ensures Swapped(s, r, r) == s
  {
  }

  method RecordSwap(indxr: array<int>, indxc: array<int>, col: nat, irow: int, icol: int)
    requires col < indxr.Length == indxc.Length && indxr != indxc
    modifies indxr, indxc
    ensures indxr[..col + 1] == old(indxr[..col]) + [irow] && indxc[..col + 1] == old(indxc[..col]) + [icol]
  {
    indxr[col], indxc[col] := irow, icol;
  }

  /** All columns in turn; indxr and indxc record the row exchanges. */
  method Eliminate(gf: Tables, src: array2<Gf>, indxr: array<int>, indxc: array<int>)
    returns (ok: bool, ghost a: Mat)
    requires gf.Ready() && gf.Outside({src, indxr, indxc})
    requires src.Length0 == src.Length1 == indxr.Length == indxc.Length && indxr != indxc
    modifies src, indxr, indxc
    ensures !ok ==> !NonSingular(old(Rows(src)), src.Length0)
    ensures ok ==> IsInverse(a, Rows(src), src.Length0)
    ensures ok ==> Exchanged(old(Rows(src)), a, src.Length0, indxr[..], indxc[..])
  {
    hide Tracks, NonSingular, IsInverse, Swapped, Pivots, Rows, Tables.Ready;
    var k := src.Length0;
    ghost var a0 := Rows(src);
    var ipiv := new int[k](_ => 0);
    var idRow := new Gf[k](_ => 0);
    assert idRow[..] == Zeros(k);
    a := a0;
    TracksStart(a0, ipiv[..]);
    NoPivotsYet(ipiv[..]);
    assert Exchanged(a0, a, k, indxr[..0], indxc[..0]);
    hide Exchanged;
    for col := 0 to k
      invariant PivotFlags(ipiv[..]) && Tracks(a, Rows(src), ipiv[..]) && Pivots(ipiv[..]) == col
      invariant idRow[..] == Zeros(k)
      invariant Exchanged(a0, a, k, indxr[..col], indxc[..col])
      invariant NonSingular(a, k) <==> NonSingular(a0, k)
    {
      ghost var before := a;
      TracksShape(before, Rows(src), ipiv[..]);
      var irow, icol;
      ok, irow, icol, a := PivotColumn(gf, src, ipiv, idRow, col, before);
      if !ok {
        return;
      }
      ExchangeMore(a0, before, k, indxr[..col], indxc[..col], irow, icol);
      RecordSwap(indxr, indxc, col, irow, icol);
    }
    assert indxr[..k] == indxr[..] && indxc[..k] == indxc[..];
    PivotsBound(ipiv[..]);
    TracksEnd(a, Rows(src), ipiv[..]);
    ok := true;
  }

  /** Invert src in place.  The result is 0 exactly when the matrix is non-singular, and src then
      holds its two-sided inverse. */
  method Invert(gf: Tables, src: array2<Gf>) returns (error: int)
    requires gf.Ready() && gf.Outside({src})
    requires src.Length0 == src.Length1
    modifies src
    ensures error == 0 || error == 1
    ensures error == 0 <==> NonSingular(old(Rows(src)), src.Length0)
    ensures error == 0 ==> IsInverse(old(Rows(src)), Rows(src), src.Length0)
  {
    hide NonSingular, IsInverse, Rows, Exchanged, Tables.Ready;
    var k := src.Length0;
    ghost var a0 := Rows(src);
    var indxc := new int[k];
    var indxr := new int[k];
    var ok; ghost var a;
    ok, a := Eliminate(gf, src, indxr, indxc);
    if !ok {
      return 1;
    }
    Unscramble(src, indxr, indxc, a0, a);
    InvertibleIsNonSingular(a0, Rows(src), k);
    error := 0;
  }

  lemma ExchangeMore(a0: Mat, a: Mat, k: nat, indxr: seq<int>, indxc: seq<int>, r: nat, c: nat)
    requires |indxr| == |indxc| && Exchanged(a0, a, k, indxr, indxc) && IsMat(a, k, k) && r < k && c < k
    ensures Exchanged(a0, Swapped(a, r, c), k, indxr + [r], indxc + [c])
    ensures NonSingular(Swapped(a, r, c), k) <==> NonSingular(a, k)
  {
    hide NonSingular, Swapped;
    var n := |indxr|;
    SwapTwice(a, r, c);
    SwapKeepsSingular(a, k, r, c);
    assert (indxr + [r])[..n] == indxr && (indxc + [c])[..n] == indxc;
  }

  /** Undo the row exchanges on the inverse: exchange its columns, in the reverse order. */
  method Unscramble(src: array2<Gf>, indxr: array<int>, indxc: array<int>, ghost a0: Mat, ghost a: Mat)
    requires src.Length0 == src.Length1 == indxr.Length == indxc.Length
    requires Exchanged(a0, a, src.Length0, indxr[..], indxc[..]) && IsInverse(a, Rows(src), src.Length0)
    modifies src
    ensures IsInverse(a0, Rows(src), src.Length0)
  {
    hide IsInverse, Swapped, Rows, ColumnsSwapped;
    var k := src.Length0;
    ghost var b := a;
    var col := k;
    assert indxr[..k] == indxr[..] && indxc[..k] == indxc[..];
    while col > 0
      invariant 0 <= col <= k
      invariant Exchanged(a0, b, k, indxr[..col], indxc[..col])
      invariant IsInverse(b, Rows(src), k)
    {
      col := col - 1;
      assert indxr[..col + 1][..col] == indxr[..col] && indxc[..col + 1][..col] == indxc[..col];
      var r, c := indxr[col], indxc[col];
      InverseSwap(b, Rows(src), k, r, c);
      b := Swapped(b, r, c);
      if r != c {
        SwapColumns(src, r, c);
      } else {
        SwapSameColumns(Rows(src), r);
      }
    }
  }

  lemma SwapSameColumns(m: Mat, r: nat)
    requires IsMat(m, |m|, |m|) && r < |m|
    ensures ColumnsSwapped(m, r, r) == m
  {
    forall i | 0 <= i < |m| ensures ColumnsSwapped(m, r, r)[i] == m[i] {
      SwapSame(m[i], r);
    }
  }
}
