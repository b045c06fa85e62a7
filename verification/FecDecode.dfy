// shuffle, build_decode_matrix and fec_decode of lib/libfec.c.

module FecDecode {
  import opened Basics
  import opened GaloisField
  import opened LinearAlgebra
  import opened GaussJordan
  import opened Polynomials
  import opened FecCode
  import opened Fec
  import Inversion = InvertMat

  /* ---------------------------------------------------------------- shuffle */

  /** How many of the first n entries are at their own position. */
  function FixedPoints(index: seq<int>, n: nat): nat
    requires n <= |index|
  {
    if n == 0 then 0 else FixedPoints(index, n - 1) + if index[n - 1] == n - 1 then 1 else 0
  }

  lemma {:induction false} FixedPointsGrow(a: seq<int>, b: seq<int>, n: nat)
    requires n <= |a| == |b|
    requires forall i :: 0 <= i < n && a[i] == i ==> b[i] == i
    ensures FixedPoints(a, n) <= FixedPoints(b, n) <= n
    ensures (exists i :: 0 <= i < n && a[i] != i && b[i] == i) ==> FixedPoints(a, n) < FixedPoints(b, n)
  {
    if n > 0 {
      FixedPointsGrow(a, b, n - 1);
    }
  }

  function Pairs(index: seq<int>, pkt: Mat): (p: seq<(int, Vec)>)
    requires |index| == |pkt|
    ensures |p| == |index| && forall i :: 0 <= i < |index| ==> p[i] == (index[i], pkt[i])
  {
    seq(|index|, i requires 0 <= i < |index| => (index[i], pkt[i]))
  }

  /** The same packets with the same numbers, in another order. */
  ghost predicate Rearranged(index: seq<int>, pkt: Mat, index0: seq<int>, pkt0: Mat)
  {
    && |index| == |pkt| == |index0| == |pkt0|
    && multiset(Pairs(index, pkt)) == multiset(Pairs(index0, pkt0))
    && multiset(index) == multiset(index0)
  }

  lemma SwapMultiset<T>(s: seq<T>, r: nat, c: nat)
    requires r < |s| && c < |s|
    ensures multiset(Swapped(s, r, c)) == multiset(s)
  {
  }

  /** Some number below k occurs twice. */
  ghost predicate Conflict(index: seq<int>, k: nat)
  {
    exists c :: 0 <= c < k && multiset(index)[c] > 1
  }

  lemma Occurrences(s: seq<int>, i: nat, j: nat)
    requires i < j < |s| && s[i] == s[j]
    ensures multiset(s)[s[i]] > 1
  {
    var a, b := s[..j], s[j..];
    assert s == a + b;
    assert a[i] == s[i] && b[0] == s[j];
    assert s[i] in multiset(a) && s[i] in multiset(b);
  }

  lemma {:induction false} NoSecondOccurrence(s: seq<int>, c: int)
    requires forall i, j :: 0 <= i < j < |s| && s[i] == s[j] ==> s[i] != c
    ensures multiset(s)[c] <= 1
  {
    if |s| > 0 {
      var init, last := s[..|s| - 1], s[|s| - 1];
      assert s == init + [last];
      NoSecondOccurrence(init, c);
      assert last == c ==> forall i :: 0 <= i < |init| ==> init[i] == s[i] != c;
      assert last == c ==> multiset(init)[c] == 0;
    }
  }

  /** Move source packets to their own positions.  The result is 1 exactly when two packets claim the
      same source position. */
  method Shuffle(pkt: array<Vec>, index: array<int>, k: nat) returns (error: int)
    requires pkt.Length == index.Length == k && index as object != pkt
    requires forall i :: 0 <= i < k ==> 0 <= index[i]
    modifies pkt, index
    ensures Rearranged(index[..], pkt[..], old(index[..]), old(pkt[..]))
    ensures forall i :: 0 <= i < k ==> 0 <= index[i]
    ensures error == if Conflict(old(index[..]), k) then 1 else 0
    ensures error == 0 ==> forall i :: 0 <= i < k && index[i] < k ==> index[i] == i
  {
    hide Conflict, Swapped, FixedPoints, Rearranged;
    ghost var start, start' := index[..], pkt[..];
    RearrangedStart(start, start');
    FixedPointsGrow(start, start, k);
    var i := 0;
    while i < k
      invariant 0 <= i <= k
      invariant forall j :: 0 <= j < k ==> 0 <= index[j]
      invariant Rearranged(index[..], pkt[..], start, start')
      invariant forall j :: 0 <= j < i ==> index[j] >= k || index[j] == j
      invariant FixedPoints(index[..], k) <= k
      decreases k - FixedPoints(index[..], k), k - i
    {
      if index[i] >= k || index[i] == i {
        i := i + 1;
      } else {
        var c := index[i];
        if index[c] == c {
          ConflictFound(start, start', index[..], pkt[..], k, i, c);
          return 1;
        }
        ghost var a, p := index[..], pkt[..];
        ExchangePackets(pkt, index, i, c);
        RearrangedSwap(a, p, start, start', i, c);
      }
    }
    NoConflict(start, start', index[..], pkt[..], k);
    error := 0;
  }

  /** Exchanging entry i with the position it names puts one more packet in place. */
  method ExchangePackets(pkt: array<Vec>, index: array<int>, i: nat, c: nat)
    requires pkt.Length == index.Length && index as object != pkt && i < index.Length && c < index.Length
    requires index[i] == c && index[c] != c && i != c
    modifies pkt, index
    ensures index[..] == Swapped(old(index[..]), i, c)
    ensures pkt[..] == Swapped(old(pkt[..]), i, c)
    ensures FixedPoints(old(index[..]), index.Length) < FixedPoints(index[..], index.Length) <= index.Length
  {
    hide FixedPoints;
    ghost var a, p := index[..], pkt[..];
    index[i], index[c] := index[c], index[i];
    pkt[i], pkt[c] := pkt[c], pkt[i];
    assert index[..] == Swapped(a, i, c) && pkt[..] == Swapped(p, i, c);
    assert a[c] != c && index[..][c] == c;
    FixedPointsGrow(a, index[..], index.Length);
  }

  lemma RearrangedStart(index: seq<int>, pkt: Mat)
    requires |index| == |pkt|
    ensures Rearranged(index, pkt, index, pkt)
  {
  }

  lemma RearrangedSwap(index: seq<int>, pkt: Mat, index0: seq<int>, pkt0: Mat, i: nat, c: nat)
    requires Rearranged(index, pkt, index0, pkt0) && i < |index| && c < |index|
    ensures Rearranged(Swapped(index, i, c), Swapped(pkt, i, c), index0, pkt0)
  {
    hide Pairs, Swapped;
    assert Pairs(Swapped(index, i, c), Swapped(pkt, i, c)) == Swapped(Pairs(index, pkt), i, c);
    SwapMultiset(index, i, c);
    SwapMultiset(Pairs(index, pkt), i, c);
  }

  lemma ConflictFound(start: seq<int>, start': Mat, now: seq<int>, now': Mat, k: nat, i: nat, c: nat)
    requires Rearranged(now, now', start, start') && i < |now| && c < |now| && i != c && c < k
    requires now[i] == c && now[c] == c
    ensures Conflict(start, k)
  {
    if i < c {
      Occurrences(now, i, c);
    } else {
      Occurrences(now, c, i);
    }
  }

  lemma NoConflict(start: seq<int>, start': Mat, now: seq<int>, now': Mat, k: nat)
    requires Rearranged(now, now', start, start') && |now| == k
    requires forall j :: 0 <= j < k ==> now[j] >= k || now[j] == j
    ensures !Conflict(start, k)
  {
    forall c | 0 <= c < k ensures multiset(now)[c] <= 1 {
      NoSecondOccurrence(now, c);
    }
  }

  lemma DistinctIsMultiset(a: seq<int>, b: seq<int>)
    requires multiset(a) == multiset(b) && NoRepeats(a)
    ensures NoRepeats(b)
  {
    forall i, j | 0 <= i < j < |b| ensures b[i] != b[j] {
      if b[i] == b[j] {
        Occurrences(b, i, j);
        NoSecondOccurrence(a, b[i]);
        assert false;
      }
    }
  }

  lemma ConflictIsDuplicate(index: seq<int>, k: nat)
    requires NoRepeats(index)
    ensures !Conflict(index, k)
  {
    forall c | 0 <= c < k ensures multiset(index)[c] <= 1 {
      NoSecondOccurrence(index, c);
    }
  }

  /* ---------------------------------------------------------------- build_decode_matrix */

  /** Source packets are where they belong. */
  ghost predicate InPlace(index: seq<int>, k: nat)
  {
    |index| == k && forall i :: 0 <= i < k ==> 0 <= index[i] && (index[i] < k ==> index[i] == i)
  }

  /** Copy the generator rows of the received packets. */
  method SelectRows(code: Code, index: array<int>, matrix: array2<Gf>) returns (ok: bool)
    requires code.Valid() && InPlace(index[..], code.k) && code.Outside({matrix})
    requires matrix.Length0 == matrix.Length1 == code.k
    modifies matrix
    ensures ok <==> forall i :: 0 <= i < code.k ==> index[i] < code.n
    ensures ok ==> Inversion.Rows(matrix) == Selected(code.k, index[..])
  {
    hide EncRow, Selected;
    var k := code.k;
    assert forall i :: 0 <= i < k ==> index[i] == index[..][i];
    for i := 0 to k
      invariant forall r :: 0 <= r < i ==> index[r] < code.n
      invariant forall r, c :: 0 <= r < i && 0 <= c < k ==> matrix[r, c] == EncRow(k, index[r])[c]
    {
      if index[i] < k {
        UnitRow(k, i);
        forall c | 0 <= c < k {
          matrix[i, c] := 0;
        }
        matrix[i, i] := 1;
      } else if index[i] < code.n {
        assert forall c :: 0 <= c < k ==> code.encMatrix[index[i], c] == EncRow(k, index[i])[c];
        forall c | 0 <= c < k {
          matrix[i, c] := code.encMatrix[index[i], c];
        }
      } else {
        return false;
      }
    }
    Inversion.RowsAre(matrix, Selected(k, index[..]));
    ok := true;
  }

  /** The inverse of the received rows, or nothing when a number is out of range or the rows are
      dependent. */
  method BuildDecodeMatrix(code: Code, index: array<int>) returns (matrix: array2?<Gf>)
    requires code.Valid() && InPlace(index[..], code.k)
    ensures matrix != null ==> fresh(matrix) && matrix.Length0 == matrix.Length1 == code.k
    ensures matrix != null ==> IsInverse(Selected(code.k, index[..]), Inversion.Rows(matrix), code.k)
    ensures matrix != null <==>
      (forall i :: 0 <= i < code.k ==> index[i] < code.n) && NonSingular(Selected(code.k, index[..]), code.k)
  {
    hide Selected, IsInverse, NonSingular, Inversion.Rows;
    var m := new Gf[code.k, code.k];
    var ok := SelectRows(code, index, m);
    if !ok {
      return null;
    }
    var error := Inversion.Invert(code.gf, m);
    matrix := if error == 0 then m else null;
  }

  /* ---------------------------------------------------------------- fec_decode */

  /** Equal rows cannot be inverted. */
  lemma InvertibleRowsDiffer(a: Mat, b: Mat, k: nat, i: nat, j: nat)
    requires IsInverse(a, b, k) && i < k && j < k && i != j
    ensures a[i] != a[j]
  {
    hide Apply, Unit;
    var y := Unit(k, i);
    var x := Apply(b, y);
    assert Apply(a, x) == y;
    assert y[i] == Dot(a[i], x) && y[j] == Dot(a[j], x);
  }

  /** Decoding works column by column: the inverse of the received rows turns received symbols into
      source symbols, and leaves the source packets that did arrive as they are. */
  lemma DecodedColumn(k: nat, index: seq<int>, b: Mat, received: Vec, decoded: Vec, row: nat)
    requires k <= 256 && InPlace(index, k) && IsInverse(Selected(k, index), b, k)
    requires |received| == |decoded| == k && row < k
    requires forall i :: 0 <= i < k ==> decoded[i] == if index[i] >= k then Dot(b[i], received) else received[i]
    ensures Dot(EncRow(k, index[row]), decoded) == received[row]
  {
    hide Selected, EncRow, Apply, Dot;
    var x := Apply(b, received);
    assert Apply(Selected(k, index), x) == received;
    forall i | 0 <= i < k ensures x[i] == decoded[i] {
      if index[i] < k {
        UnitRow(k, i);
        DotUnit(i, x);
        assert received[i] == Apply(Selected(k, index), x)[i];
      }
    }
    assert x == decoded;
    assert received[row] == Apply(Selected(k, index), x)[row];
  }

  lemma DecodedPacket(k: nat, index: seq<int>, b: Mat, received: Mat, decoded: Mat, width: nat, row: nat)
    requires k <= 256 && InPlace(index, k) && IsInverse(Selected(k, index), b, k)
    requires IsMat(received, k, width) && IsMat(decoded, k, width) && row < k
    requires forall i :: 0 <= i < k ==>
      decoded[i] == if index[i] >= k then Combine(b[i], received, k, width) else received[i]
    ensures Encoded(k, decoded, index[row], width) == received[row]
  {
    hide Selected, EncRow, Column, Dot, Encoded, Combine, IsInverse;
    forall s | 0 <= s < width ensures Encoded(k, decoded, index[row], width)[s] == received[row][s] {
      var r, d := Column(received, s), Column(decoded, s);
      InverseShape(Selected(k, index), b, k);
      forall i | 0 <= i < k ensures d[i] == if index[i] >= k then Dot(b[i], r) else r[i] {
        CombineIsDot(b[i], received, k, width, s);
      }
      DecodedColumn(k, index, b, r, d, row);
      EncodedAt(k, decoded, index[row], width, s);
    }
  }

  lemma InverseShape(a: Mat, b: Mat, k: nat)
    requires IsInverse(a, b, k)
    ensures IsMat(b, k, k)
  {
  }

  lemma CombineIsDot(coefs: Vec, rows: Mat, k: nat, width: nat, s: nat)
    requires |coefs| == k && IsMat(rows, k, width) && s < width
    ensures Combine(coefs, rows, k, width)[s] == Dot(coefs, Column(rows, s))
  {
    hide Combine, Column;
    CombineAt(coefs, rows, k, width, s);
  }

  /** Compute the missing packets, then move them to their places. */
  method DecodePackets(code: Code, pkt: array<Vec>, index: array<int>, matrix: array2<Gf>, sz: nat)
    requires code.Valid() && code.Outside({pkt, index}) && pkt.Length == index.Length == code.k
    requires IsMat(pkt[..], code.k, sz) && matrix.Length0 == matrix.Length1 == code.k
    modifies pkt
    ensures IsMat(pkt[..], code.k, sz)
    ensures forall i :: 0 <= i < code.k ==>
      pkt[i] == if index[i] >= code.k then Combine(Inversion.Rows(matrix)[i], old(pkt[..]), code.k, sz) else old(pkt[i])
  {
    hide Combine, Inversion.Rows;
    var k := code.k;
    ghost var b := Inversion.Rows(matrix);
    var received := pkt[..];
    var newPkt := new Vec[k](_ => []);
    var buffer := new Gf[sz];
    for row := 0 to k
      invariant pkt[..] == received
      invariant forall i :: 0 <= i < row && index[i] >= k ==> newPkt[i] == Combine(b[i], received, k, sz)
    {
      if index[row] >= k {
        Accumulate(code.gf, buffer, matrix, row, received, k);
        newPkt[row] := buffer[..];
      }
    }
    for row := 0 to k
      invariant forall i :: 0 <= i < k && index[i] >= k ==> newPkt[i] == Combine(b[i], received, k, sz)
      invariant forall i :: 0 <= i < k ==> pkt[i] == if index[i] >= k && i < row then newPkt[i] else received[i]
    {
      if index[row] >= k {
        pkt[row] := newPkt[row];
      }
    }
  }

  /** Packets src carry the numbers index and the contents pkt. */
  ghost predicate Encodes(k: nat, src: Mat, index: seq<int>, pkt: Mat, width: nat)
  {
    && k <= 256 && IsMat(src, k, width) && |index| == |pkt| == k
    && forall i :: 0 <= i < k ==> 0 <= index[i] && Encoded(k, src, index[i], width) == pkt[i]
  }

  lemma RearrangedEncodes(k: nat, src: Mat, index: seq<int>, pkt: Mat, index0: seq<int>, pkt0: Mat, width: nat)
    requires Encodes(k, src, index, pkt, width) && Rearranged(index, pkt, index0, pkt0)
    ensures Encodes(k, src, index0, pkt0, width)
  {
    hide Encoded;
    forall i | 0 <= i < k ensures 0 <= index0[i] && Encoded(k, src, index0[i], width) == pkt0[i] {
      assert Pairs(index0, pkt0)[i] in multiset(Pairs(index0, pkt0));
      assert (index0[i], pkt0[i]) in Pairs(index, pkt);
      var j :| 0 <= j < k && Pairs(index, pkt)[j] == (index0[i], pkt0[i]);
    }
  }

  lemma InvertibleNumbersDiffer(k: nat, index: seq<int>, b: Mat)
    requires k <= 256 && InPlace(index, k) && IsInverse(Selected(k, index), b, k)
    ensures NoRepeats(index)
  {
    hide Selected, IsInverse;
    forall i, j | 0 <= i < j < k ensures index[i] != index[j] {
      InvertibleRowsDiffer(Selected(k, index), b, k, i, j);
    }
  }

  lemma RearrangedNumbers(index: seq<int>, pkt: Mat, index0: seq<int>, pkt0: Mat, bound: int)
    requires Rearranged(index, pkt, index0, pkt0)
    ensures NoRepeats(index) <==> NoRepeats(index0)
    ensures (forall i :: 0 <= i < |index| ==> index[i] < bound) <==>
      (forall i :: 0 <= i < |index0| ==> index0[i] < bound)
  {
    if NoRepeats(index) {
      DistinctIsMultiset(index, index0);
    }
    if NoRepeats(index0) {
      DistinctIsMultiset(index0, index);
    }
    BoundIsMultiset(index, index0, bound);
    BoundIsMultiset(index0, index, bound);
  }

  lemma BoundIsMultiset(a: seq<int>, b: seq<int>, bound: int)
    requires multiset(a) == multiset(b)
    ensures (forall i :: 0 <= i < |a| ==> a[i] < bound) ==> forall i :: 0 <= i < |b| ==> b[i] < bound
  {
    if forall i :: 0 <= i < |a| ==> a[i] < bound {
      forall i | 0 <= i < |b| ensures b[i] < bound {
        assert b[i] in multiset(b);
        assert b[i] in a;
      }
    }
  }

  /** Decode k packets in place.  Decoding succeeds exactly when the packet numbers are different and
      in range, and then pkt holds the one source whose packets were received, in order. */
  method FecDecode(code: Code, pkt: array<Vec>, index: array<int>, sz: nat) returns (error: int)
    requires code.Valid() && code.Outside({pkt, index})
    requires pkt.Length == index.Length == code.k && index as object != pkt
    requires IsMat(pkt[..], code.k, sz) && forall i :: 0 <= i < code.k ==> 0 <= index[i]
    modifies pkt, index
    ensures error == 0 <==> NoRepeats(old(index[..])) && forall i :: 0 <= i < code.k ==> old(index[..])[i] < code.n
    ensures error == 0 ==> Encodes(code.k, pkt[..], old(index[..]), old(pkt[..]), sz)
    ensures error == 0 ==>
      forall src: Mat :: Encodes(code.k, src, old(index[..]), old(pkt[..]), sz) ==> pkt[..] == src
  {
    hide Conflict, Rearranged, Selected, IsInverse, NonSingular, Encodes, Inversion.Rows, Code.Valid;
    CodeShape(code);
    var k := code.k;
    ghost var index0, pkt0 := index[..], pkt[..];
    error := Shuffle(pkt, index, k);
    if error != 0 {
      if NoRepeats(index0) {
        ConflictIsDuplicate(index0, k);
      }
      return;
    }
    ghost var now, received := index[..], pkt[..];
    RearrangedNumbers(now, received, index0, pkt0, code.n);
    RearrangedShape(now, received, index0, pkt0, k, sz);
    assert InPlace(now, k);
    var matrix := BuildDecodeMatrix(code, index);
    if matrix == null {
      if NoRepeats(now) && forall i :: 0 <= i < k ==> now[i] < code.n {
        AnyKPacketsSuffice(k, now);
      }
      return 1;
    }
    ghost var b := Inversion.Rows(matrix);
    InvertibleNumbersDiffer(k, now, b);
    DecodePackets(code, pkt, index, matrix, sz);
    DecodedPackets(k, now, b, received, pkt[..], sz);
    RearrangedEncodes(k, pkt[..], now, received, index0, pkt0, sz);
    forall src: Mat | Encodes(k, src, index0, pkt0, sz) ensures pkt[..] == src {
      OneSource(k, index0, pkt0, pkt[..], src, sz);
    }
  }

  lemma CodeShape(code: Code)
    requires code.Valid()
    ensures code.Shape()
  {
  }

  lemma RearrangedShape(index: seq<int>, pkt: Mat, index0: seq<int>, pkt0: Mat, k: nat, width: nat)
    requires Rearranged(index, pkt, index0, pkt0) && IsMat(pkt0, k, width)
    ensures IsMat(pkt, k, width)
  {
    forall i | 0 <= i < k ensures |pkt[i]| == width {
      assert Pairs(index, pkt)[i] in multiset(Pairs(index, pkt));
      assert (index[i], pkt[i]) in Pairs(index0, pkt0);
    }
  }

  lemma DecodedPackets(k: nat, index: seq<int>, b: Mat, received: Mat, decoded: Mat, width: nat)
    requires k <= 256 && InPlace(index, k) && IsInverse(Selected(k, index), b, k)
    requires IsMat(b, k, k) && IsMat(received, k, width) && IsMat(decoded, k, width)
    requires forall i :: 0 <= i < k ==>
      decoded[i] == if index[i] >= k then Combine(b[i], received, k, width) else received[i]
    ensures Encodes(k, decoded, index, received, width)
  {
    hide Selected, IsInverse, Combine, Encoded;
    forall i | 0 <= i < k ensures Encoded(k, decoded, index[i], width) == received[i] {
      DecodedPacket(k, index, b, received, decoded, width, i);
    }
  }

  lemma OneSource(k: nat, index: seq<int>, pkt: Mat, src: Mat, other: Mat, width: nat)
    requires Encodes(k, src, index, pkt, width) && Encodes(k, other, index, pkt, width)
    requires NoRepeats(index) && forall i :: 0 <= i < k ==> index[i] < 256
    ensures src == other
  {
    hide Encoded;
    SourceIsUnique(k, index, src, other, width);
  }
}
