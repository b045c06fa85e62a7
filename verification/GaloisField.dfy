// The field GF(2^8) of lib/libfec.c: bytes added by exclusive or, and multiplied as polynomials modulo
// x^8 + x^4 + x^3 + x^2 + 1, of which 2 is a primitive element.

module GaloisField {

  type Gf = bv8

  function Add(a: Gf, b: Gf): Gf
  {
    a ^ b
  }

  lemma AddComm(a: Gf, b: Gf)
    ensures Add(a, b) == Add(b, a)
  {
  }

  lemma AddAssoc(a: Gf, b: Gf, c: Gf)
    ensures Add(Add(a, b), c) == Add(a, Add(b, c))
  {
  }

  lemma AddZero(a: Gf)
    ensures Add(a, 0) == a && Add(0, a) == a
  {
  }

  lemma AddSelf(a: Gf)
    ensures Add(a, a) == 0
  {
  }

  /** Every element is its own negative, so an addend can be moved across an equation. */
  lemma AddMove(a: Gf, b: Gf, c: Gf)
    ensures Add(a, b) == c <==> a == Add(c, b)
  {
    hide *;
    AddAssoc(a, b, b);
    AddAssoc(c, b, b);
    AddSelf(b);
    AddZero(a);
    AddZero(c);
  }

  lemma AddEqualIffZero(a: Gf, b: Gf)
    ensures Add(a, b) == 0 <==> a == b
  {
    hide *;
    AddMove(a, b, 0);
    AddZero(b);
  }

  /** (a + b) + (c + d) == (a + c) + (b + d) */
  lemma AddExchange(a: Gf, b: Gf, c: Gf, d: Gf)
    ensures Add(Add(a, b), Add(c, d)) == Add(Add(a, c), Add(b, d))
  {
    hide *;
    AddAssoc(a, b, Add(c, d));
    AddAssoc(b, c, d);
    AddComm(b, c);
    AddAssoc(c, b, d);
    AddAssoc(a, c, Add(b, d));
  }

  /* ---------------------------------------------------------------- powers of alpha */

  /** Multiplication by alpha: shift left, and fold an overflowing bit back with the primitive
      polynomial 1 + x^2 + x^3 + x^4 + x^8, whose low byte is 29. */
  function XTime(a: Gf): Gf
  {
    if Top(a) then Add(29, Double(a)) else Double(a)
  }

  function Double(a: Gf): Gf
  {
    a << 1
  }

  predicate Top(a: Gf)
  {
    a & 0x80 != 0
  }

  function Exp(i: nat): Gf
  {
    if i == 0 then 1 else XTime(Exp(i - 1))
  }

  lemma XTimeLinear(a: Gf, b: Gf)
    ensures XTime(Add(a, b)) == Add(XTime(a), XTime(b))
  {
    hide Add, Double, Top;
    DoubleLinear(a, b);
    var da, db := Double(a), Double(b);
    AddAssoc(29, da, db);
    AddAssoc(da, 29, db);
    AddComm(da, 29);
    AddExchange(29, da, 29, db);
    AddSelf(29);
    AddZero(Add(da, db));
  }

  lemma DoubleLinear(a: Gf, b: Gf)
    ensures Double(Add(a, b)) == Add(Double(a), Double(b))
    ensures Top(Add(a, b)) == (Top(a) != Top(b))
  {
  }

  lemma XTimeNonZero(a: Gf)
    ensures XTime(a) == 0 <==> a == 0
  {
  }

  lemma XTimeInjective(a: Gf, b: Gf)
    ensures XTime(a) == XTime(b) ==> a == b
  {
  }

  lemma ByteInjective(a: Gf, b: Gf)
    ensures a as int == b as int ==> a == b
  {
  }

  lemma {:induction false} ExpNonZero(i: nat)
    ensures Exp(i) != 0
  {
    if i > 0 {
      ExpNonZero(i - 1);
      XTimeNonZero(Exp(i - 1));
    }
  }

  /** n-fold multiplication by alpha. */
  function Shift(n: nat, a: Gf): Gf
  {
    if n == 0 then a else XTime(Shift(n - 1, a))
  }

  lemma {:induction false} ShiftLinear(n: nat, a: Gf, b: Gf)
    ensures Shift(n, Add(a, b)) == Add(Shift(n, a), Shift(n, b))
  {
    hide Add, XTime;
    if n > 0 {
      ShiftLinear(n - 1, a, b);
      XTimeLinear(Shift(n - 1, a), Shift(n - 1, b));
    }
  }

  lemma {:induction false} ShiftExp(n: nat, i: nat)
    ensures Shift(n, Exp(i)) == Exp(n + i)
  {
    hide XTime;
    if n > 0 {
      ShiftExp(n - 1, i);
      assert Exp(n + i) == XTime(Exp(n - 1 + i));
    }
  }

  lemma {:induction false} ShiftZero(n: nat)
    ensures Shift(n, 0) == 0
  {
    if n > 0 {
      ShiftZero(n - 1);
      XTimeNonZero(0);
    }
  }

  lemma ExpStep(i: nat)
    ensures Exp(i + 1) == XTime(Exp(i))
  {
  }

  lemma FirstPowers()
    ensures Exp(0) == 1 && Exp(1) == 2 && Exp(2) == 4 && Exp(3) == 8
    ensures Exp(4) == 16 && Exp(5) == 32 && Exp(6) == 64 && Exp(7) == 128
    ensures Exp(8) == Add(Add(Exp(4), Exp(3)), Add(Exp(2), Exp(0)))
  {
    hide Exp;
    ExpStart();
    forall m | 0 <= m < 8 ensures Exp(m + 1) == XTime(Exp(m)) { ExpStep(m); }
    assert Exp(1) == 2 && Exp(2) == 4 && Exp(3) == 8 && Exp(4) == 16;
    assert Exp(5) == 32 && Exp(6) == 64 && Exp(7) == 128 && Exp(8) == 29;
  }

  /** Powers of 2 obey the polynomial 1 + x^2 + x^3 + x^4 + x^8. With the first eight, which are single bits,
      this determines them all. */
  lemma PowersObey(i: nat)
    ensures Exp(i + 8) == Add(Add(Exp(i + 4), Exp(i + 3)), Add(Exp(i + 2), Exp(i)))
  {
    hide *;
    FirstPowers();
    ShiftLinear(i, Add(Exp(4), Exp(3)), Add(Exp(2), Exp(0)));
    ShiftLinear(i, Exp(4), Exp(3));
    ShiftLinear(i, Exp(2), Exp(0));
    ShiftExp(i, 8);
    ShiftExp(i, 4);
    ShiftExp(i, 3);
    ShiftExp(i, 2);
    ShiftExp(i, 0);
  }

  lemma PowersFrom0(i: nat, j: nat)
    requires Exp(i) == 1
    ensures Exp(i + 32) == 157
    ensures i < j <= i + 32 ==> Exp(j) != 1
  {
    hide Exp;
    forall m | i <= m < i + 32 ensures Exp(m + 1) == XTime(Exp(m)) { ExpStep(m); }
    assert Exp(i + 1) == 2 && Exp(i + 2) == 4 && Exp(i + 3) == 8 && Exp(i + 4) == 16;
    assert Exp(i + 5) == 32 && Exp(i + 6) == 64 && Exp(i + 7) == 128 && Exp(i + 8) == 29;
    assert Exp(i + 9) == 58 && Exp(i + 10) == 116 && Exp(i + 11) == 232 && Exp(i + 12) == 205;
    assert Exp(i + 13) == 135 && Exp(i + 14) == 19 && Exp(i + 15) == 38 && Exp(i + 16) == 76;
    assert Exp(i + 17) == 152 && Exp(i + 18) == 45 && Exp(i + 19) == 90 && Exp(i + 20) == 180;
    assert Exp(i + 21) == 117 && Exp(i + 22) == 234 && Exp(i + 23) == 201 && Exp(i + 24) == 143;
    assert Exp(i + 25) == 3 && Exp(i + 26) == 6 && Exp(i + 27) == 12 && Exp(i + 28) == 24;
    assert Exp(i + 29) == 48 && Exp(i + 30) == 96 && Exp(i + 31) == 192 && Exp(i + 32) == 157;
  }

  lemma PowersFrom32(i: nat, j: nat)
    requires Exp(i) == 157
    ensures Exp(i + 32) == 95
    ensures i < j <= i + 32 ==> Exp(j) != 1
  {
    hide Exp;
    forall m | i <= m < i + 32 ensures Exp(m + 1) == XTime(Exp(m)) { ExpStep(m); }
    assert Exp(i + 1) == 39 && Exp(i + 2) == 78 && Exp(i + 3) == 156 && Exp(i + 4) == 37;
    assert Exp(i + 5) == 74 && Exp(i + 6) == 148 && Exp(i + 7) == 53 && Exp(i + 8) == 106;
    assert Exp(i + 9) == 212 && Exp(i + 10) == 181 && Exp(i + 11) == 119 && Exp(i + 12) == 238;
    assert Exp(i + 13) == 193 && Exp(i + 14) == 159 && Exp(i + 15) == 35 && Exp(i + 16) == 70;
    assert Exp(i + 17) == 140 && Exp(i + 18) == 5 && Exp(i + 19) == 10 && Exp(i + 20) == 20;
    assert Exp(i + 21) == 40 && Exp(i + 22) == 80 && Exp(i + 23) == 160 && Exp(i + 24) == 93;
    assert Exp(i + 25) == 186 && Exp(i + 26) == 105 && Exp(i + 27) == 210 && Exp(i + 28) == 185;
    assert Exp(i + 29) == 111 && Exp(i + 30) == 222 && Exp(i + 31) == 161 && Exp(i + 32) == 95;
  }

  lemma PowersFrom64(i: nat, j: nat)
    requires Exp(i) == 95
    ensures Exp(i + 32) == 217
    ensures i < j <= i + 32 ==> Exp(j) != 1
  {
    hide Exp;
    forall m | i <= m < i + 32 ensures Exp(m + 1) == XTime(Exp(m)) { ExpStep(m); }
    assert Exp(i + 1) == 190 && Exp(i + 2) == 97 && Exp(i + 3) == 194 && Exp(i + 4) == 153;
    assert Exp(i + 5) == 47 && Exp(i + 6) == 94 && Exp(i + 7) == 188 && Exp(i + 8) == 101;
    assert Exp(i + 9) == 202 && Exp(i + 10) == 137 && Exp(i + 11) == 15 && Exp(i + 12) == 30;
    assert Exp(i + 13) == 60 && Exp(i + 14) == 120 && Exp(i + 15) == 240 && Exp(i + 16) == 253;
    assert Exp(i + 17) == 231 && Exp(i + 18) == 211 && Exp(i + 19) == 187 && Exp(i + 20) == 107;
    assert Exp(i + 21) == 214 && Exp(i + 22) == 177 && Exp(i + 23) == 127 && Exp(i + 24) == 254;
    assert Exp(i + 25) == 225 && Exp(i + 26) == 223 && Exp(i + 27) == 163 && Exp(i + 28) == 91;
    assert Exp(i + 29) == 182 && Exp(i + 30) == 113 && Exp(i + 31) == 226 && Exp(i + 32) == 217;
  }

  lemma PowersFrom96(i: nat, j: nat)
    requires Exp(i) == 217
    ensures Exp(i + 32) == 133
    ensures i < j <= i + 32 ==> Exp(j) != 1
  {
    hide Exp;
    forall m | i <= m < i + 32 ensures Exp(m + 1) == XTime(Exp(m)) { ExpStep(m); }
    assert Exp(i + 1) == 175 && Exp(i + 2) == 67 && Exp(i + 3) == 134 && Exp(i + 4) == 17;
    assert Exp(i + 5) == 34 && Exp(i + 6) == 68 && Exp(i + 7) == 136 && Exp(i + 8) == 13;
    assert Exp(i + 9) == 26 && Exp(i + 10) == 52 && Exp(i + 11) == 104 && Exp(i + 12) == 208;
    assert Exp(i + 13) == 189 && Exp(i + 14) == 103 && Exp(i + 15) == 206 && Exp(i + 16) == 129;
    assert Exp(i + 17) == 31 && Exp(i + 18) == 62 && Exp(i + 19) == 124 && Exp(i + 20) == 248;
    assert Exp(i + 21) == 237 && Exp(i + 22) == 199 && Exp(i + 23) == 147 && Exp(i + 24) == 59;
    assert Exp(i + 25) == 118 && Exp(i + 26) == 236 && Exp(i + 27) == 197 && Exp(i + 28) == 151;
    assert Exp(i + 29) == 51 && Exp(i + 30) == 102 && Exp(i + 31) == 204 && Exp(i + 32) == 133;
  }

  lemma PowersFrom128(i: nat, j: nat)
    requires Exp(i) == 133
    ensures Exp(i + 32) == 230
    ensures i < j <= i + 32 ==> Exp(j) != 1
  {
    hide Exp;
    forall m | i <= m < i + 32 ensures Exp(m + 1) == XTime(Exp(m)) { ExpStep(m); }
    assert Exp(i + 1) == 23 && Exp(i + 2) == 46 && Exp(i + 3) == 92 && Exp(i + 4) == 184;
    assert Exp(i + 5) == 109 && Exp(i + 6) == 218 && Exp(i + 7) == 169 && Exp(i + 8) == 79;
    assert Exp(i + 9) == 158 && Exp(i + 10) == 33 && Exp(i + 11) == 66 && Exp(i + 12) == 132;
    assert Exp(i + 13) == 21 && Exp(i + 14) == 42 && Exp(i + 15) == 84 && Exp(i + 16) == 168;
    assert Exp(i + 17) == 77 && Exp(i + 18) == 154 && Exp(i + 19) == 41 && Exp(i + 20) == 82;
    assert Exp(i + 21) == 164 && Exp(i + 22) == 85 && Exp(i + 23) == 170 && Exp(i + 24) == 73;
    assert Exp(i + 25) == 146 && Exp(i + 26) == 57 && Exp(i + 27) == 114 && Exp(i + 28) == 228;
    assert Exp(i + 29) == 213 && Exp(i + 30) == 183 && Exp(i + 31) == 115 && Exp(i + 32) == 230;
  }

  lemma PowersFrom160(i: nat, j: nat)
    requires Exp(i) == 230
    ensures Exp(i + 32) == 130
    ensures i < j <= i + 32 ==> Exp(j) != 1
  {
    hide Exp;
    forall m | i <= m < i + 32 ensures Exp(m + 1) == XTime(Exp(m)) { ExpStep(m); }
    assert Exp(i + 1) == 209 && Exp(i + 2) == 191 && Exp(i + 3) == 99 && Exp(i + 4) == 198;
    assert Exp(i + 5) == 145 && Exp(i + 6) == 63 && Exp(i + 7) == 126 && Exp(i + 8) == 252;
    assert Exp(i + 9) == 229 && Exp(i + 10) == 215 && Exp(i + 11) == 179 && Exp(i + 12) == 123;
    assert Exp(i + 13) == 246 && Exp(i + 14) == 241 && Exp(i + 15) == 255 && Exp(i + 16) == 227;
    assert Exp(i + 17) == 219 && Exp(i + 18) == 171 && Exp(i + 19) == 75 && Exp(i + 20) == 150;
    assert Exp(i + 21) == 49 && Exp(i + 22) == 98 && Exp(i + 23) == 196 && Exp(i + 24) == 149;
    assert Exp(i + 25) == 55 && Exp(i + 26) == 110 && Exp(i + 27) == 220 && Exp(i + 28) == 165;
    assert Exp(i + 29) == 87 && Exp(i + 30) == 174 && Exp(i + 31) == 65 && Exp(i + 32) == 130;
  }

  lemma PowersFrom192(i: nat, j: nat)
    requires Exp(i) == 130
    ensures Exp(i + 32) == 18
    ensures i < j <= i + 32 ==> Exp(j) != 1
  {
    hide Exp;
    forall m | i <= m < i + 32 ensures Exp(m + 1) == XTime(Exp(m)) { ExpStep(m); }
    assert Exp(i + 1) == 25 && Exp(i + 2) == 50 && Exp(i + 3) == 100 && Exp(i + 4) == 200;
    assert Exp(i + 5) == 141 && Exp(i + 6) == 7 && Exp(i + 7) == 14 && Exp(i + 8) == 28;
    assert Exp(i + 9) == 56 && Exp(i + 10) == 112 && Exp(i + 11) == 224 && Exp(i + 12) == 221;
    assert Exp(i + 13) == 167 && Exp(i + 14) == 83 && Exp(i + 15) == 166 && Exp(i + 16) == 81;
    assert Exp(i + 17) == 162 && Exp(i + 18) == 89 && Exp(i + 19) == 178 && Exp(i + 20) == 121;
    assert Exp(i + 21) == 242 && Exp(i + 22) == 249 && Exp(i + 23) == 239 && Exp(i + 24) == 195;
    assert Exp(i + 25) == 155 && Exp(i + 26) == 43 && Exp(i + 27) == 86 && Exp(i + 28) == 172;
    assert Exp(i + 29) == 69 && Exp(i + 30) == 138 && Exp(i + 31) == 9 && Exp(i + 32) == 18;
  }

  lemma PowersFrom224(i: nat, j: nat)
    requires Exp(i) == 18
    ensures Exp(i + 31) == 1
    ensures i < j < i + 31 ==> Exp(j) != 1
  {
    hide Exp;
    forall m | i <= m < i + 31 ensures Exp(m + 1) == XTime(Exp(m)) { ExpStep(m); }
    assert Exp(i + 1) == 36 && Exp(i + 2) == 72 && Exp(i + 3) == 144 && Exp(i + 4) == 61;
    assert Exp(i + 5) == 122 && Exp(i + 6) == 244 && Exp(i + 7) == 245 && Exp(i + 8) == 247;
    assert Exp(i + 9) == 243 && Exp(i + 10) == 251 && Exp(i + 11) == 235 && Exp(i + 12) == 203;
    assert Exp(i + 13) == 139 && Exp(i + 14) == 11 && Exp(i + 15) == 22 && Exp(i + 16) == 44;
    assert Exp(i + 17) == 88 && Exp(i + 18) == 176 && Exp(i + 19) == 125 && Exp(i + 20) == 250;
    assert Exp(i + 21) == 233 && Exp(i + 22) == 207 && Exp(i + 23) == 131 && Exp(i + 24) == 27;
    assert Exp(i + 25) == 54 && Exp(i + 26) == 108 && Exp(i + 27) == 216 && Exp(i + 28) == 173;
    assert Exp(i + 29) == 71 && Exp(i + 30) == 142 && Exp(i + 31) == 1;
  }

  /** alpha is primitive: its powers return to 1 after exactly 255 steps. */
  lemma AlphaIsPrimitive(j: nat)
    ensures Exp(255) == 1
    ensures 0 < j < 255 ==> Exp(j) != 1
  {
    hide *;
    ExpStart();
    PowersFromOne(0, j);
  }

  lemma PowersFromOne(i: nat, j: nat)
    requires Exp(i) == 1
    ensures Exp(i + 255) == 1
    ensures i < j < i + 255 ==> Exp(j) != 1
  {
    hide *;
    PowersFrom0(i, j);
    PowersFrom32(i + 32, j);
    PowersFrom64(i + 64, j);
    PowersFrom96(i + 96, j);
    PowersFrom128(i + 128, j);
    PowersFrom160(i + 160, j);
    PowersFrom192(i + 192, j);
    PowersFrom224(i + 224, j);
  }

  lemma ExpPeriod(i: nat)
    ensures Exp(i + 255) == Exp(i)
  {
    hide *;
    AlphaIsPrimitive(0);
    ShiftExp(i, 255);
    ShiftExp(i, 0);
    ExpStart();
  }

  lemma ExpStart()
    ensures Exp(0) == 1
  {
  }

  lemma {:induction false} ExpModulo(i: nat)
    ensures Exp(i % 255) == Exp(i)
  {
    hide Exp;
    if i >= 255 {
      ExpModulo(i - 255);
      ExpPeriod(i - 255);
      assert (i - 255) % 255 == i % 255;
    }
  }

  lemma {:induction false} ExpCancel(i: nat, n: nat)
    requires Exp(i) == Exp(i + n)
    ensures Exp(n) == 1
  {
    hide Exp;
    ExpStart();
    if i > 0 {
      ExpStep(i - 1);
      ExpStep(i - 1 + n);
      XTimeInjective(Exp(i - 1), Exp(i - 1 + n));
      ExpCancel(i - 1, n);
    }
  }

  lemma {:induction false} ExpInjective(i: nat, j: nat)
    requires i < 255 && j < 255 && Exp(i) == Exp(j)
    ensures i == j
  {
    hide Exp;
    if i < j {
      ExpCancel(i, j - i);
      AlphaIsPrimitive(j - i);
    } else if j < i {
      ExpCancel(j, i - j);
      AlphaIsPrimitive(i - j);
    }
  }

  function ExpAsInt(i: nat): int
  {
    Exp(i) as int
  }

  /** The first n powers, as numbers. */
  ghost function Powers(n: nat): set<int>
  {
    if n == 0 then {} else Powers(n - 1) + {ExpAsInt(n - 1)}
  }

  ghost function Range(n: nat): set<int>
  {
    if n == 0 then {} else Range(n - 1) + {n}
  }

  lemma {:induction false} RangeContents(n: nat)
    ensures |Range(n)| == n
    ensures forall x :: x in Range(n) <==> 1 <= x <= n
  {
    if n > 0 {
      RangeContents(n - 1);
    }
  }

  lemma {:induction false} PowersContents(n: nat)
    ensures forall x :: x in Powers(n) ==> 1 <= x <= 255
    ensures forall x :: x in Powers(n) ==> exists i: nat :: i < n && ExpAsInt(i) == x
  {
    hide Exp;
    if n > 0 {
      PowersContents(n - 1);
      ExpNonZero(n - 1);
      ByteInjective(Exp(n - 1), 0);
    }
  }

  lemma {:induction false} PowersCount(n: nat)
    requires n <= 255
    ensures |Powers(n)| == n
  {
    hide Exp;
    if n > 0 {
      PowersCount(n - 1);
      PowersContents(n - 1);
      if ExpAsInt(n - 1) in Powers(n - 1) {
        var i: nat :| i < n - 1 && ExpAsInt(i) == ExpAsInt(n - 1);
        ByteInjective(Exp(i), Exp(n - 1));
        ExpInjective(i, n - 1);
        assert false;
      }
    }
  }

  lemma PowersCover(n: nat) returns (all: set<int>)
    requires n == 255
    ensures all == Powers(n) && forall x :: 1 <= x <= 255 ==> x in all
  {
    hide Powers, Range;
    all := Powers(n);
    PowersContents(n);
    PowersCount(n);
    RangeContents(n);
    forall x | x in all ensures x in Range(n) {
    }
    SubsetOfEqualSize(all, Range(n));
  }

  /** 255 different powers and 255 non-zero bytes: every non-zero byte is a power of alpha. */
  lemma ExpSurjective(a: Gf)
    requires a != 0
    ensures exists i: nat :: i < 255 && Exp(i) == a
  {
    hide Exp, Powers, Range;
    var all := PowersCover(255);
    PowersContents(255);
    ByteInjective(a, 0);
    assert a as int in all;
    var i: nat :| i < 255 && ExpAsInt(i) == a as int;
    ByteInjective(a, Exp(i));
  }

  lemma SubsetOfEqualSize(a: set<int>, b: set<int>)
    requires a <= b && |a| == |b|
    ensures a == b
  {
    assert b == a + (b - a);
    assert |b - a| == 0;
  }

  /* ---------------------------------------------------------------- multiplication */

  /** The discrete logarithm: the table gf_log away from zero. */
  function Log(a: Gf): (i: nat)
    requires a != 0
    ensures i < 255 && Exp(i) == a
  {
    ExpSurjective(a);
    LogFrom(a, 0)
  }

  function LogFrom(a: Gf, start: nat): (i: nat)
    requires exists j: nat :: start <= j < 255 && Exp(j) == a
    ensures i < 255 && Exp(i) == a
    decreases 255 - start
  {
    if Exp(start) == a then start else LogFrom(a, start + 1)
  }

  function Mul(a: Gf, b: Gf): Gf
  {
    if a == 0 || b == 0 then 0 else Exp((Log(a) + Log(b)) % 255)
  }

  function Inv(a: Gf): Gf
    requires a != 0
  {
    Exp((255 - Log(a)) % 255)
  }

  /** An entry of the table of inverses; 0 has no inverse and gets 0. */
  function InverseEntry(a: Gf): Gf
  {
    if a == 0 then 0 else Inv(a)
  }

  lemma LogExp(i: nat)
    requires Exp(i) != 0
    ensures Log(Exp(i)) == i % 255
  {
    hide *;
    ExpModulo(i);
    ExpInjective(Log(Exp(i)), i % 255);
  }

  lemma MulComm(a: Gf, b: Gf)
    ensures Mul(a, b) == Mul(b, a)
  {
    hide Exp, Log;
  }

  lemma MulExp(i: nat, j: nat)
    ensures Mul(Exp(i), Exp(j)) == Exp(i + j)
  {
    hide Exp, Log;
    ExpNonZero(i);
    ExpNonZero(j);
    LogExp(i);
    LogExp(j);
    assert (i % 255 + j % 255) % 255 == (i + j) % 255;
    ExpModulo(i + j);
  }

  lemma MulAssoc(a: Gf, b: Gf, c: Gf)
    ensures Mul(Mul(a, b), c) == Mul(a, Mul(b, c))
  {
    if a == 0 || b == 0 || c == 0 {
      hide Exp, Log;
    } else {
      hide *;
      var i, j, k := Log(a), Log(b), Log(c);
      MulExp(i, j);
      MulExp(i + j, k);
      MulExp(j, k);
      MulExp(i, j + k);
      assert i + j + k == i + (j + k);
    }
  }

  lemma MulZero(a: Gf)
    ensures Mul(a, 0) == 0 && Mul(0, a) == 0
  {
  }

  lemma MulNonZero(a: Gf, b: Gf)
    requires a != 0 && b != 0
    ensures Mul(a, b) != 0
  {
    hide Exp, Log;
    ExpNonZero((Log(a) + Log(b)) % 255);
  }

  lemma MulOne(a: Gf)
    ensures Mul(a, 1) == a && Mul(1, a) == a
  {
    hide Exp, Log;
    MulComm(a, 1);
    ExpStart();
    if a != 0 {
      hide *;
      MulExp(Log(a), 0);
    }
  }

  lemma InvMul(a: Gf)
    requires a != 0
    ensures Inv(a) != 0 && Mul(Inv(a), a) == 1 && Mul(a, Inv(a)) == 1
  {
    hide Exp, Log, Mul;
    var i := Log(a);
    ExpModulo(255 - i);
    ExpNonZero(255 - i);
    MulExp(255 - i, i);
    MulComm(a, Inv(a));
    AlphaIsPrimitive(0);
  }

  lemma MulByPower(i: nat, a: Gf)
    ensures Mul(Exp(i), a) == Shift(i, a)
  {
    hide *;
    if a == 0 {
      ShiftZero(i);
      MulZero(Exp(i));
    } else {
      MulExp(i, Log(a));
      ShiftExp(i, Log(a));
    }
  }

  lemma Distribute(a: Gf, b: Gf, c: Gf)
    ensures Mul(a, Add(b, c)) == Add(Mul(a, b), Mul(a, c))
    ensures Mul(Add(b, c), a) == Add(Mul(b, a), Mul(c, a))
  {
    hide *;
    MulComm(a, Add(b, c));
    MulComm(a, b);
    MulComm(a, c);
    if a == 0 {
      MulZero(b);
      MulZero(c);
      MulZero(Add(b, c));
      AddZero(0);
    } else {
      MulByPower(Log(a), b);
      MulByPower(Log(a), c);
      MulByPower(Log(a), Add(b, c));
      ShiftLinear(Log(a), b, c);
    }
  }
}
