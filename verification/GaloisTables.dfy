// The lookup tables of lib/libfec.c, filled in place the way generate_gf and init_mul_table fill
// them, and proved to hold the field operations of GaloisField.

module GaloisTables {
  import opened GaloisField

  /** Pp for eight bits: the primitive polynomial, lowest coefficient first. */
  const PP: string := "101110001"

  predicate Coefficient(i: nat)
    requires i <= 8
  {
    PP[i] == '1'
  }

  /** x % 255 without a divide: 256 and 1 agree modulo 255. */
  method ModNN(start: nat) returns (x: nat)
    ensures x == start % 255
  {
    x := start;
    while x >= 255
      invariant x % 255 == start % 255
      decreases x
    {
      x := x - 255;
      ghost var q, r := x / 256, x % 256;
      assert x == 255 * q + (q + r);
      x := x / 256 + x % 256;
    }
  }

  /** XTime as generate_gf computes it: by comparison with the top bit. */
  lemma XTimeByComparison(a: Gf)
    ensures XTime(a) == if a >= 128 then 29 ^ ((a ^ 128) << 1) else a << 1
  {
  }

  lemma NextByte(a: Gf)
    requires a != 255
    ensures (a + 1) as int == a as int + 1
  {
  }

  lemma IntOfByte(a: Gf)
    ensures 0 <= a as int < 256 && (a as int) as Gf == a
  {
  }

  ghost function NthByte(i: nat): (a: Gf)
    requires i < 256
    ensures a as int == i
  {
    if i == 0 then 0 else
      var a := NthByte(i - 1);
      NextByte(a);
      a + 1
  }

  lemma ByteOfInt(i: int)
    requires 0 <= i < 256
    ensures (i as Gf) as int == i
  {
    IntOfByte(NthByte(i));
  }

  class Tables {
    const gfExp: array<Gf>
    const gfLog: array<int>
    const inverse: array<Gf>
    const gfMul: array2<Gf>

    ghost predicate Allocated()
    {
      && gfExp.Length == 510 && gfLog.Length == 256 && inverse.Length == 256
      && gfMul.Length0 == 256 && gfMul.Length1 == 256
      && gfExp != inverse
      && gfLog as object != gfExp && gfLog as object != inverse
    }

    ghost predicate LogsUpTo(n: nat)
      requires Allocated()
      reads gfLog
    {
      forall j: nat :: j < n ==> gfLog[Exp(j) as int] == j
    }

    /** Everything generate_gf promises: exponent, logarithm and inverse of every element. */
    ghost predicate FieldReady()
      requires Allocated()
      reads gfExp, gfLog, inverse
    {
      && (forall i :: 0 <= i < 510 ==> gfExp[i] == Exp(i))
      && gfLog[0] == 255
      && (forall a: Gf :: a != 0 ==> gfLog[a as int] == Log(a))
      && (forall a: Gf :: inverse[a as int] == InverseEntry(a))
    }

    ghost predicate MulReady()
      requires Allocated()
      reads gfMul
    {
      forall a: Gf, b: Gf :: gfMul[a as int, b as int] == Mul(a, b)
    }

    ghost predicate Ready()
      reads gfExp, gfLog, inverse, gfMul
    {
      Allocated() && FieldReady() && MulReady()
    }

    /** The tables are not among these objects. */
    ghost predicate Outside(s: set<object>)
    {
      gfExp !in s && gfLog !in s && inverse !in s && gfMul !in s
    }

    /** gf_mul() */
    function Times(a: Gf, b: Gf): (r: Gf)
      requires Ready()
      reads gfExp, gfLog, inverse, gfMul
      ensures r == Mul(a, b)
    {
      IntOfByte(a);
      IntOfByte(b);
      gfMul[a as int, b as int]
    }

    function InverseOf(a: Gf): (r: Gf)
      requires Ready()
      reads gfExp, gfLog, inverse, gfMul
      ensures r == InverseEntry(a)
    {
      IntOfByte(a);
      inverse[a as int]
    }

    function Power(i: nat): (r: Gf)
      requires Ready() && i < 510
      reads gfExp, gfLog, inverse, gfMul
      ensures r == Exp(i)
    {
      gfExp[i]
    }

    constructor ()
      ensures Allocated()
      ensures fresh(gfExp) && fresh(gfLog) && fresh(inverse) && fresh(gfMul)
    {
      gfExp := new Gf[510];
      gfLog := new int[256];
      inverse := new Gf[256];
      gfMul := new Gf[256, 256];
    }

    /** gf_exp[i] = 2^i for the first eight powers, while gf_exp[8] collects alpha^8. */
    method FillLowPowers()
      requires Allocated()
      modifies gfExp, gfLog
      ensures forall i :: 0 <= i <= 8 ==> gfExp[i] == Exp(i)
      ensures LogsUpTo(9)
    {
      CollectedStart();
      gfExp[8] := 0;
      assert LowPowers(0);
      hide Exp, Bit, Collected, LowPowers, LogsUpTo;
      var mask: Gf := 1;
      for i := 0 to 8
        invariant mask == Bit(i) && LowPowers(i)
      {
        mask := StoreLowPower(i, mask);
      }
      FinishLowPowers();
    }

    ghost predicate LowPowers(n: nat)
      requires Allocated() && n <= 8
      reads gfExp, gfLog
    {
      (forall j :: 0 <= j < n ==> gfExp[j] == Exp(j)) && gfExp[8] == Collected(n) && LogsUpTo(n)
    }

    method StoreLowPower(i: nat, mask: Gf) returns (next: Gf)
      requires Allocated() && i < 8 && mask == Bit(i) && LowPowers(i)
      modifies gfExp, gfLog
      ensures next == Bit(i + 1) && LowPowers(i + 1)
    {
      hide Exp, Bit, Collected, LogsUpTo, Coefficient;
      CollectedStep(i);
      gfExp[i] := mask;
      AppendLog(i);
      if Coefficient(i) {
        gfExp[8] := gfExp[8] ^ mask;
      }
      next := mask << 1;
    }

    method FinishLowPowers()
      requires Allocated() && LowPowers(8)
      modifies gfLog
      ensures forall i :: 0 <= i <= 8 ==> gfExp[i] == Exp(i)
      ensures LogsUpTo(9)
    {
      hide Exp, LogsUpTo, Collected;
      AlphaToTheEighth();
      AppendLog(8);
    }

    /** gf_log[gf_exp[i]] = i keeps the earlier logarithms, because the powers differ. */
    method AppendLog(i: nat)
      requires Allocated() && i < 255 && gfExp[i] == Exp(i) && LogsUpTo(i)
      modifies gfLog
      ensures LogsUpTo(i + 1)
    {
      hide Exp;
      gfLog[gfExp[i] as int] := i;
      forall j: nat | j < i ensures gfLog[Exp(j) as int] == j {
        if Exp(j) as int == Exp(i) as int {
          ByteInjective(Exp(j), Exp(i));
          ExpInjective(j, i);
          assert false;
        }
      }
    }

    /** The remaining powers: shift the previous one and fold in alpha^8 on overflow. */
    method FillHighPowers()
      requires Allocated()
      requires forall i :: 0 <= i <= 8 ==> gfExp[i] == Exp(i)
      requires LogsUpTo(9)
      modifies gfExp, gfLog
      ensures forall i :: 0 <= i < 255 ==> gfExp[i] == Exp(i)
      ensures LogsUpTo(255)
    {
      hide Exp, XTime;
      var mask: Gf := 1 << 7;
      AlphaToTheEighth();
      for i := 9 to 255
        invariant gfExp[8] == 29
        invariant forall j :: 0 <= j < i ==> gfExp[j] == Exp(j)
        invariant LogsUpTo(i)
      {
        ExpStep(i - 1);
        XTimeByComparison(gfExp[i - 1]);
        gfExp[i] := if gfExp[i - 1] >= mask then gfExp[8] ^ ((gfExp[i - 1] ^ mask) << 1) else gfExp[i - 1] << 1;
        AppendLog(i);
      }
    }

    /** log(0) gets a special value, and gf_exp is doubled so that products need no reduction. */
    method FinishPowers()
      requires Allocated()
      requires forall i :: 0 <= i < 255 ==> gfExp[i] == Exp(i)
      requires LogsUpTo(255)
      modifies gfExp, gfLog
      ensures forall i :: 0 <= i < 510 ==> gfExp[i] == Exp(i)
      ensures gfLog[0] == 255
      ensures forall a: Gf :: a != 0 ==> gfLog[a as int] == Log(a)
    {
      hide Exp, XTime, Log;
      gfLog[0] := 255;
      forall a: Gf | a != 0 ensures gfLog[a as int] == Log(a) {
        ByteInjective(a, 0);
        assert old(gfLog[Exp(Log(a)) as int]) == Log(a);
      }
      for i := 0 to 255
        modifies gfExp
        invariant forall j :: 0 <= j < 255 + i ==> gfExp[j] == Exp(j)
      {
        ExpPeriod(i);
        gfExp[i + 255] := gfExp[i];
      }
    }

    method FillInverses()
      requires Allocated()
      requires forall i :: 0 <= i < 510 ==> gfExp[i] == Exp(i)
      requires forall a: Gf :: a != 0 ==> gfLog[a as int] == Log(a)
      modifies inverse
      ensures forall a: Gf :: inverse[a as int] == InverseEntry(a)
    {
      hide Exp, XTime, Log, Inv;
      inverse[0] := 0;
      inverse[1] := 1;
      InvByLog(1);
      for i := 2 to 256
        invariant inverse[0] == 0 && forall j :: 1 <= j < i ==> inverse[j] == Inv(j as Gf)
      {
        ByteOfInt(i);
        InvByLog(i as Gf);
        assert gfLog[(i as Gf) as int] == Log(i as Gf);
        inverse[i] := gfExp[255 - gfLog[i]];
      }
      forall a: Gf ensures inverse[a as int] == InverseEntry(a) {
        IntOfByte(a);
        ByteInjective(a, 0);
      }
    }

    method GenerateGf()
      requires Allocated()
      modifies gfExp, gfLog, inverse
      ensures FieldReady()
    {
      FillLowPowers();
      FillHighPowers();
      FinishPowers();
      FillInverses();
    }

    /** The product table: exponents add modulo 255, then row and column 0 are cleared. */
    method InitMulTable()
      requires Allocated() && FieldReady()
      modifies gfMul
      ensures MulReady()
    {
      hide Exp, Log, Mul, FieldReady;
      for i := 0 to 256
        invariant forall a, b :: 1 <= a < i && 1 <= b < 256 ==> gfMul[a, b] == Product(a, b)
      {
        for j := 0 to 256
          invariant forall a, b :: 1 <= a < i && 1 <= b < 256 ==> gfMul[a, b] == Product(a, b)
          invariant forall b :: 1 <= b < j && 1 <= i ==> gfMul[i, b] == Product(i, b)
        {
          gfMul[i, j] := ProductByLogs(i, j);
        }
      }
      for j := 0 to 256
        invariant forall a, b :: 1 <= a < 256 && 1 <= b < 256 ==> gfMul[a, b] == Product(a, b)
        invariant forall b :: 0 <= b < j ==> gfMul[0, b] == 0 && gfMul[b, 0] == 0
      {
        gfMul[j, 0] := 0;
        gfMul[0, j] := 0;
      }
      TableIsMul();
    }

    /** init_fec() */
    method Init()
      requires Allocated()
      modifies gfExp, gfLog, inverse, gfMul
      ensures Ready()
    {
      hide FieldReady, MulReady;
      GenerateGf();
      InitMulTable();
    }

    lemma TableIsMul()
      requires Allocated()
      requires forall a, b :: 1 <= a < 256 && 1 <= b < 256 ==> gfMul[a, b] == Product(a, b)
      requires forall b :: 0 <= b < 256 ==> gfMul[0, b] == 0 && gfMul[b, 0] == 0
      ensures MulReady()
    {
      hide Mul;
      forall a: Gf, b: Gf ensures gfMul[a as int, b as int] == Mul(a, b) {
        IntOfByte(a);
        IntOfByte(b);
        MulZero(a);
        MulZero(b);
      }
    }

    method ProductByLogs(i: nat, j: nat) returns (p: Gf)
      requires Allocated() && FieldReady() && i < 256 && j < 256
      ensures i != 0 && j != 0 ==> p == Product(i, j)
    {
      hide Exp, Log;
      ByteOfInt(i);
      ByteOfInt(j);
      assert i != 0 ==> gfLog[(i as Gf) as int] == Log(i as Gf);
      assert j != 0 ==> gfLog[(j as Gf) as int] == Log(j as Gf);
      var e := ModNN(gfLog[i] + gfLog[j]);
      p := gfExp[e];
    }
  }

  /** The product of two elements given by their byte values. */
  function Product(a: int, b: int): Gf
    requires 0 <= a < 256 && 0 <= b < 256
  {
    Mul(a as Gf, b as Gf)
  }

  /** 1 shifted left i times, in eight bits. */
  function Bit(i: nat): Gf
  {
    if i == 0 then 1 else Bit(i - 1) << 1
  }

  /** The part of alpha^8 that the first n coefficients of the polynomial contribute. */
  function Collected(n: nat): Gf
    requires n <= 8
  {
    if n == 0 then 0 else if Coefficient(n - 1) then Collected(n - 1) ^ Bit(n - 1) else Collected(n - 1)
  }

  lemma CollectedStart()
    ensures Bit(0) == 1 && Collected(0) == 0
  {
  }

  lemma CollectedStep(i: nat)
    requires i < 8
    ensures Bit(i) == Exp(i) && Bit(i + 1) == Bit(i) << 1
    ensures Collected(i + 1) == if Coefficient(i) then Collected(i) ^ Bit(i) else Collected(i)
  {
    assert Bit(i + 1) == Bit(i) << 1;
    LowPower(i);
  }

  lemma {:induction false} LowPower(i: nat)
    requires i < 8
    ensures Exp(i) == Bit(i)
    ensures Bit(i) == if i < 4 then (if i < 2 then (if i == 0 then 1 else 2) else (if i == 2 then 4 else 8))
                      else (if i < 6 then (if i == 4 then 16 else 32) else (if i == 6 then 64 else 128))
  {
    if i > 0 {
      LowPower(i - 1);
    }
  }

  lemma AlphaToTheEighth()
    ensures Exp(8) == Collected(8) == 29
  {
    assert Collected(8) == Collected(5) by {
      assert Collected(7) == Collected(6) == Collected(5);
    }
    assert Collected(3) == Bit(0) ^ Bit(2);
    LowPower(0);
    LowPower(2);
    LowPower(3);
    LowPower(4);
    LowPower(7);
    ExpStep(7);
  }

  lemma InvByLog(a: Gf)
    requires a != 0
    ensures Inv(a) == Exp(255 - Log(a))
    ensures a == 1 ==> Inv(a) == 1
  {
    hide Exp, Log;
    ExpModulo(255 - Log(a));
    ExpStart();
    if a == 1 {
      ExpInjective(Log(a), 0);
    }
  }
}
