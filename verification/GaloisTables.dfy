/**
 * The logarithm and antilogarithm tables, filled once at load time, and the
 * two lookups. `glog(0)` throws in the encoder; here that is the precondition
 * of `Glog`, and every lookup of the encoder is proved to meet it.
 */
module GaloisTables {
  import opened Gf2
  import opened Galois

  datatype Tables = Tables(exp: seq<Byte>, log: seq<nat>) {
    ghost predicate Valid() {
      && |exp| == 256 && |log| == 256
      && (forall i: nat | i < 256 :: exp[i] == Power(i))
      && (forall y: Byte | y != 0 :: log[y] == Log(y))
    }
  }

  method BuildTables() returns (t: Tables)
    ensures t.Valid()
    ensures forall i | 0 <= i < 255 :: t.log[t.exp[i]] == i
    ensures forall y: Byte | y != 0 :: t.exp[t.log[y]] == y
  {
    hide Power, Shift, Xtime, Shl, Add;
    var exp := new Byte[256](i => 0);
    var log := new nat[256](i => 0);
    for h := 0 to 8
      invariant forall i: nat | i < h :: exp[i] == Power(i)
    {
      SmallPower(h);
      exp[h] := Shl(1, h);
    }
    for h := 8 to 256
      invariant forall i: nat | i < h :: exp[i] == Power(i)
    {
      PowerRecurrence(h);
      exp[h] := Add(Add(Add(exp[h - 4], exp[h - 5]), exp[h - 6]), exp[h - 8]);
    }
    ghost var filled := exp[..];
    for h := 0 to 255
      invariant exp[..] == filled
      invariant forall i: nat | i < h :: log[Power(i)] == i
    {
      forall i: nat | i < h ensures Power(i) != Power(h) {
        PowersDistinct(i, h);
      }
      log[exp[h]] := h;
    }
    t := Tables(exp[..], log[..]);
    forall y: Byte | y != 0 ensures t.log[y] == Log(y) {
      assert t.log[Power(Log(y))] == Log(y);
    }
    forall i: nat | i < 255 ensures t.log[t.exp[i]] == i {
      LogOfPower(i);
    }
  }

  lemma {:induction false} SmallPower(h: nat)
    requires h < 8
    ensures Shl(1, h) == Power(h) == [1, 2, 4, 8, 16, 32, 64, 128][h]
  {
    if h > 0 {
      SmallPower(h - 1);
    }
  }

  /** x^8 == x^4 + x^3 + x^2 + 1, multiplied by x^(h - 8). */
  lemma PowerRecurrence(h: nat)
    requires h >= 8
    ensures Power(h) == Add(Add(Add(Power(h - 4), Power(h - 5)), Power(h - 6)), Power(h - 8))
  {
    hide Shift, Xtime, Add, Power;
    var k := h - 8;
    LeadingSum();
    SmallPower(4);
    SmallPower(3);
    SmallPower(2);
    PowersTo8();
    ShiftedPower(8, k);
    ShiftedPower(4, k);
    ShiftedPower(3, k);
    ShiftedPower(2, k);
    ShiftedPower(0, k);
    ShiftLinear(Add(Add(16, 8), 4), 1, k);
    ShiftLinear(Add(16, 8), 4, k);
    ShiftLinear(16, 8, k);
  }

  lemma ShiftedPower(i: nat, k: nat)
    ensures Shift(Power(i), k) == Power(i + k)
  {
    ShiftAdds(1, i, k);
  }

  lemma LeadingSum()
    ensures Add(Add(Add(16, 8), 4), 1) == 29
  {
    assert Pow2(4) == 16 && Pow2(3) == 8 && Pow2(2) == 4;
    assert Shl(1, 4) == 16 && Shl(3, 3) == 24 && Shl(7, 2) == 28;
    DisjointBits(1, 8, 4);
    DisjointBits(3, 4, 3);
    DisjointBits(7, 1, 2);
  }

  method Glog(t: Tables, a: Byte) returns (n: nat)
    requires t.Valid() && a != 0
    ensures n == Log(a)
  {
    n := t.log[a];
  }

  method Gexp(t: Tables, a: int) returns (r: Byte)
    requires t.Valid()
    ensures r == Exp(a)
  {
    hide Power;
    var n := a;
    while 0 > n
      invariant n % 255 == a % 255
      invariant n < 0 || n < 255 || n == a
      decreases -n
    {
      n := n + 255;
    }
    while n >= 256
      invariant n >= 0 && n % 255 == a % 255
    {
      n := n - 255;
    }
    PowerPeriodic(n);
    r := t.exp[n];
  }

  // The link to plain polynomial arithmetic over GF(2).

  /** Splits off the remainder of a carry-less product by the field polynomial. */
  lemma {:induction false} ClmulReduces(q: nat, a: Byte) returns (t: nat, r: Byte)
    ensures Clmul(q, a) == Xor(Clmul(t, PRIMITIVE), r)
    ensures q < 256 ==> r == Mul(q, a)
  {
    hide Xor, Clmul, Mul, Xtime;
    ClmulHalves(q, a);
    if q == 0 {
      t, r := 0, 0;
      ClmulZero(a);
      ClmulZero(PRIMITIVE);
      XorZero(0);
      MulZero(a);
    } else {
      var t', r' := ClmulReduces(q / 2, a);
      var bit: Byte := if q % 2 == 1 then a else 0;
      r := Add(bit, Xtime(r'));
      t := ReduceDoubled(q / 2, a, t', r');
      var twice := Clmul(t, PRIMITIVE);
      XorCommutes(bit, Xtime(r'));
      XorAssociates(twice, Xtime(r'), bit);
      XorCommutes(bit, Xor(twice, Xtime(r')));
      if q < 256 {
        MulHalves(q, a);
      }
    }
  }

  lemma ClmulZero(g: nat)
    ensures Clmul(0, g) == 0
  {
  }

  lemma ReduceDoubled(h: nat, a: Byte, t: nat, r: Byte) returns (t': nat)
    requires Clmul(h, a) == Xor(Clmul(t, PRIMITIVE), r)
    ensures 2 * Clmul(h, a) == Xor(Clmul(t', PRIMITIVE), Xtime(r))
  {
    hide Xor, Clmul;
    var p := Clmul(t, PRIMITIVE);
    XorDouble(p, r);
    if r < 128 {
      t' := 2 * t;
      ClmulHalves(2 * t, PRIMITIVE);
      XorZero(2 * p);
    } else {
      t' := 2 * t + 1;
      ClmulHalves(2 * t + 1, PRIMITIVE);
      XorCommutes(PRIMITIVE, 2 * p);
      XorCancels(2 * r, PRIMITIVE);
      XorCommutes(PRIMITIVE, 2 * r);
      XorCommutes(2 * r, PRIMITIVE);
      XorAssociates(2 * p, PRIMITIVE, Xtime(r));
      XorCommutes(PRIMITIVE, Xtime(r));
    }
  }

  lemma MulHalves(q: Byte, a: Byte)
    ensures Mul(q, a) == Add(if q % 2 == 1 then a else 0, Xtime(Mul(q / 2, a)))
  {
    var h := q / 2;
    assert Shl(h, 1) == 2 * h == Xtime(h) && Pow2(1) == 2;
    DisjointBits(h, q % 2, 1);
    hide Add, Xtime, Mul;
    assert q == Add(Xtime(h), q % 2) by {
      assert Xor(2 * h, q % 2) == q;
    }
    MulAddsLeft(Xtime(h), q % 2, a);
    MulXtime(h, a);
    MulOne(a);
    MulZero(a);
    AddCommutes(Xtime(Mul(h, a)), if q % 2 == 1 then a else 0);
  }

  lemma MulXtime(h: Byte, a: Byte)
    ensures Mul(Xtime(h), a) == Xtime(Mul(h, a))
  {
    if a != 0 {
      ShiftsCommute(h, 1, Log(a));
      assert Shift(h, 1) == Xtime(h);
    }
  }

  /** The field product is the carry-less product modulo x^8 + x^4 + x^3 + x^2 + 1. */
  lemma MulIsClmulModulo(x: Byte, y: Byte)
    ensures IsRemainder(Mul(x, y), Clmul(x, y), 285)
    ensures x != 0 && y != 0 ==> IsRemainder(Exp(Log(x) + Log(y)), Clmul(x, y), 285)
  {
    hide Xor, Clmul, Mul, BitLength;
    var t, r := ClmulReduces(x, y);
    ByteLength(r);
    ByteLength(PRIMITIVE);
    if x != 0 && y != 0 {
      MulByLogs(x, y);
    }
  }
}
