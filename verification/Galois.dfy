/**
 * The field GF(256) behind the QR error correction: bytes are polynomials over
 * GF(2) of degree below 8, multiplied modulo x^8 + x^4 + x^3 + x^2 + 1.
 */
module Galois {
  import opened Gf2
  import Sets

  type Byte = x: nat | x < 256

  const PRIMITIVE: nat := 285

  function Add(x: Byte, y: Byte): Byte {
    AddCloses(x, y);
    Xor(x, y)
  }

  lemma BytePowers()
    ensures Pow2(7) == 128 && Pow2(8) == 256 && Pow2(9) == 512
  {
  }

  lemma AddCloses(x: Byte, y: Byte)
    ensures Xor(x, y) < 256
  {
    BytePowers();
    XorBelow(x, y, 8);
  }

  /** Multiplication by alpha, the element x. */
  function Xtime(x: Byte): Byte {
    if x < 128 then 2 * x
    else
      XtimeCloses(x);
      Xor(2 * x, PRIMITIVE)
  }

  lemma ByteLength(x: nat)
    ensures BitLength(x) <= 7 <==> x < 128
    ensures BitLength(x) <= 8 <==> x < 256
    ensures BitLength(x) <= 9 <==> x < 512
  {
    BytePowers();
    BitLengthFits(x, 7);
    BitLengthFits(x, 8);
    BitLengthFits(x, 9);
  }

  lemma XtimeCloses(x: Byte)
    requires x >= 128
    ensures Xor(2 * x, PRIMITIVE) < 256
  {
    hide Xor, BitLength;
    ByteLength(2 * x);
    ByteLength(PRIMITIVE);
    LeadingTermCancels(2 * x, PRIMITIVE);
    ByteLength(Xor(2 * x, PRIMITIVE));
  }

  lemma TopBitAdds(u: Byte, v: Byte)
    ensures Add(u, v) >= 128 <==> ((u >= 128) != (v >= 128))
  {
    hide Xor, BitLength, Pow2;
    BytePowers();
    if u < 128 && v < 128 {
      XorBelow(u, v, 7);
    } else if u >= 128 && v >= 128 {
      ByteLength(u);
      ByteLength(v);
      LeadingTermCancels(u, v);
      ByteLength(Xor(u, v));
    } else if Xor(u, v) < 128 {
      XorCancels(u, v);
      XorCancels(v, u);
      if v < 128 {
        XorBelow(Xor(u, v), v, 7);
      } else {
        XorBelow(u, Xor(u, v), 7);
      }
    }
  }

  lemma XtimeLinear(u: Byte, v: Byte)
    ensures Xtime(Add(u, v)) == Add(Xtime(u), Xtime(v))
  {
    hide Xor;
    TopBitAdds(u, v);
    XorDouble(u, v);
    var top := PRIMITIVE;
    if u >= 128 && v >= 128 {
      XorSwaps(2 * u, top, 2 * v, top);
      XorSelf(top);
      XorZero(Xor(2 * u, 2 * v));
    } else if u >= 128 {
      XorAssociates(2 * u, top, 2 * v);
      XorCommutes(top, 2 * v);
      XorAssociates(2 * u, 2 * v, top);
    } else if v >= 128 {
      XorAssociates(2 * u, 2 * v, top);
    }
  }

  lemma XtimeInjective(u: Byte, v: Byte)
    requires Xtime(u) == Xtime(v)
    ensures u == v
  {
    if u != v {
      XorNonzero(u, v);
      XtimeLinear(u, v);
      XorSelf(Xtime(u));
      XtimeNonzero(Add(u, v));
    }
  }

  lemma XtimeNonzero(x: Byte)
    requires x != 0
    ensures Xtime(x) != 0
  {
    if x >= 128 && Xtime(x) == 0 {
      XorCancels(2 * x, PRIMITIVE);
      XorZero(PRIMITIVE);
    }
  }

  /** Multiplication by alpha^i. */
  function Shift(v: Byte, i: nat): Byte {
    if i == 0 then v else Xtime(Shift(v, i - 1))
  }

  lemma {:induction false} ShiftLinear(u: Byte, v: Byte, i: nat)
    ensures Shift(Add(u, v), i) == Add(Shift(u, i), Shift(v, i))
  {
    if i > 0 {
      hide Xtime, Add;
      ShiftLinear(u, v, i - 1);
      XtimeLinear(Shift(u, i - 1), Shift(v, i - 1));
    }
  }

  lemma {:induction false} ShiftZero(i: nat)
    ensures Shift(0, i) == 0
  {
    if i > 0 {
      ShiftZero(i - 1);
    }
  }

  lemma {:induction false} ShiftAdds(v: Byte, i: nat, j: nat)
    ensures Shift(Shift(v, i), j) == Shift(v, i + j)
  {
    if j > 0 {
      hide Xtime;
      ShiftAdds(v, i, j - 1);
    }
  }

  lemma {:induction false} ShiftInjective(u: Byte, v: Byte, i: nat)
    requires Shift(u, i) == Shift(v, i)
    ensures u == v
  {
    if i > 0 {
      hide Xtime;
      XtimeInjective(Shift(u, i - 1), Shift(v, i - 1));
      ShiftInjective(u, v, i - 1);
    }
  }

  /** alpha^i. */
  function Power(i: nat): (r: Byte) {
    Shift(1, i)
  }

  lemma PowerNonzero(i: nat)
    ensures Power(i) != 0
  {
    if Power(i) == 0 {
      ShiftZero(i);
      ShiftInjective(1, 0, i);
    }
  }

  // The multiplicative order of alpha is 255.

  /** `Xtime` in plain arithmetic: doubling, then toggling bits 0, 2, 3 and 4. */
  function Doubled(x: Byte): int {
    if x < 128 then 2 * x else 2 * x - 227 - x / 2 % 8 * 8
  }

  lemma ToggleLowBits(z: nat)
    ensures Xor(z, 7) == z + 7 - 2 * (z % 8)
  {
    hide Xor;
    XorZero(z / 8);
    XorHalves(z / 4, 1);
    XorHalves(z / 2, 3);
    XorHalves(z, 7);
  }

  lemma ClearTopBit(z: nat)
    requires 64 <= z < 128
    ensures Xor(z, 71) == Xor(z - 64, 7)
  {
    assert Shl(1, 6) == 64 == Pow2(6);
    DisjointBits(1, z - 64, 6);
    DisjointBits(1, 7, 6);
    hide Xor;
    XorSwaps(64, z - 64, 64, 7);
    XorSelf(64);
    XorZero(Xor(z - 64, 7));
  }

  lemma XorHalvesOf(x: nat, y: nat, x': nat, y': nat)
    requires x / 2 == x' && y / 2 == y'
    ensures Xor(x, y) == 2 * Xor(x', y') + if x % 2 == y % 2 then 0 else 1
  {
    hide Xor;
    XorHalves(x, y);
  }

  lemma XtimeDoubles(x: Byte)
    ensures Xtime(x) == Doubled(x)
  {
    if x >= 128 {
      hide Xor;
      var z := x / 2;
      XorHalvesOf(2 * x, PRIMITIVE, x, 142);
      XorHalvesOf(x, 142, z, 71);
      ClearTopBit(z);
      ToggleLowBits(z - 64);
      assert (z - 64) % 8 == z % 8;
    }
  }

  lemma PowersTo8()
    ensures Power(0) == 1 && Power(1) == 2 && Power(3) == 8 && Power(5) == 32 && Power(7) == 128 && Power(8) == 29
  {
    assert Power(0) == 1;
    hide Power;
    OrbitEnds(0, [1, 2]);
    OrbitEnds(1, [2, 4, 8]);
    OrbitEnds(3, [8, 16, 32]);
    OrbitEnds(5, [32, 64, 128]);
    OrbitEnds(7, [128, 29]);
  }

  lemma PowersTo15()
    ensures Power(10) == 116 && Power(11) == 232 && Power(12) == 205 && Power(13) == 135 && Power(15) == 38
  {
    hide Power;
    PowersTo8();
    OrbitEnds(8, [29, 58, 116]);
    OrbitEnds(10, [116, 232]);
    OrbitEnds(11, [232, 205]);
    OrbitEnds(12, [205, 135]);
    OrbitEnds(13, [135, 19, 38]);
  }

  lemma PowerOf25()
    ensures Power(25) == 3
  {
    hide Power;
    PowersTo15();
    OrbitEnds(15, [38, 76, 152, 45, 90, 180]);
    OrbitEnds(20, [180, 117, 234, 201, 143, 3]);
  }

  predicate IsOrbit(s: seq<Byte>) {
    forall k | 0 < k < |s| :: s[k] == Doubled(s[k - 1])
  }

  lemma {:induction false} OrbitEnds(i: nat, s: seq<Byte>)
    requires |s| > 0 && s[0] == Power(i) && IsOrbit(s)
    ensures Power(i + |s| - 1) == s[|s| - 1]
  {
    if |s| > 1 {
      hide Xtime, Doubled;
      OrbitEnds(i, s[..|s| - 1]);
      XtimeDoubles(s[|s| - 2]);
      assert s[|s| - 1] == Doubled(s[|s| - 2]);
    }
  }

  /** alpha^25 == alpha + 1, so a step of 25 is a sum of two nearby powers. */
  lemma PowerPlus25(j: nat)
    ensures Power(j + 25) == Add(Power(j + 1), Power(j))
  {
    PowersTo8();
    PowerOf25();
    assert Add(2, 1) == 3 by {
      DisjointBits(1, 1, 1);
    }
    hide Add;
    ShiftAdds(1, 25, j);
    ShiftAdds(1, 1, j);
    ShiftLinear(2, 1, j);
  }

  /** Squaring the relation for `step`: alpha^(2 step) == alpha^(2 span) + 1. */
  lemma PowerPlusTwice(j: nat, step: nat, span: nat)
    requires forall i: nat :: Power(i + step) == Add(Power(i + span), Power(i))
    ensures Power(j + 2 * step) == Add(Power(j + 2 * span), Power(j))
  {
    hide Add, Shift, Power;
    assert Power((j + step) + step) == Add(Power((j + step) + span), Power(j + step));
    assert Power((j + span) + step) == Add(Power((j + span) + span), Power(j + span));
    assert Power(j + step) == Add(Power(j + span), Power(j));
    AddCancelsMiddle(Power(j + 2 * span), Power(j + span), Power(j));
  }

  lemma AddCancelsMiddle(x: Byte, y: Byte, z: Byte)
    ensures Add(Add(x, y), Add(y, z)) == Add(x, z)
  {
    hide Xor;
    XorAssociates(x, y, Xor(y, z));
    XorCancels(z, y);
    XorAssociates(y, y, z);
    XorSelf(y);
    XorZero(z);
  }

  lemma PowerRelations()
    ensures forall i: nat :: Power(i + 50) == Add(Power(i + 2), Power(i))
    ensures forall i: nat :: Power(i + 200) == Add(Power(i + 8), Power(i))
  {
    hide Add, Shift, Power;
    forall i: nat ensures Power(i + 25) == Add(Power(i + 1), Power(i)) {
      PowerPlus25(i);
    }
    forall i: nat ensures Power(i + 50) == Add(Power(i + 2), Power(i)) {
      PowerPlusTwice(i, 25, 1);
    }
    forall i: nat ensures Power(i + 100) == Add(Power(i + 4), Power(i)) {
      PowerPlusTwice(i, 50, 2);
    }
    forall i: nat ensures Power(i + 200) == Add(Power(i + 8), Power(i)) {
      PowerPlusTwice(i, 100, 4);
    }
  }

  lemma PowerOf255()
    ensures Power(255) == 1
  {
    hide Add, Shift, Power;
    PowerRelations();
    PowersTo8();
    PowersTo15();
    assert Power(55 + 200) == Add(Power(55 + 8), Power(55));
    assert Power(13 + 50) == Add(Power(15), Power(13));
    assert Power(5 + 50) == Add(Power(7), Power(5));
    SumsOf255();
  }

  lemma SumsOf255()
    ensures Add(Add(38, 135), Add(128, 32)) == 1
  {
    hide Xor;
    LeftSumOf255();
    RightSumOf255();
    XorHalves(161, 160);
    XorSelf(80);
  }

  lemma LeftSumOf255()
    ensures Xor(38, 135) == 161
  {
    hide Xor;
    XorHalves(38, 135);
    XorHalves(19, 67);
    XorHalves(9, 33);
    XorHalves(4, 16);
    XorHalves(2, 8);
    XorHalves(1, 4);
    XorZero(2);
  }

  lemma RightSumOf255()
    ensures Xor(128, 32) == 160
  {
    hide Xor;
    XorHalves(128, 32);
    XorHalves(64, 16);
    XorHalves(32, 8);
    XorHalves(16, 4);
    XorHalves(8, 2);
    XorHalves(4, 1);
    XorZero(2);
  }

  /** alpha^d != 1 for the maximal proper divisors d of 255: 15, 51 and 85. */
  lemma MaximalDivisors()
    ensures Power(15) != 1 && Power(51) != 1 && Power(85) != 1
  {
    hide Power;
    PowersTo15();
    PowerOf51();
    PowerOf85();
  }

  lemma PowerOf51()
    ensures Power(51) == 10
  {
    hide Power;
    PowersTo8();
    PowerRelations();
    assert Power(1 + 50) == Add(Power(3), Power(1));
    assert Shl(1, 3) == 8;
    DisjointBits(1, 2, 3);
  }

  /** A sum of four bytes below 128 exactly when an even number of them is. */
  lemma PowerOf85()
    ensures Power(85) >= 128
  {
    hide Add, Power;
    PowersTo15();
    PowerRelations();
    assert Power(35 + 50) == Add(Power(37), Power(35));
    PowerPlus25(12);
    PowerPlus25(10);
    TopBitAdds(135, 205);
    TopBitAdds(232, 116);
    TopBitAdds(Power(37), Power(35));
  }

  /** alpha^i == 1 is closed under differences, so Euclid's algorithm stays inside it. */
  lemma {:induction false} PeriodsMeet(a: nat, b: nat) returns (g: nat)
    requires a > 0 && b > 0 && Power(a) == 1 && Power(b) == 1
    ensures 0 < g <= a && g <= b && Power(g) == 1 && Multiple(a, g) && Multiple(b, g)
    decreases a + b
  {
    hide Power;
    if a == b {
      g := a;
      assert a == 1 * g;
    } else if a < b {
      PeriodDifference(a, b);
      g := PeriodsMeet(a, b - a);
      MultipleAdds(a, b - a, g);
    } else {
      PeriodDifference(b, a);
      g := PeriodsMeet(a - b, b);
      MultipleAdds(b, a - b, g);
    }
  }

  ghost predicate Multiple(n: nat, g: nat) {
    exists k: nat :: n == k * g
  }

  lemma MultipleAdds(m: nat, n: nat, g: nat)
    requires Multiple(m, g) && Multiple(n, g)
    ensures Multiple(m + n, g)
  {
    var j: nat, k: nat :| m == j * g && n == k * g;
    assert m + n == (j + k) * g;
  }

  lemma PeriodDifference(a: nat, b: nat)
    requires a < b && Power(a) == 1 && Power(b) == 1
    ensures Power(b - a) == 1
  {
    ShiftAdds(1, b - a, a);
    ShiftInjective(Power(b - a), 1, a);
  }

  lemma {:induction false} PeriodRepeats(g: nat, k: nat)
    requires Power(g) == 1
    ensures Power(k * g) == 1
  {
    if k == 0 {
      assert Power(0) == 1;
    } else {
      PeriodRepeats(g, k - 1);
      ShiftAdds(1, (k - 1) * g, g);
      assert (k - 1) * g + g == k * g;
    }
  }

  lemma ProductGrows(j: nat, k: nat, g: nat)
    requires j <= k
    ensures j * g <= k * g
  {
  }

  lemma ProperDivisorOf255(g: nat, k: nat)
    requires 255 == k * g && g < 255
    ensures g in {1, 3, 5, 15, 17, 51, 85}
  {
    if k <= 1 {
      ProductGrows(k, 1, g);
      assert false;
    }
    if g > 15 {
      if k > 15 {
        ProductGrows(16, k, g);
      }
      assert k in {2, 3, 4, 5, 6, 7, 8, 9, 10, 11, 12, 13, 14, 15};
    } else {
      assert g in {0, 1, 2, 3, 4, 5, 6, 7, 8, 9, 10, 11, 12, 13, 14, 15};
    }
  }

  lemma OrderIs255(d: nat)
    requires 0 < d < 255
    ensures Power(d) != 1
  {
    hide Power;
    if Power(d) == 1 {
      PowerOf255();
      var g := PeriodsMeet(d, 255);
      var k: nat :| 255 == k * g;
      ProperDivisorOf255(g, k);
      NoSmallPeriod(g);
    }
  }

  lemma NoSmallPeriod(g: nat)
    requires g in {1, 3, 5, 15, 17, 51, 85}
    ensures Power(g) != 1
  {
    hide Power;
    MaximalDivisors();
    if Power(g) == 1 {
      if g == 1 {
        PeriodRepeats(1, 15);
      } else if g == 3 {
        PeriodRepeats(3, 5);
      } else if g == 5 {
        PeriodRepeats(5, 3);
      } else if g == 17 {
        PeriodRepeats(17, 3);
      }
    }
  }

  lemma PowersDistinct(i: nat, j: nat)
    requires i < j < 255
    ensures Power(i) != Power(j)
  {
    if Power(i) == Power(j) {
      ShiftAdds(1, j - i, i);
      ShiftInjective(Power(j - i), 1, i);
      OrderIs255(j - i);
    }
  }

  // Logarithms. Every non-zero byte is exactly one power below 255.

  ghost predicate IsPower(y: Byte) {
    exists i: nat :: i < 255 && Power(i) == y
  }

  lemma {:induction false} PowersUpTo(n: nat) returns (s: set<Byte>)
    requires n <= 255
    ensures |s| == n
    ensures forall y :: y in s ==> y != 0 && exists i: nat :: i < n && Power(i) == y
  {
    if n == 0 {
      s := {};
    } else {
      hide Power;
      var t := PowersUpTo(n - 1);
      var p := Power(n - 1);
      forall i: nat | i < n - 1 ensures Power(i) != p {
        PowersDistinct(i, n - 1);
      }
      PowerNonzero(n - 1);
      s := t + {p};
    }
  }

  lemma SubsetOfSameSize<T>(s: set<T>, t: set<T>)
    requires s <= t && |s| == |t|
    ensures s == t
  {
    assert t == s + (t - s);
    assert |t| == |s| + |t - s|;
  }

  lemma LogExists(y: Byte)
    requires y != 0
    ensures IsPower(y)
  {
    hide Power;
    var s := PowersUpTo(255);
    var values: set<int> := s;
    Sets.IntervalSize(1, 256);
    SubsetOfSameSize(values, Sets.Interval(1, 256));
    assert y in values;
  }

  /** The discrete logarithm, the value `glog` looks up. */
  ghost function Log(y: Byte): (i: nat)
    requires y != 0
    ensures i < 255 && Power(i) == y
  {
    LogExists(y);
    var i: nat :| i < 255 && Power(i) == y;
    i
  }

  lemma LogOfPower(i: nat)
    requires i < 255
    ensures Power(i) != 0 && Log(Power(i)) == i
  {
    PowerNonzero(i);
    var j := Log(Power(i));
    if j < i {
      PowersDistinct(j, i);
    } else if i < j {
      PowersDistinct(i, j);
    }
  }

  /** alpha^i for any integer exponent, the value `gexp` returns. */
  function Exp(i: int): (r: Byte) {
    Power(i % 255)
  }

  lemma PowerMinus255(n: nat)
    requires n >= 255
    ensures Power(n) == Power(n - 255)
  {
    hide Power, Shift;
    PowerOf255();
    PowerAdds(255, n - 255);
    PowerIsShift(n - 255);
  }

  lemma {:induction false} PowerPeriodic(n: nat)
    ensures Power(n) == Exp(n)
  {
    hide Power, Shift;
    if n >= 255 {
      PowerMinus255(n);
      PowerPeriodic(n - 255);
      assert (n - 255) % 255 == n % 255;
    }
  }

  lemma PowerAdds(i: nat, j: nat)
    ensures Power(i + j) == Shift(Power(i), j)
  {
    ShiftAdds(1, i, j);
  }

  // Multiplication.

  ghost function Mul(x: Byte, y: Byte): Byte {
    if y == 0 then 0 else Shift(x, Log(y))
  }

  lemma MulZero(x: Byte)
    ensures Mul(x, 0) == 0 == Mul(0, x)
  {
    if x != 0 {
      ShiftZero(Log(x));
    }
  }

  /** The product that `multiply` and `mod` form through the tables. */
  lemma MulByLogs(x: Byte, y: Byte)
    requires x != 0 && y != 0
    ensures Mul(x, y) == Exp(Log(x) + Log(y)) != 0
  {
    hide Power, Shift;
    PowerAdds(Log(x), Log(y));
    PowerPeriodic(Log(x) + Log(y));
    PowerNonzero(Log(x) + Log(y));
  }

  lemma MulCommutes(x: Byte, y: Byte)
    ensures Mul(x, y) == Mul(y, x)
  {
    hide Mul;
    if x == 0 || y == 0 {
      MulZero(x);
      MulZero(y);
    } else {
      MulByLogs(x, y);
      MulByLogs(y, x);
    }
  }

  lemma MulAddsLeft(u: Byte, v: Byte, y: Byte)
    ensures Mul(Add(u, v), y) == Add(Mul(u, y), Mul(v, y))
  {
    hide Add;
    if y == 0 {
      AddZero(0);
    } else {
      ShiftLinear(u, v, Log(y));
    }
  }

  lemma MulAddsRight(x: Byte, u: Byte, v: Byte)
    ensures Mul(x, Add(u, v)) == Add(Mul(x, u), Mul(x, v))
  {
    hide Add, Mul;
    MulCommutes(x, Add(u, v));
    MulCommutes(x, u);
    MulCommutes(x, v);
    MulAddsLeft(u, v, x);
  }

  lemma ShiftsCommute(x: Byte, i: nat, j: nat)
    ensures Shift(Shift(x, i), j) == Shift(Shift(x, j), i)
  {
    ShiftAdds(x, i, j);
    ShiftAdds(x, j, i);
  }

  lemma MulAssociates(x: Byte, y: Byte, z: Byte)
    ensures Mul(Mul(x, y), z) == Mul(x, Mul(y, z))
  {
    if y == 0 || z == 0 {
      hide Mul;
      MulZero(x);
      MulZero(y);
      MulZero(z);
      MulZero(Mul(x, y));
    } else {
      hide Shift;
      MulCommutes(x, y);
      MulCommutes(x, Mul(y, z));
      MulCommutes(y, z);
      MulTwoShifts(x, y, z);
    }
  }

  lemma MulTwoShifts(x: Byte, y: Byte, z: Byte)
    requires y != 0 && z != 0
    ensures Shift(Shift(x, Log(y)), Log(z)) == Mul(x, Mul(y, z))
  {
    hide Shift, Power;
    MulByLogs(y, z);
    ShiftAdds(x, Log(y), Log(z));
    PowerPeriodic(Log(y) + Log(z));
    ShiftByLog(x, Log(y) + Log(z));
  }

  lemma ShiftByLog(x: Byte, n: nat)
    ensures Power(n) != 0 && Shift(x, n) == Mul(x, Power(n))
  {
    hide Shift, Power;
    PowerNonzero(n);
    var m := Log(Power(n));
    if x == 0 {
      ShiftZero(n);
      ShiftZero(m);
    } else {
      ShiftsCommute(1, Log(x), n);
      ShiftsCommute(1, Log(x), m);
      PowerIsShift(n);
      PowerIsShift(m);
      PowerIsShift(Log(x));
    }
  }

  lemma PowerIsShift(n: nat)
    ensures Power(n) == Shift(1, n)
  {
  }

  lemma MulOne(x: Byte)
    ensures Mul(x, 1) == x == Mul(1, x)
  {
    hide Mul, Shift;
    assert Power(0) == 1 by { PowersTo8(); }
    LogOfPower(0);
    MulOneRight(x);
    MulCommutes(1, x);
  }

  lemma MulOneRight(x: Byte)
    requires Log(1) == 0
    ensures Mul(x, 1) == x
  {
  }

  lemma MulNonzero(x: Byte, y: Byte)
    ensures Mul(x, y) == 0 <==> x == 0 || y == 0
  {
    hide Mul;
    if x == 0 || y == 0 {
      MulZero(x);
      MulZero(y);
    } else {
      MulByLogs(x, y);
    }
  }

  lemma AddZero(x: Byte)
    ensures Add(x, 0) == x == Add(0, x)
  {
    XorZero(x);
  }

  lemma AddSelf(x: Byte)
    ensures Add(x, x) == 0
  {
    XorSelf(x);
  }

  lemma AddCommutes(x: Byte, y: Byte)
    ensures Add(x, y) == Add(y, x)
  {
    XorCommutes(x, y);
  }

  lemma AddAssociates(x: Byte, y: Byte, z: Byte)
    ensures Add(Add(x, y), z) == Add(x, Add(y, z))
  {
    XorAssociates(x, y, z);
  }

  lemma ExpAdds(i: int, j: int)
    ensures Exp(i + j) == Mul(Exp(i), Exp(j))
  {
    hide Shift, Power;
    LogOfPower(i % 255);
    LogOfPower(j % 255);
    MulByLogs(Exp(i), Exp(j));
    assert (i % 255 + j % 255) % 255 == (i + j) % 255;
  }
}
