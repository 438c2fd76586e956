/**
 * The BCH code words of the format and version information: sections 7.9 and
 * 7.10 of ISO/IEC 18004:2015. Numbers are polynomials over GF(2).
 */
module Bch {
  import opened Gf2

  const G15: nat := 1335
  const G18: nat := 7973
  const G15_MASK: nat := 21522

  method GetBCHDigit(n: nat) returns (b: nat)
    ensures b == BitLength(n)
  {
    var a := n;
    b := 0;
    while a != 0
      invariant b + BitLength(a) == BitLength(n)
      decreases a
    {
      b, a := b + 1, a / 2;
    }
  }

  /** The remainder of long division over GF(2), as the loops compute it. */
  function Remainder(p: nat, g: nat): nat
    requires g != 0
    decreases BitLength(p)
  {
    if BitLength(p) < BitLength(g) then p
    else
      StepShrinks(p, g);
      Remainder(Xor(p, Shl(g, BitLength(p) - BitLength(g))), g)
  }

  lemma StepShrinks(p: nat, g: nat)
    requires g != 0 && BitLength(p) >= BitLength(g)
    ensures BitLength(Xor(p, Shl(g, BitLength(p) - BitLength(g)))) < BitLength(p)
  {
    BitLengthShifts(g, BitLength(p) - BitLength(g));
    LeadingTermCancels(p, Shl(g, BitLength(p) - BitLength(g)));
  }

  /** The loop's result differs from its input by a multiple of g. */
  lemma {:induction false} RemainderDivides(p: nat, g: nat) returns (q: nat)
    requires g != 0
    ensures BitLength(Remainder(p, g)) < BitLength(g)
    ensures p == Xor(Clmul(q, g), Remainder(p, g))
    decreases BitLength(p)
  {
    hide Xor, Clmul, BitLength, Shl;
    if BitLength(p) < BitLength(g) {
      q := 0;
      ClmulNothing(g);
      XorZero(p);
    } else {
      var k := BitLength(p) - BitLength(g);
      StepShrinks(p, g);
      var next := Xor(p, Shl(g, k));
      var q' := RemainderDivides(next, g);
      q := Xor(q', Pow2(k));
      ClmulPower(k, g);
      ClmulDistributes(q', Pow2(k), g);
      var r := Remainder(next, g);
      var m := Clmul(q', g);
      XorCancels(p, Shl(g, k));
      XorAssociates(m, r, Shl(g, k));
      XorCommutes(r, Shl(g, k));
      XorAssociates(m, Shl(g, k), r);
    }
  }

  lemma ClmulNothing(g: nat)
    ensures Clmul(0, g) == 0
  {
  }

  method Divide(p: nat, g: nat) returns (b: nat)
    requires g != 0
    ensures b == Remainder(p, g)
  {
    hide Xor, BitLength, Shl;
    b := p;
    while true
      invariant Remainder(b, g) == Remainder(p, g)
      decreases BitLength(b)
    {
      var x := GetBCHDigit(b);
      var y := GetBCHDigit(g);
      if x < y {
        break;
      }
      StepShrinks(b, g);
      b := Xor(b, Shl(g, x - y));
    }
  }

  /** Data bits followed by the remainder, in the low n bits. */
  function Word(a: nat, g: nat, n: nat): nat
    requires g != 0
  {
    Or(Shl(a, n), Remainder(Shl(a, n), g))
  }

  function TypeInfo(a: nat): nat {
    Xor(Word(a, G15, 10), G15_MASK)
  }

  function TypeNumber(a: nat): nat {
    Word(a, G18, 12)
  }

  /** The 15-bit format word of level and mask; numbers stay within 32 bits. */
  method GetBCHTypeInfo(a: nat) returns (r: nat)
    requires a < 0x20_0000
    ensures r == TypeInfo(a)
  {
    var b := Divide(Shl(a, 10), G15);
    r := Xor(Or(Shl(a, 10), b), G15_MASK);
  }

  /** The 18-bit version word. */
  method GetBCHTypeNumber(a: nat) returns (r: nat)
    requires a < 0x8_0000
    ensures r == TypeNumber(a)
  {
    var b := Divide(Shl(a, 12), G18);
    r := Or(Shl(a, 12), b);
  }

  lemma {:induction false} ShlDivides(a: nat, n: nat, low: nat)
    requires low < Pow2(n)
    ensures (Shl(a, n) + low) / Pow2(n) == a
    ensures (Shl(a, n) + low) % Pow2(n) == low
  {
    ShlIsProduct(a, n);
    QuotientOfSum(a, Pow2(n), low);
  }

  lemma {:induction false} ShlIsProduct(a: nat, n: nat)
    ensures Shl(a, n) == a * Pow2(n)
  {
    if n > 0 {
      ShlIsProduct(a, n - 1);
      assert a * (2 * Pow2(n - 1)) == 2 * (a * Pow2(n - 1));
    }
  }

  lemma QuotientOfSum(a: nat, m: nat, low: nat)
    requires low < m
    ensures (a * m + low) / m == a
    ensures (a * m + low) % m == low
  {
    var q, r := (a * m + low) / m, (a * m + low) % m;
    assert a * m + low == q * m + r;
    assert (a - q) * m == r - low;
    assert (q - a) * m == low - r;
    if a > q {
      MulAtLeast(a - q, m);
    } else if a < q {
      MulAtLeast(q - a, m);
    }
  }

  lemma MulAtLeast(d: nat, m: nat)
    requires d >= 1
    ensures d * m >= m
  {
  }

  /** A word is a multiple of g and keeps its data in the bits above n. */
  lemma WordIsMultiple(a: nat, g: nat, n: nat)
    requires g != 0 && BitLength(g) == n + 1
    ensures Divides(g, Word(a, g, n))
    ensures Word(a, g, n) / Pow2(n) == a
  {
    hide Xor, Or, Clmul, BitLength, Shl, Remainder;
    var p := Shl(a, n);
    var r := Remainder(p, g);
    var q := RemainderDivides(p, g);
    BitLengthFits(r, n);
    DisjointBits(a, r, n);
    ShlDivides(a, n, r);
    XorCancels(Clmul(q, g), r);
    assert Word(a, g, n) == Clmul(q, g);
  }

  lemma Generators()
    ensures BitLength(G15) == 11 && BitLength(G18) == 13
  {
  }

  /** Format information: unmasked, a multiple of x^10+x^8+x^5+x^4+x^2+x+1 that keeps level and mask on top. */
  lemma TypeInfoIsCode(a: nat)
    ensures Divides(1335, Xor(TypeInfo(a), 21522))
    ensures Xor(TypeInfo(a), 21522) / 1024 == a
  {
    hide Xor, Clmul, BitLength, Word;
    Generators();
    assert Pow2(10) == 1024 by { assert Pow2(5) == 32; }
    XorCancels(Word(a, G15, 10), G15_MASK);
    WordIsMultiple(a, G15, 10);
  }

  lemma TypeNumberIsCode(a: nat)
    ensures Divides(7973, TypeNumber(a))
    ensures TypeNumber(a) / 4096 == a
  {
    hide Clmul, BitLength, Word;
    Generators();
    assert Pow2(12) == 4096;
    WordIsMultiple(a, G18, 12);
  }

  /** The words fit the areas they are written to. */
  lemma WordBound(a: nat, g: nat, n: nat, k: nat)
    requires g != 0 && BitLength(g) == n + 1 && a < Pow2(k)
    ensures Word(a, g, n) < Pow2(n + k)
  {
    hide Xor, Or, BitLength, Shl, Remainder;
    var p := Shl(a, n);
    var r := Remainder(p, g);
    var q := RemainderDivides(p, g);
    BitLengthFits(r, n);
    DisjointBits(a, r, n);
    ShlBound(a, n, k, r);
  }

  lemma {:induction false} ShlBound(a: nat, n: nat, k: nat, low: nat)
    requires a < Pow2(k) && low < Pow2(n)
    ensures Shl(a, n) + low < Pow2(n + k)
  {
    if n > 0 {
      ShlBound(a, n - 1, k, low / 2);
    }
  }

  lemma TypeInfoBound(a: nat)
    requires a < 32
    ensures TypeInfo(a) < Pow2(15)
  {
    hide Xor, BitLength, Word;
    Generators();
    assert Pow2(5) == 32;
    assert Pow2(15) == 32768 by { Pow2Of15(); }
    WordBound(a, G15, 10, 5);
    XorBelow(Word(a, G15, 10), G15_MASK, 15);
  }

  lemma Pow2Of15()
    ensures Pow2(15) == 32768
  {
    assert Pow2(12) == 4096;
  }

  /** Two multiples of g with the same data bits are equal: the word is the only one. */
  lemma WordUnique(a: nat, g: nat, n: nat, w: nat)
    requires g != 0 && BitLength(g) == n + 1
    requires Divides(g, w) && w / Pow2(n) == a
    ensures w == Word(a, g, n)
  {
    hide Xor, Or, Clmul, BitLength, Shl, Remainder, Word;
    WordIsMultiple(a, g, n);
    var v := Word(a, g, n);
    var p: nat, q: nat :| v == Clmul(p, g) && w == Clmul(q, g);
    ClmulDistributes(p, q, g);
    SameHighBits(v, w, n);
    BitLengthFits(Xor(v, w), n);
    MultipleIsLong(Xor(p, q), g);
    XorCancels(w, v);
    XorCommutes(v, w);
    XorZero(v);
    XorCancels(v, w);
  }

  lemma {:induction false} SameHighBits(v: nat, w: nat, n: nat)
    requires v / Pow2(n) == w / Pow2(n)
    ensures Xor(v, w) < Pow2(n)
  {
    if n == 0 {
      XorSelf(v);
    } else {
      HalfQuotient(v, n);
      HalfQuotient(w, n);
      SameHighBits(v / 2, w / 2, n - 1);
      XorHalves(v, w);
    }
  }

  lemma HalfQuotient(v: nat, n: nat)
    requires n > 0
    ensures v / Pow2(n) == v / 2 / Pow2(n - 1)
  {
    var m := Pow2(n - 1);
    var q, r := v / 2 / m, v / 2 % m;
    assert v == q * (2 * m) + (2 * r + v % 2) by {
      assert v / 2 == q * m + r;
      assert q * (2 * m) == 2 * (q * m);
    }
    QuotientOfSum(q, 2 * m, 2 * r + v % 2);
  }

  /** A non-zero multiple of g is at least as long as g. */
  lemma {:induction false} MultipleIsLong(q: nat, g: nat)
    requires g != 0
    ensures q != 0 ==> BitLength(Clmul(q, g)) >= BitLength(g)
    ensures q == 0 ==> Clmul(q, g) == 0
    ensures q != 0 ==> BitLength(Clmul(q, g)) == BitLength(q) + BitLength(g) - 1
  {
    if q == 0 {
    } else if q == 1 {
      ClmulHalves(1, g);
      XorZero(g);
    } else {
      hide Xor, Clmul;
      MultipleIsLong(q / 2, g);
      ClmulHalves(q, g);
      var h := Clmul(q / 2, g);
      BitLengthDoubles(h);
      if q % 2 == 1 {
        LongerWins(g, 2 * h);
      } else {
        XorZero(2 * h);
      }
    }
  }

  lemma {:induction false} LongerWins(x: nat, y: nat)
    requires BitLength(x) < BitLength(y)
    ensures BitLength(Xor(x, y)) == BitLength(y)
  {
    XorHalves(x, y);
    if BitLength(x) > 0 {
      LongerWins(x / 2, y / 2);
    } else {
      XorZero(y);
    }
  }
}
