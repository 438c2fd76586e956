/**
 * Bitwise arithmetic on the non-negative numbers the QR encoder works with.
 * A number is also read as a polynomial over GF(2): bit k is the coefficient
 * of x^k, so `Xor` adds polynomials and `Clmul` multiplies them.
 */
module Gf2 {

  function Pow2(n: nat): (r: nat)
    ensures r > 0
  {
    if n == 0 then 1 else 2 * Pow2(n - 1)
  }

  /** The `<<` operator. */
  function Shl(x: nat, k: nat): nat {
    if k == 0 then x else 2 * Shl(x, k - 1)
  }

  lemma {:induction false} Pow2Grows(m: nat, n: nat)
    requires m <= n
    ensures Pow2(m) <= Pow2(n)
  {
    if m < n {
      Pow2Grows(m, n - 1);
    }
  }

  /** Bit k of x, counted from the least significant. */
  predicate Bit(x: nat, k: nat) {
    if k == 0 then x % 2 == 1 else Bit(x / 2, k - 1)
  }

  /** The `^` operator. */
  function Xor(x: nat, y: nat): nat
    decreases x + y
  {
    if x == 0 && y == 0 then 0
    else 2 * Xor(x / 2, y / 2) + if x % 2 == y % 2 then 0 else 1
  }

  /** The `|` operator. */
  function Or(x: nat, y: nat): nat
    decreases x + y
  {
    if x == 0 && y == 0 then 0
    else 2 * Or(x / 2, y / 2) + if x % 2 == 1 || y % 2 == 1 then 1 else 0
  }

  lemma {:induction false} XorCommutes(x: nat, y: nat)
    ensures Xor(x, y) == Xor(y, x)
    decreases x + y
  {
    if x != 0 || y != 0 {
      XorCommutes(x / 2, y / 2);
    }
  }

  lemma {:induction false} XorAssociates(x: nat, y: nat, z: nat)
    ensures Xor(Xor(x, y), z) == Xor(x, Xor(y, z))
    decreases x + y + z
  {
    if x != 0 || y != 0 || z != 0 {
      XorAssociates(x / 2, y / 2, z / 2);
    }
  }

  lemma {:induction false} XorZero(x: nat)
    ensures Xor(x, 0) == x == Xor(0, x)
  {
    if x != 0 {
      XorZero(x / 2);
    }
  }

  lemma {:induction false} XorSelf(x: nat)
    ensures Xor(x, x) == 0
  {
    if x != 0 {
      XorSelf(x / 2);
    }
  }

  lemma XorCancels(x: nat, y: nat)
    ensures Xor(Xor(x, y), y) == x
    ensures Xor(y, Xor(y, x)) == x
  {
    XorAssociates(x, y, y);
    XorAssociates(y, y, x);
    XorSelf(y);
    XorZero(x);
  }

  lemma XorNonzero(x: nat, y: nat)
    requires x != y
    ensures Xor(x, y) != 0
  {
    XorCancels(x, y);
    XorZero(y);
  }

  /** (w + x) + (y + z) == (w + y) + (x + z), the regrouping every linearity proof needs. */
  lemma XorSwaps(w: nat, x: nat, y: nat, z: nat)
    ensures Xor(Xor(w, x), Xor(y, z)) == Xor(Xor(w, y), Xor(x, z))
  {
    hide Xor;
    XorAssociates(w, x, Xor(y, z));
    XorAssociates(x, y, z);
    XorCommutes(x, y);
    XorAssociates(y, x, z);
    XorAssociates(w, y, Xor(x, z));
  }

  lemma XorDouble(x: nat, y: nat)
    ensures Xor(2 * x, 2 * y) == 2 * Xor(x, y)
  {
  }

  /** One unfolding of `Xor`, for proofs that hide its body. */
  lemma XorHalves(x: nat, y: nat)
    ensures Xor(x, y) == 2 * Xor(x / 2, y / 2) + if x % 2 == y % 2 then 0 else 1
  {
  }

  lemma {:induction false} XorBelow(x: nat, y: nat, n: nat)
    requires x < Pow2(n) && y < Pow2(n)
    ensures Xor(x, y) < Pow2(n)
  {
    if n > 0 {
      XorBelow(x / 2, y / 2, n - 1);
    }
  }

  /** Adding below a cleared run of low bits is the same as `^` and as `|`. */
  lemma {:induction false} DisjointBits(high: nat, low: nat, n: nat)
    requires low < Pow2(n)
    ensures Xor(Shl(high, n), low) == Shl(high, n) + low == Or(Shl(high, n), low)
  {
    if n == 0 {
      XorZero(high);
      OrZero(high);
    } else {
      DisjointBits(high, low / 2, n - 1);
      XorHalves(Shl(high, n), low);
      OrHalves(Shl(high, n), low);
    }
  }

  lemma {:induction false} OrZero(x: nat)
    ensures Or(x, 0) == x
  {
    if x != 0 {
      OrZero(x / 2);
    }
  }

  lemma OrHalves(x: nat, y: nat)
    ensures Or(x, y) == 2 * Or(x / 2, y / 2) + if x % 2 == 1 || y % 2 == 1 then 1 else 0
  {
  }

  /** Carry-less product: the product of two polynomials over GF(2). */
  function Clmul(q: nat, g: nat): nat {
    if q == 0 then 0 else Xor(if q % 2 == 1 then g else 0, 2 * Clmul(q / 2, g))
  }

  lemma {:induction false} ClmulDistributes(p: nat, q: nat, g: nat)
    ensures Clmul(Xor(p, q), g) == Xor(Clmul(p, g), Clmul(q, g))
    decreases p + q
  {
    if p == 0 && q == 0 {
    } else {
      ClmulDistributes(p / 2, q / 2, g);
      ClmulDistributesStep(p, q, g);
    }
  }

  lemma ClmulHalves(q: nat, g: nat)
    ensures Clmul(q, g) == Xor(if q % 2 == 1 then g else 0, 2 * Clmul(q / 2, g))
  {
    if q == 0 {
      XorZero(0);
    }
  }

  lemma ClmulDistributesStep(p: nat, q: nat, g: nat)
    requires Clmul(Xor(p / 2, q / 2), g) == Xor(Clmul(p / 2, g), Clmul(q / 2, g))
    ensures Clmul(Xor(p, q), g) == Xor(Clmul(p, g), Clmul(q, g))
  {
    hide Xor, Clmul;
    var gp := if p % 2 == 1 then g else 0;
    var gq := if q % 2 == 1 then g else 0;
    XorHalves(p, q);
    ClmulHalves(p, g);
    ClmulHalves(q, g);
    ClmulHalves(Xor(p, q), g);
    XorSelf(g);
    XorZero(g);
    XorZero(0);
    XorDouble(Clmul(p / 2, g), Clmul(q / 2, g));
    XorSwaps(gp, 2 * Clmul(p / 2, g), gq, 2 * Clmul(q / 2, g));
  }

  lemma {:induction false} ClmulPower(k: nat, g: nat)
    ensures Clmul(Pow2(k), g) == Shl(g, k)
  {
    ClmulHalves(Pow2(k), g);
    if k == 0 {
      assert Clmul(1, g) == Xor(g, 2 * Clmul(0, g));
      XorZero(g);
    } else {
      ClmulPower(k - 1, g);
      XorZero(2 * Clmul(Pow2(k - 1), g));
    }
  }

  /** Number of bits up to the leading one: degree plus one. */
  function BitLength(x: nat): nat {
    if x == 0 then 0 else 1 + BitLength(x / 2)
  }

  lemma {:induction false} BitLengthBound(x: nat)
    ensures x < Pow2(BitLength(x))
    ensures x != 0 ==> Pow2(BitLength(x) - 1) <= x
  {
    if x != 0 {
      BitLengthBound(x / 2);
    }
  }

  lemma {:induction false} BitLengthFits(x: nat, n: nat)
    ensures BitLength(x) <= n <==> x < Pow2(n)
  {
    if x != 0 && n > 0 {
      BitLengthFits(x / 2, n - 1);
    }
  }

  lemma BitLengthDoubles(y: nat)
    requires y != 0
    ensures BitLength(2 * y) == BitLength(y) + 1
  {
    assert (2 * y) / 2 == y;
  }

  lemma {:induction false} BitLengthShifts(x: nat, k: nat)
    requires x != 0
    ensures Shl(x, k) != 0 && BitLength(Shl(x, k)) == BitLength(x) + k
  {
    if k > 0 {
      BitLengthShifts(x, k - 1);
      BitLengthDoubles(Shl(x, k - 1));
    }
  }

  /** Adding two polynomials of the same degree cancels the leading term. */
  lemma {:induction false} LeadingTermCancels(x: nat, y: nat)
    requires BitLength(x) == BitLength(y) > 0
    ensures BitLength(Xor(x, y)) < BitLength(x)
  {
    if BitLength(x) > 1 {
      LeadingTermCancels(x / 2, y / 2);
    }
  }

  /** r is what long division of p by g over GF(2) leaves. */
  ghost predicate IsRemainder(r: nat, p: nat, g: nat) {
    BitLength(r) < BitLength(g) && exists q :: p == Xor(Clmul(q, g), r)
  }

  /** g divides p over GF(2). */
  ghost predicate Divides(g: nat, p: nat) {
    exists q :: p == Clmul(q, g)
  }
}
