/**
 * Reed-Solomon encoding: the generator polynomial, polynomial products and
 * remainders through the logarithm tables, and the error-correction bytes.
 */
module ReedSolomon {
  import opened Galois
  import opened GaloisTables
  import opened Polynomials

  /** (x - alpha^0)(x - alpha^1)...(x - alpha^(n-1)). */
  ghost function Generator(n: nat): (g: Poly)
    ensures |g| == n + 1
  {
    if n == 0 then [1] else Times(Generator(n - 1), [1, Power(n - 1)])
  }

  lemma {:induction false} TimesLinear(q: Poly, a: Byte)
    ensures Times(q, [1, a]) == Sum(q + [0], [0] + Scale(a, q))
  {
    hide Add, Mul;
    var n := |q|;
    AddZero(0);
    if n > 0 {
      var q', c := q[..n - 1], q[n - 1];
      TimesLinear(q', a);
      MulOne(c);
      MulCommutes(c, a);
      AddZero(Mul(c, a));
      AddZero(c);
      MulZero(a);
      var left, right := Times(q', [1, a]) + [0], Zeros(n - 1) + Scale(c, [1, a]);
      assert Scale(c, [1, a]) == [c, Mul(c, a)];
      forall i | 0 <= i < n + 1
        ensures Add(left[i], right[i]) == Add((q + [0])[i], ([0] + Scale(a, q))[i])
      {
        if i < n - 1 {
          AddZero(left[i]);
        } else if i == n - 1 {
          AddCommutes(left[i], c);
          AddZero(([0] + Scale(a, q'))[i]);
        }
      }
    }
  }

  // Every coefficient of every generator polynomial the field allows is non-zero.

  /** Coefficient k of the generator polynomial, 0 outside its range. */
  ghost function Coef(n: nat, k: int): Byte {
    if 0 <= k <= n then Generator(n)[k] else 0
  }

  lemma CoefRecurrence(n: nat, k: int)
    ensures Coef(n + 1, k) == Add(Coef(n, k), Mul(Coef(n, k - 1), Exp(n)))
  {
    hide Add, Mul, Power, Exp;
    TimesLinear(Generator(n), Power(n));
    PowerPeriodic(n);
    MulZero(Exp(n));
    AddZero(0);
    AddZero(Coef(n, k));
  }

  lemma MulExps(b: Byte, i: int, j: int)
    ensures Mul(Mul(b, Exp(i)), Exp(j)) == Mul(b, Exp(i + j))
  {
    hide Mul, Exp;
    ExpAdds(i, j);
    MulAssociates(b, Exp(i), Exp(j));
  }

  /**
   * Neighbouring coefficients satisfy the recurrence of the q-binomial
   * coefficients:  e(k) (q^k - 1) == e(k-1) q^(k-1) (q^(n-k+1) - 1)  with q = alpha.
   */
  ghost predicate Neighbours(n: nat, k: int) {
    var a, b := Coef(n, k), Coef(n, k - 1);
    Add(Mul(a, Exp(k)), a) == Add(Mul(b, Exp(n)), Mul(b, Exp(k - 1)))
  }

  lemma {:induction false} NeighboursHold(n: nat, k: int)
    ensures Neighbours(n, k)
    decreases n
  {
    hide Add, Mul, Exp;
    if n == 0 {
      FirstNeighbours(k);
    } else {
      NeighboursHold(n - 1, k);
      NeighboursHold(n - 1, k - 1);
      CoefRecurrence(n - 1, k);
      CoefRecurrence(n - 1, k - 1);
      NeighboursStep(n - 1, k, Coef(n - 1, k), Coef(n - 1, k - 1), Coef(n - 1, k - 2));
    }
  }

  lemma FirstNeighbours(k: int)
    ensures Neighbours(0, k)
  {
    hide Add, Mul, Exp;
    var a, b := Coef(0, k), Coef(0, k - 1);
    MulZero(Exp(k));
    MulZero(Exp(0));
    MulZero(Exp(k - 1));
    AddZero(0);
    if k == 0 {
      ExpZero();
      MulOne(a);
      AddSelf(a);
    } else if k == 1 {
      AddSelf(Mul(b, Exp(0)));
    }
  }

  lemma ExpZero()
    ensures Exp(0) == 1
  {
  }

  lemma NeighboursStep(n: nat, k: int, a: Byte, b: Byte, c: Byte)
    requires Add(Mul(a, Exp(k)), a) == Add(Mul(b, Exp(n)), Mul(b, Exp(k - 1)))
    requires Add(Mul(b, Exp(k - 1)), b) == Add(Mul(c, Exp(n)), Mul(c, Exp(k - 2)))
    ensures var a', b' := Add(a, Mul(b, Exp(n))), Add(b, Mul(c, Exp(n)));
            Add(Mul(a', Exp(k)), a') == Add(Mul(b', Exp(n + 1)), Mul(b', Exp(k - 1)))
  {
    hide Add, Mul, Exp;
    var bn, bk, bnk, bn1 := Mul(b, Exp(n)), Mul(b, Exp(k - 1)), Mul(b, Exp(n + k)), Mul(b, Exp(n + 1));
    var cn := Mul(c, Exp(n));
    var a', b' := Add(a, bn), Add(b, cn);
    // a' q^k + a' == b q^(k-1) + b q^(n+k)
    MulAddsLeft(a, bn, Exp(k));
    MulExps(b, n, k);
    AddSwaps(Mul(a, Exp(k)), bnk, a, bn);
    AddCommutes(bn, bk);
    AddSwaps(bk, bn, bnk, bn);
    AddSelf(bn);
    AddZero(Add(bk, bnk));
    assert Add(Mul(a', Exp(k)), a') == Add(bk, bnk);
    // the second hypothesis multiplied by q^(n+1)
    var c1, c2 := Mul(c, Exp(2 * n + 1)), Mul(c, Exp(n + k - 1));
    MulAddsLeft(bk, b, Exp(n + 1));
    MulExps(b, k - 1, n + 1);
    MulAddsLeft(cn, Mul(c, Exp(k - 2)), Exp(n + 1));
    MulExps(c, n, n + 1);
    MulExps(c, k - 2, n + 1);
    assert Add(bnk, bn1) == Add(c1, c2);
    // b' q^(n+1) + b' q^(k-1)
    MulAddsLeft(b, cn, Exp(n + 1));
    MulAddsLeft(b, cn, Exp(k - 1));
    MulExps(c, n, k - 1);
    AddSwaps(bn1, c1, bk, c2);
    AddSwaps(bn1, bk, bnk, bn1);
    AddCommutes(bn1, bk);
    AddSwaps(bk, bn1, bnk, bn1);
    AddSelf(bn1);
    AddZero(Add(bk, bnk));
  }

  lemma {:induction false} CoefNonzero(n: nat, k: nat)
    requires k <= n < 255
    ensures Coef(n, k) != 0
  {
    hide Add, Mul, Power, Exp;
    if k == 0 {
      LeadingCoef(n);
    } else {
      CoefNonzero(n, k - 1);
      if Coef(n, k) == 0 {
        var b := Coef(n, k - 1);
        NeighboursHold(n, k);
        MulZero(Exp(k));
        AddZero(0);
        EqualIfSumZero(Mul(b, Exp(n)), Mul(b, Exp(k - 1)));
        MulCancels(b, n, k - 1);
      }
    }
  }

  lemma {:induction false} LeadingCoef(n: nat)
    ensures Generator(n)[0] == 1
  {
    if n > 0 {
      hide Add, Mul, Power;
      LeadingCoef(n - 1);
      TimesLinear(Generator(n - 1), Power(n - 1));
      AddZero(1);
    }
  }

  lemma EqualIfSumZero(x: Byte, y: Byte)
    requires Add(x, y) == 0
    ensures x == y
  {
    hide Add;
    AddAssociates(x, y, y);
    AddSelf(y);
    AddZero(x);
    AddZero(y);
  }

  lemma MulCancels(b: Byte, i: nat, j: nat)
    requires b != 0 && i < 255 && j < 255 && Mul(b, Exp(i)) == Mul(b, Exp(j))
    ensures i == j
  {
    hide Add, Mul, Power;
    MulAddsRight(b, Exp(i), Exp(j));
    AddSelf(Mul(b, Exp(i)));
    MulNonzero(b, Add(Exp(i), Exp(j)));
    EqualIfSumZero(Exp(i), Exp(j));
    if i < j {
      PowersDistinct(i, j);
    } else if j < i {
      PowersDistinct(j, i);
    }
  }

  /** No generator polynomial below degree 255 has a zero coefficient. */
  lemma GeneratorNonzero(n: nat)
    requires n < 255
    ensures AllNonzero(Generator(n))
  {
    forall k: nat | k < |Generator(n)| ensures Generator(n)[k] != 0 {
      CoefNonzero(n, k);
      assert Coef(n, k) == Generator(n)[k];
    }
  }

  /** The roots of the generator are exactly the first n powers of alpha. */
  lemma {:induction false} GeneratorRoots(n: nat, x: Byte)
    ensures Eval(Generator(n), x) == 0 <==> exists i: nat :: i < n && x == Power(i)
  {
    hide Add, Mul, Power;
    if n == 0 {
      EvalAppend([], 1, x);
      MulZero(x);
      AddZero(1);
      assert [] + [1] == Generator(0);
    } else {
      var a := Power(n - 1);
      GeneratorRoots(n - 1, x);
      EvalTimes(Generator(n - 1), [1, a], x);
      EvalLinear(a, x);
      MulNonzero(Eval(Generator(n - 1), x), Add(x, a));
      if Add(x, a) == 0 {
        EqualIfSumZero(x, a);
      }
      AddSelf(a);
    }
  }

  lemma EvalLinear(a: Byte, x: Byte)
    ensures Eval([1, a], x) == Add(x, a)
  {
    hide Add, Mul;
    EvalAppend([1], a, x);
    EvalAppend([], 1, x);
    assert [] + [1] == [1];
    assert [1] + [a] == [1, a];
    MulZero(x);
    AddZero(1);
    MulOne(x);
  }

  // The polynomial operations of the encoder.

  /** The constructor: strips leading zeros, then multiplies by x^shift. */
  method NewPolynomial(a: seq<Byte>, shift: nat) returns (num: Poly)
    ensures num == Strip(a) + Zeros(shift)
  {
    hide Strip, Zeros;
    var c := 0;
    assert a[0..] == a;
    while c < |a| && a[c] == 0
      invariant 0 <= c <= |a|
      invariant Strip(a) == Strip(a[c..])
    {
      StripFrom(a, c);
      c := c + 1;
    }
    StripFrom(a, c);
    var out := new Byte[|a| - c + shift](i => 0);
    for d := 0 to |a| - c
      invariant forall i | 0 <= i < d :: out[i] == a[c + i]
      invariant forall i | d <= i < out.Length :: out[i] == 0
    {
      out[d] := a[d + c];
    }
    num := out[..];
    assert num == a[c..] + Zeros(shift);
  }

  lemma StripFrom(a: seq<Byte>, c: nat)
    requires c <= |a|
    ensures Strip(a[c..]) == if c < |a| && a[c] == 0 then Strip(a[c + 1..]) else a[c..]
  {
    if c < |a| {
      assert a[c..][1..] == a[c + 1..];
    }
  }

  lemma TimesLeading(q: Poly, g: Poly)
    requires |q| > 0 && |g| > 0
    ensures Times(q, g)[0] == Mul(g[0], q[0])
  {
    hide Add, Mul;
    if |q| == 1 {
      AddZero(Mul(g[0], q[0]));
    } else {
      TimesLeading(q[..|q| - 1], g);
      AddZero(Mul(g[0], q[0]));
    }
  }

  /** A sequence with the first d coefficients of g, times x, added from position c. */
  ghost function WithRow(before: Poly, g: Poly, x: Byte, c: nat, d: nat): (r: Poly)
    requires d <= |g| && c + |g| <= |before|
    ensures |r| == |before|
    ensures forall i | 0 <= i < |r| :: r[i] == if c <= i < c + d then Add(before[i], Mul(g[i - c], x)) else before[i]
  {
    seq(|before|, i requires 0 <= i < |before| =>
      if c <= i < c + d then Add(before[i], Mul(g[i - c], x)) else before[i])
  }

  /** The product with row c of the schoolbook scheme added up to column d. */
  ghost function PartialRow(p: Poly, g: Poly, c: nat, d: nat): (r: Poly)
    requires c < |p| && d <= |g| && |g| > 0
    ensures |r| == |p| + |g| - 1
  {
    WithRow(Times(p[..c], g) + Zeros(|p| - c), g, p[c], c, d)
  }

  lemma RowStarts(p: Poly, g: Poly, c: nat)
    requires c < |p| && |g| > 0
    ensures PartialRow(p, g, c, 0) == Times(p[..c], g) + Zeros(|p| - c)
  {
    hide Add, Mul, Times, WithRow;
  }

  /** A full row is one more term of Horner's scheme. */
  lemma FullRow(before: Poly, g: Poly, x: Byte, c: nat, k: nat)
    requires |g| > 0 && |before| == c + |g| - 1 && k > 0
    ensures WithRow(before + Zeros(k), g, x, c, |g|)
         == Sum(before + [0], Zeros(c) + Scale(x, g)) + Zeros(k - 1)
  {
    hide Add, Mul, WithRow, Sum, Scale, Zeros;
    forall i | 0 <= i < c ensures Add(before[i], 0) == before[i] {
      AddZero(before[i]);
    }
  }

  lemma PartialRowIs(p: Poly, g: Poly, c: nat, d: nat)
    requires c < |p| && d <= |g| && |g| > 0
    ensures PartialRow(p, g, c, d) == WithRow(Times(p[..c], g) + Zeros(|p| - c), g, p[c], c, d)
  {
    hide Times, WithRow, Zeros;
  }

  lemma NextProduct(p: Poly, g: Poly, c: nat)
    requires c < |p| && |g| > 0
    ensures Times(p[..c + 1], g) == Sum(Times(p[..c], g) + [0], Zeros(c) + Scale(p[c], g))
  {
    hide *;
    var next: Poly := p[..c + 1];
    assert next[..c] == p[..c];
    TimesLast(next, g);
  }

  lemma RowEnds(p: Poly, g: Poly, c: nat)
    requires c < |p| && |g| > 0
    ensures PartialRow(p, g, c, |g|) == Times(p[..c + 1], g) + Zeros(|p| - c - 1)
  {
    hide *;
    PartialRowIs(p, g, c, |g|);
    NextProduct(p, g, c);
    FullRow(Times(p[..c], g), g, p[c], c, |p| - c);
  }

  lemma RowStep(p: Poly, g: Poly, c: nat, d: nat)
    requires c < |p| && d < |g|
    ensures PartialRow(p, g, c, d + 1)
         == PartialRow(p, g, c, d)[c + d := Add(PartialRow(p, g, c, d)[c + d], Mul(g[d], p[c]))]
  {
    hide Add, Mul, Times;
  }

  method Multiply(t: Tables, p: Poly, g: Poly) returns (r: Poly)
    requires t.Valid() && AllNonzero(p) && AllNonzero(g) && p != [] && g != []
    ensures r == Times(p, g)
  {
    hide Add, Mul, Power, Exp, PartialRow;
    var b := new Byte[|p| + |g| - 1](i => 0);
    assert Times(p[..0], g) + Zeros(|p|) == Zeros(|p| + |g| - 1);
    for c := 0 to |p|
      invariant b[..] == Times(p[..c], g) + Zeros(|p| - c)
    {
      RowStarts(p, g, c);
      for d := 0 to |g|
        invariant b[..] == PartialRow(p, g, c, d)
      {
        var x := Glog(t, p[c]);
        var y := Glog(t, g[d]);
        var e := Gexp(t, x + y);
        MulByLogs(p[c], g[d]);
        MulCommutes(p[c], g[d]);
        RowStep(p, g, c, d);
        b[c + d] := Add(b[c + d], e);
      }
      RowEnds(p, g, c);
    }
    assert p[..|p|] == p;
    TimesLeading(p, g);
    MulNonzero(g[0], p[0]);
    r := NewPolynomial(b[..], 0);
  }

  method Mod(t: Tables, p: Poly, g: Poly) returns (r: Poly)
    requires t.Valid() && AllNonzero(g) && g != []
    requires |p| >= |g| ==> p[0] != 0
    ensures r == Remainder(p, g)
    decreases |p|
  {
    hide Add, Mul, Power, Exp;
    if |p| < |g| {
      return p;
    }
    var x: int := Glog(t, p[0]);
    var y: int := Glog(t, g[0]);
    var b := x - y;
    var c := new Byte[|p|];
    for d := 0 to |p|
      invariant forall i | 0 <= i < d :: c[i] == p[i]
    {
      c[d] := p[d];
    }
    ghost var f := Ratio(p, g);
    for d := 0 to |g|
      invariant forall i | 0 <= i < d :: c[i] == Add(p[i], Mul(g[i], f))
      invariant forall i | d <= i < |p| :: c[i] == p[i]
    {
      var z := Glog(t, g[d]);
      var e := Gexp(t, z + b);
      ShiftedByRatio(g[d], b, f);
      c[d] := Add(c[d], e);
    }
    ghost var reduced := Reduced(p, g);
    forall i | |g| <= i < |p| ensures Add(p[i], 0) == p[i] {
      AddZero(p[i]);
    }
    assert c[..] == reduced;
    assert Strip(reduced) == Strip(reduced[1..]);
    var next := NewPolynomial(c[..], 0);
    assert next == Strip(reduced);
    r := Mod(t, next, g);
  }

  lemma ShiftedByRatio(a: Byte, b: int, f: Byte)
    requires a != 0 && f != 0 && f == Exp(b)
    ensures Exp(Log(a) + b) == Mul(a, f)
  {
    hide Power;
    MulByLogs(a, f);
    LogOfExp(b);
    assert (Log(a) + b % 255) % 255 == (Log(a) + b) % 255;
  }

  method GetErrorCorrectPolynomial(t: Tables, n: nat) returns (b: Poly)
    requires t.Valid() && n <= 255
    ensures b == Generator(n)
  {
    hide Add, Mul, Power;
    b := NewPolynomial([1], 0);
    assert b == [1] + Zeros(0) == [1];
    for c := 0 to n
      invariant b == Generator(c)
    {
      var e := Gexp(t, c);
      PowerPeriodic(c);
      PowerNonzero(c);
      GeneratorNonzero(c);
      var factor := NewPolynomial([1, e], 0);
      assert factor == [1, Power(c)];
      b := Multiply(t, b, factor);
    }
  }

  // The error-correction bytes of a block.

  /** What `createBytes` stores for a block: the remainder, left-padded to ec bytes. */
  ghost function ErrorWord(data: seq<Byte>, ec: nat): (w: Poly)
    ensures |w| == ec
  {
    LeadingCoef(ec);
    Padded(Remainder(Strip(data) + Zeros(ec), Generator(ec)), ec)
  }

  method ErrorBytes(t: Tables, data: seq<Byte>, ec: nat) returns (h: seq<Byte>)
    requires t.Valid() && ec < 255
    ensures h == ErrorWord(data, ec)
  {
    hide Add, Mul, Power;
    var n := GetErrorCorrectPolynomial(t, ec);
    LeadingCoef(ec);
    GeneratorNonzero(ec);
    var o := NewPolynomial(data, |n| - 1);
    var p := Mod(t, o, n);
    var out := new Byte[|n| - 1](i => 0);
    for m := 0 to out.Length
      invariant forall i | 0 <= i < m :: out[i] == Padded(p, ec)[i]
    {
      var q := m + |p| - out.Length;
      out[m] := if q >= 0 then p[q] else 0;
    }
    h := out[..];
  }

  /** A block with its error-correction bytes is a multiple of the generator. */
  ghost predicate IsCodeword(word: Poly, ec: nat) {
    exists q: Poly :: |q| + ec == |word| && word == Times(q, Generator(ec))
  }

  lemma EncodedIsCodeword(data: seq<Byte>, ec: nat)
    ensures IsCodeword(data + ErrorWord(data, ec), ec)
  {
    hide Add, Mul, Power, Times, Generator, ErrorWord, Strip, Padded, Remainder, Sum;
    var g := Generator(ec);
    LeadingCoef(ec);
    if data == [] {
      EmptyBlock(ec);
    } else {
      var o := Strip(data) + Zeros(ec);
      var n := |data| + ec;
      var q := Division(o, g, n);
      ShiftedData(data, ec);
      PaddedErrorWord(data, ec);
      SumCancels(Times(q, g), Padded(Remainder(o, g), n));
      SumCompletes(data, ErrorWord(data, ec));
    }
  }

  lemma ShiftedData(data: Poly, ec: nat)
    ensures Padded(Strip(data) + Zeros(ec), |data| + ec) == data + Zeros(ec)
  {
    hide Strip;
    StripPads(data, |data|);
    assert Padded(data, |data|) == data;
    assert Padded(Strip(data) + Zeros(ec), |data| + ec) == Padded(Strip(data), |data|) + Zeros(ec);
  }

  lemma PaddedErrorWord(data: Poly, ec: nat)
    ensures |Generator(ec)| == ec + 1 && Generator(ec)[0] != 0
    ensures |Strip(data) + Zeros(ec)| >= ec + 1 ==> (Strip(data) + Zeros(ec))[0] != 0
    ensures Padded(Remainder(Strip(data) + Zeros(ec), Generator(ec)), |data| + ec)
         == Zeros(|data|) + ErrorWord(data, ec)
  {
    hide Strip, Remainder, Generator;
    LeadingCoef(ec);
  }

  lemma SumCompletes(data: Poly, w: Poly)
    ensures Sum(data + Zeros(|w|), Zeros(|data|) + w) == data + w
  {
    hide Add;
    forall i | 0 <= i < |data| + |w|
      ensures Sum(data + Zeros(|w|), Zeros(|data|) + w)[i] == (data + w)[i]
    {
      AddZero((data + w)[i]);
    }
  }

  lemma EmptyBlock(ec: nat)
    ensures IsCodeword([] + ErrorWord([], ec), ec)
  {
    hide Add, Mul, Power, Generator;
    LeadingCoef(ec);
    assert Strip([]) + Zeros(ec) == Zeros(ec);
    assert [] + ErrorWord([], ec) == Times([], Generator(ec));
  }

  /** The syndromes vanish: section 7.5.2 of ISO/IEC 18004:2015. */
  lemma SyndromesVanish(data: seq<Byte>, ec: nat, i: nat)
    requires i < ec
    ensures Eval(data + ErrorWord(data, ec), Power(i)) == 0
  {
    hide Add, Mul, Power;
    var g := Generator(ec);
    EncodedIsCodeword(data, ec);
    var q: Poly :| |q| + ec == |data| + ec && data + ErrorWord(data, ec) == Times(q, g);
    EvalTimes(q, g, Power(i));
    GeneratorRoots(ec, Power(i));
    MulZero(Eval(q, Power(i)));
  }

  /** A multiple of the generator whose leading part is zero is zero. */
  lemma {:induction false} ZeroQuotient(q: Poly, ec: nat)
    requires Times(q, Generator(ec))[..|q|] == Zeros(|q|)
    ensures q == Zeros(|q|)
  {
    hide Add, Mul, Power, Generator, Scale;
    var g := Generator(ec);
    LeadingCoef(ec);
    if |q| > 0 {
      var q', c := q[..|q| - 1], q[|q| - 1];
      forall i | 0 <= i < |q| - 1
        ensures Times(q', g)[i] == Times(q, g)[i]
      {
        AddZero(Times(q', g)[i]);
      }
      assert Times(q', g)[..|q| - 1] == Zeros(|q| - 1);
      ZeroQuotient(q', ec);
      TimesZeros(|q| - 1, g);
      MulOne(c);
      AddZero(c);
      assert Times(q, g)[|q| - 1] == c;
    }
  }

  /** The error-correction bytes are the only ones that complete the block to a codeword. */
  lemma ErrorWordUnique(data: seq<Byte>, ec: nat, w: seq<Byte>)
    requires |w| == ec
    ensures IsCodeword(data + w, ec) <==> w == ErrorWord(data, ec)
  {
    hide ErrorWord, Times, Generator;
    var e := ErrorWord(data, ec);
    EncodedIsCodeword(data, ec);
    if IsCodeword(data + w, ec) {
      var q: Poly :| |q| + ec == |data + w| && data + w == Times(q, Generator(ec));
      var r: Poly :| |r| + ec == |data + e| && data + e == Times(r, Generator(ec));
      SameQuotient(data, w, e, q, r);
    }
  }

  lemma SameQuotient(data: Poly, w: Poly, e: Poly, q: Poly, r: Poly)
    requires |w| == |e| && |q| == |r| == |data|
    requires data + w == Times(q, Generator(|w|)) && data + e == Times(r, Generator(|w|))
    ensures w == e
  {
    hide Add, Mul, Power, Times, Generator;
    var n := |data|;
    var g := Generator(|w|);
    var s := Sum(q, r);
    TimesSum(q, r, g);
    forall i | 0 <= i < n ensures Add(data[i], data[i]) == 0 {
      AddSelf(data[i]);
    }
    var t := Times(s, g);
    assert t == Sum(data + w, data + e);
    assert t[..n] == Zeros(n);
    ZeroQuotient(s, |w|);
    TimesZeros(n, g);
    forall i | 0 <= i < |w| ensures w[i] == e[i] {
      assert t[n + i] == Add(w[i], e[i]);
      EqualIfSumZero(w[i], e[i]);
    }
  }
}
