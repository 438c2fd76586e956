/**
 * Polynomials over GF(256) as the encoder's polynomial objects store them: a
 * sequence of coefficients, the highest degree first.
 */
module Polynomials {
  import opened Galois

  type Poly = seq<Byte>

  function Zeros(n: nat): (p: Poly)
    ensures |p| == n && forall i | 0 <= i < n :: p[i] == 0
  {
    seq(n, i => 0)
  }

  /** Coefficient-wise sum of two sequences of the same length. */
  function Sum(p: Poly, q: Poly): (r: Poly)
    requires |p| == |q|
    ensures |r| == |p| && forall i | 0 <= i < |p| :: r[i] == Add(p[i], q[i])
  {
    seq(|p|, i requires 0 <= i < |p| => Add(p[i], q[i]))
  }

  ghost function Scale(c: Byte, p: Poly): (r: Poly)
    ensures |r| == |p| && forall i | 0 <= i < |p| :: r[i] == Mul(p[i], c)
  {
    seq(|p|, i requires 0 <= i < |p| => Mul(p[i], c))
  }

  /** Leading zeros added up to length n. */
  function Padded(p: Poly, n: nat): (r: Poly)
    requires |p| <= n
    ensures |r| == n
  {
    Zeros(n - |p|) + p
  }

  /** What the polynomial constructor keeps of its argument: no leading zeros. */
  function Strip(p: Poly): (r: Poly)
    ensures |r| <= |p|
    ensures r != [] ==> r[0] != 0
  {
    if p != [] && p[0] == 0 then Strip(p[1..]) else p
  }

  lemma {:induction false} StripPads(p: Poly, n: nat)
    requires |p| <= n
    ensures Padded(Strip(p), n) == Padded(p, n)
  {
    if p != [] && p[0] == 0 {
      StripPads(p[1..], n);
      assert Padded(p[1..], n) == Padded(p, n);
    }
  }

  /** The product, by Horner's scheme on the coefficients of q. */
  ghost function Times(q: Poly, g: Poly): (r: Poly)
    requires |g| > 0
    ensures |r| == |q| + |g| - 1
  {
    var n := |q|;
    if n == 0 then Zeros(|g| - 1)
    else Sum(Times(q[..n - 1], g) + [0], Zeros(n - 1) + Scale(q[n - 1], g))
  }

  lemma TimesLast(q: Poly, g: Poly)
    requires |g| > 0 && |q| > 0
    ensures var n := |q| - 1;
            Times(q, g) == Sum(Times(q[..n], g) + [0], Zeros(n) + Scale(q[n], g))
  {
    hide Sum, Zeros, Scale;
  }

  lemma TimesAppend(q: Poly, c: Byte, g: Poly)
    requires |g| > 0
    ensures Times(q + [c], g) == Sum(Times(q, g) + [0], Zeros(|q|) + Scale(c, g))
  {
    hide Sum, Zeros, Scale;
    assert (q + [c])[..|q|] == q;
  }

  /** The value at x, by Horner's scheme. */
  ghost function Eval(p: Poly, x: Byte): Byte {
    var n := |p|;
    if n == 0 then 0 else Add(Mul(Eval(p[..n - 1], x), x), p[n - 1])
  }

  lemma AddSwaps(w: Byte, x: Byte, y: Byte, z: Byte)
    ensures Add(Add(w, x), Add(y, z)) == Add(Add(w, y), Add(x, z))
  {
    hide Add;
    AddAssociates(w, x, Add(y, z));
    AddAssociates(x, y, z);
    AddCommutes(x, y);
    AddAssociates(y, x, z);
    AddAssociates(w, y, Add(x, z));
  }

  lemma {:induction false} EvalSum(p: Poly, q: Poly, x: Byte)
    requires |p| == |q|
    ensures Eval(Sum(p, q), x) == Add(Eval(p, x), Eval(q, x))
  {
    hide Add, Mul;
    var n := |p|;
    if n == 0 {
      AddZero(0);
    } else {
      var p', q' := p[..n - 1], q[..n - 1];
      assert Sum(p, q)[..n - 1] == Sum(p', q');
      EvalSum(p', q', x);
      MulAddsLeft(Eval(p', x), Eval(q', x), x);
      AddSwaps(Mul(Eval(p', x), x), Mul(Eval(q', x), x), p[n - 1], q[n - 1]);
    }
  }

  lemma {:induction false} EvalScale(c: Byte, p: Poly, x: Byte)
    ensures Eval(Scale(c, p), x) == Mul(Eval(p, x), c)
  {
    hide Add, Mul;
    var n := |p|;
    if n == 0 {
      MulZero(c);
    } else {
      var p' := p[..n - 1];
      assert Scale(c, p)[..n - 1] == Scale(c, p');
      EvalScale(c, p', x);
      MulAssociates(Eval(p', x), c, x);
      MulCommutes(c, x);
      MulAssociates(Eval(p', x), x, c);
      MulAddsLeft(Mul(Eval(p', x), x), p[n - 1], c);
    }
  }

  lemma EvalAppend(p: Poly, c: Byte, x: Byte)
    ensures Eval(p + [c], x) == Add(Mul(Eval(p, x), x), c)
  {
    assert (p + [c])[..|p|] == p;
  }

  lemma {:induction false} EvalPads(p: Poly, k: nat, x: Byte)
    ensures Eval(Zeros(k) + p, x) == Eval(p, x)
  {
    hide Add, Mul;
    var n := |p|;
    if n == 0 {
      assert Zeros(k) + p == Zeros(k);
      if k > 0 {
        assert Zeros(k - 1) + [] == Zeros(k - 1);
        assert Zeros(k) == Zeros(k - 1) + [0];
        EvalPads([], k - 1, x);
        EvalAppend(Zeros(k - 1), 0, x);
        MulZero(x);
        AddZero(0);
      }
    } else {
      EvalPads(p[..n - 1], k, x);
      assert Zeros(k) + p == (Zeros(k) + p[..n - 1]) + [p[n - 1]];
      EvalAppend(Zeros(k) + p[..n - 1], p[n - 1], x);
    }
  }

  /** Evaluation turns products of polynomials into products of values. */
  lemma {:induction false} EvalTimes(q: Poly, g: Poly, x: Byte)
    requires |g| > 0
    ensures Eval(Times(q, g), x) == Mul(Eval(q, x), Eval(g, x))
  {
    hide Add, Mul;
    var n := |q|;
    if n == 0 {
      assert Zeros(|g| - 1) == Zeros(|g| - 1) + [];
      EvalPads([], |g| - 1, x);
      MulZero(Eval(g, x));
    } else {
      var q', c := q[..n - 1], q[n - 1];
      var v, w := Eval(q', x), Eval(g, x);
      EvalTimes(q', g, x);
      EvalSum(Times(q', g) + [0], Zeros(n - 1) + Scale(c, g), x);
      EvalAppend(Times(q', g), 0, x);
      AddZero(Mul(Mul(v, w), x));
      EvalPads(Scale(c, g), n - 1, x);
      EvalScale(c, g, x);
      MulAssociates(v, w, x);
      MulCommutes(w, x);
      MulAssociates(v, x, w);
      MulCommutes(w, c);
      MulAddsLeft(Mul(v, x), c, w);
    }
  }

  // Linearity of the product in its first factor.

  lemma {:induction false} TimesZeros(n: nat, g: Poly)
    requires |g| > 0
    ensures Times(Zeros(n), g) == Zeros(n + |g| - 1)
  {
    hide Add, Mul;
    if n > 0 {
      assert Zeros(n)[..n - 1] == Zeros(n - 1);
      TimesZeros(n - 1, g);
      forall i | 0 <= i < |g| ensures Mul(g[i], 0) == 0 {
        MulZero(g[i]);
      }
      AddZero(0);
    }
  }

  lemma SumSwaps(p: Poly, q: Poly, r: Poly, s: Poly)
    requires |p| == |q| == |r| == |s|
    ensures Sum(Sum(p, q), Sum(r, s)) == Sum(Sum(p, r), Sum(q, s))
  {
    hide Add;
    forall i | 0 <= i < |p|
      ensures Sum(Sum(p, q), Sum(r, s))[i] == Sum(Sum(p, r), Sum(q, s))[i]
    {
      AddSwaps(p[i], q[i], r[i], s[i]);
    }
  }

  lemma {:induction false} TimesSum(p: Poly, q: Poly, g: Poly)
    requires |g| > 0 && |p| == |q|
    ensures Times(Sum(p, q), g) == Sum(Times(p, g), Times(q, g))
  {
    hide Add, Mul;
    var n := |p|;
    AddZero(0);
    if n > 0 {
      var p', q' := p[..n - 1], q[..n - 1];
      var sum := Sum(p, q);
      assert sum[..n - 1] == Sum(p', q');
      TimesSum(p', q', g);
      forall i | 0 <= i < |g|
        ensures Mul(g[i], sum[n - 1]) == Add(Mul(g[i], p[n - 1]), Mul(g[i], q[n - 1]))
      {
        MulAddsRight(g[i], p[n - 1], q[n - 1]);
      }
      var rp, rq := Zeros(n - 1) + Scale(p[n - 1], g), Zeros(n - 1) + Scale(q[n - 1], g);
      assert Zeros(n - 1) + Scale(sum[n - 1], g) == Sum(rp, rq);
      var tp, tq := Times(p', g) + [0], Times(q', g) + [0];
      assert Times(Sum(p', q'), g) + [0] == Sum(tp, tq);
      SumSwaps(tp, tq, rp, rq);
    }
  }

  /** A single term c x^j, among i higher zero coefficients. */
  function Term(i: nat, c: Byte, j: nat): (p: Poly)
    ensures |p| == i + 1 + j
  {
    Zeros(i) + [c] + Zeros(j)
  }

  lemma TimesUnit(i: nat, c: Byte, g: Poly)
    requires |g| > 0
    ensures Times(Zeros(i) + [c], g) == Zeros(i) + Scale(c, g)
  {
    hide Add, Mul, Times, Sum, Zeros, Scale;
    TimesZeros(i, g);
    TimesAppend(Zeros(i), c, g);
    var row := Zeros(i) + Scale(c, g);
    assert Zeros(i + |g| - 1) + [0] == Zeros(|row|);
    SumCommutes(Zeros(|row|), row);
    SumNothing(row);
  }

  lemma {:induction false} TimesTerm(i: nat, c: Byte, j: nat, g: Poly)
    requires |g| > 0
    ensures Times(Term(i, c, j), g) == Zeros(i) + Scale(c, g) + Zeros(j)
  {
    hide Add, Mul, Sum, Scale;
    var p := Term(i, c, j);
    if j == 0 {
      assert p == Zeros(i) + [c];
      TimesUnit(i, c, g);
    } else {
      assert p[..i + j] == Term(i, c, j - 1);
      TimesTerm(i, c, j - 1, g);
      SumWithZeros(Zeros(i) + Scale(c, g) + Zeros(j), Zeros(i + j) + Scale(0, g), g);
    }
  }

  lemma SumWithZeros(p: Poly, z: Poly, g: Poly)
    requires |p| == |z| >= |g| && z == Zeros(|z| - |g|) + Scale(0, g)
    ensures Sum(p, z) == p
  {
    hide Add, Mul;
    forall i | 0 <= i < |p| ensures Add(p[i], z[i]) == p[i] {
      AddZero(p[i]);
      if i >= |z| - |g| {
        MulZero(g[i - (|z| - |g|)]);
      }
    }
  }

  // Long division.

  predicate AllNonzero(p: Poly) {
    forall i | 0 <= i < |p| :: p[i] != 0
  }

  /** The quotient of the leading coefficients, as `mod` forms it through the tables. */
  ghost function Ratio(p: Poly, g: Poly): (f: Byte)
    requires |p| > 0 && |g| > 0 && p[0] != 0 && g[0] != 0
    ensures f != 0 && Mul(g[0], f) == p[0]
  {
    RatioWorks(p[0], g[0]);
    Exp(Log(p[0]) - Log(g[0]))
  }

  lemma RatioWorks(x: Byte, y: Byte)
    requires x != 0 && y != 0
    ensures Exp(Log(x) - Log(y)) != 0 && Mul(y, Exp(Log(x) - Log(y))) == x
  {
    hide Mul, Exp, Power;
    var d := Log(x) - Log(y);
    ExpLog(d);
    MulByLogs(y, Exp(d));
    LogOfExp(d);
    SameExp(Log(y) + Log(Exp(d)), Log(x));
  }

  lemma ExpLog(d: int)
    ensures Exp(d) != 0
  {
    PowerNonzero(d % 255);
  }

  lemma LogOfExp(d: int)
    ensures Exp(d) != 0 && Log(Exp(d)) == d % 255
  {
    ExpLog(d);
    LogOfPower(d % 255);
  }

  lemma SameExp(i: int, j: nat)
    requires i % 255 == j % 255
    ensures Exp(i) == Power(j)
  {
    PowerPeriodic(j);
  }

  /** One reduction step: the leading term of p cancels against a multiple of g. */
  ghost function Reduced(p: Poly, g: Poly): (c: Poly)
    requires |p| >= |g| > 0 && p[0] != 0 && g[0] != 0
    ensures |c| == |p| && c[0] == 0
  {
    var f := Ratio(p, g);
    AddSelf(p[0]);
    Sum(p, Scale(f, g) + Zeros(|p| - |g|))
  }

  /** The remainder `mod` returns. */
  ghost function Remainder(p: Poly, g: Poly): (r: Poly)
    requires |g| > 0 && g[0] != 0
    requires |p| >= |g| ==> p[0] != 0
    ensures |r| < |g|
    decreases |p|
  {
    if |p| < |g| then p
    else
      var c := Reduced(p, g);
      assert Strip(c) == Strip(c[1..]);
      Remainder(Strip(c), g)
  }

  lemma SumCancels(p: Poly, q: Poly)
    requires |p| == |q|
    ensures Sum(Sum(p, q), q) == p
  {
    hide Add;
    forall i | 0 <= i < |p| ensures Add(Add(p[i], q[i]), q[i]) == p[i] {
      AddAssociates(p[i], q[i], q[i]);
      AddSelf(q[i]);
      AddZero(p[i]);
    }
  }

  lemma SumAssociates(p: Poly, q: Poly, r: Poly)
    requires |p| == |q| == |r|
    ensures Sum(Sum(p, q), r) == Sum(p, Sum(q, r))
  {
    hide Add;
    forall i | 0 <= i < |p| ensures Add(Add(p[i], q[i]), r[i]) == Add(p[i], Add(q[i], r[i])) {
      AddAssociates(p[i], q[i], r[i]);
    }
  }

  lemma SumCommutes(p: Poly, q: Poly)
    requires |p| == |q|
    ensures Sum(p, q) == Sum(q, p)
  {
    hide Add;
    forall i | 0 <= i < |p| ensures Add(p[i], q[i]) == Add(q[i], p[i]) {
      AddCommutes(p[i], q[i]);
    }
  }

  /** The dividend is a multiple of the divisor plus the remainder. */
  lemma {:induction false} Division(p: Poly, g: Poly, n: nat) returns (q: Poly)
    requires |g| > 0 && g[0] != 0
    requires |p| >= |g| ==> p[0] != 0
    requires n >= |p| && n >= |g|
    ensures |q| == n - |g| + 1
    ensures Padded(p, n) == Sum(Times(q, g), Padded(Remainder(p, g), n))
    decreases |p|
  {
    hide Add, Mul, Reduced, Sum, Times;
    if |p| < |g| {
      q := Zeros(n - |g| + 1);
      TimesZeros(n - |g| + 1, g);
      SumCommutes(Zeros(n), Padded(p, n));
      SumNothing(Padded(p, n));
    } else {
      var c := Reduced(p, g);
      assert Strip(c) == Strip(c[1..]);
      var q' := Division(Strip(c), g, n);
      StripPads(c, n);
      var lead := ReductionTerm(p, g, n);
      q := Sum(q', lead);
      TimesSum(q', lead, g);
      Regroup(Padded(p, n), Times(q', g), Times(lead, g), Padded(Remainder(p, g), n));
    }
  }

  /** A reduction step subtracts the divisor times one term. */
  lemma ReductionTerm(p: Poly, g: Poly, n: nat) returns (lead: Poly)
    requires |p| >= |g| > 0 && p[0] != 0 && g[0] != 0 && n >= |p|
    ensures |lead| == n - |g| + 1
    ensures Padded(Reduced(p, g), n) == Sum(Padded(p, n), Times(lead, g))
  {
    hide Add, Mul, Ratio, Times;
    var f := Ratio(p, g);
    var step := Scale(f, g) + Zeros(|p| - |g|);
    lead := Term(n - |p|, f, |p| - |g|);
    TimesTerm(n - |p|, f, |p| - |g|, g);
    assert Times(lead, g) == Padded(step, n);
    PaddedSum(p, step, n);
  }

  /** If p + s == t + r then p == (t + s) + r. */
  lemma Regroup(p: Poly, t: Poly, s: Poly, r: Poly)
    requires |p| == |t| == |s| == |r| && Sum(p, s) == Sum(t, r)
    ensures p == Sum(Sum(t, s), r)
  {
    hide Sum;
    SumCancels(p, s);
    SumAssociates(t, r, s);
    SumCommutes(r, s);
    SumAssociates(t, s, r);
  }

  lemma SumNothing(p: Poly)
    ensures Sum(p, Zeros(|p|)) == p
  {
    hide Add;
    forall i | 0 <= i < |p| ensures Add(p[i], 0) == p[i] {
      AddZero(p[i]);
    }
  }

  lemma PaddedSum(p: Poly, q: Poly, n: nat)
    requires |p| == |q| <= n
    ensures Padded(Sum(p, q), n) == Sum(Padded(p, n), Padded(q, n))
  {
    AddZero(0);
  }
}
