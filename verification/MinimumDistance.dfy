/**
 * What the error-correction bytes are for: two different codewords with ec
 * error-correction bytes differ in more than ec places, so a word damaged in at
 * most ec / 2 places determines its codeword.
 */
module MinimumDistance {
  import opened Galois
  import opened Polynomials
  import opened ReedSolomon
  import opened Versions
  import opened Codewords

  /** The number of non-zero coefficients. */
  function Weight(p: Poly): nat {
    if p == [] then 0 else Weight(p[..|p| - 1]) + if p[|p| - 1] != 0 then 1 else 0
  }

  /** The number of places in which two words differ. */
  function Distance(p: Poly, q: Poly): nat
    requires |p| == |q|
  {
    if p == [] then 0
    else
      var n := |p| - 1;
      Distance(p[..n], q[..n]) + if p[n] != q[n] then 1 else 0
  }

  lemma {:induction false} WeightBound(p: Poly, q: Poly)
    requires |p| == |q| && forall i | 0 <= i < |p| :: q[i] != 0 ==> p[i] != 0
    ensures Weight(q) <= Weight(p)
    ensures (exists i :: 0 <= i < |p| && p[i] != 0 && q[i] == 0) ==> Weight(q) < Weight(p)
  {
    if p != [] {
      WeightBound(p[..|p| - 1], q[..|p| - 1]);
      if i :| 0 <= i < |p| && p[i] != 0 && q[i] == 0 {
        if i < |p| - 1 {
          assert p[..|p| - 1][i] != 0 && q[..|p| - 1][i] == 0;
        }
      }
    }
  }

  lemma {:induction false} ZeroWeight(p: Poly)
    ensures Weight(p) == 0 <==> p == Zeros(|p|)
  {
    if p != [] {
      var n := |p| - 1;
      ZeroWeight(p[..n]);
      assert p == p[..n] + [p[n]];
      assert Zeros(|p|)[..n] == Zeros(n);
    }
  }

  // A coefficient at place i stands for the power alpha^(n - 1 - i).

  /** Every coefficient times the power of alpha of its place. */
  ghost function Twist(p: Poly): (r: Poly)
    ensures |r| == |p|
    ensures forall i | 0 <= i < |p| :: r[i] == Mul(p[i], Power(|p| - 1 - i))
  {
    seq(|p|, i requires 0 <= i < |p| => Mul(p[i], Power(|p| - 1 - i)))
  }

  lemma PowerTimes(i: nat, j: nat)
    ensures Mul(Power(i), Power(j)) == Power(i + j)
  {
    hide Mul, Power, Shift;
    PowerAdds(i, j);
    ShiftByLog(Power(i), j);
  }

  lemma TwistFront(p: Poly)
    requires p != []
    ensures Twist(p)[..|p| - 1] == Scale(Power(1), Twist(p[..|p| - 1]))
    ensures Twist(p)[|p| - 1] == p[|p| - 1]
  {
    hide Mul, Power;
    var n := |p| - 1;
    forall i | 0 <= i < n
      ensures Mul(p[i], Power(n - i)) == Mul(Mul(p[i], Power(n - 1 - i)), Power(1))
    {
      MulAssociates(p[i], Power(n - 1 - i), Power(1));
      PowerTimes(n - 1 - i, 1);
    }
    PowerOf0();
    MulOne(p[n]);
  }

  lemma PowerOf0()
    ensures Power(0) == 1
  {
  }

  /** Twisting moves the argument of the evaluation one power on. */
  lemma {:induction false} EvalTwist(p: Poly, y: Byte)
    ensures Eval(Twist(p), y) == Eval(p, Mul(Power(1), y))
  {
    hide Add, Mul, Power, Twist, Scale;
    if p == [] {
      assert Twist(p) == [];
    } else {
      var n := |p| - 1;
      var front, a := p[..n], Power(1);
      var e := Eval(front, Mul(a, y));
      EvalTwist(front, y);
      TwistFront(p);
      EvalScale(a, Twist(front), y);
      MulAssociates(e, a, y);
    }
  }

  /** Removes place j: the twisted word plus the word scaled by the power of place j. */
  ghost function Without(p: Poly, j: nat): (r: Poly)
    requires j < |p|
    ensures |r| == |p|
  {
    Sum(Twist(p), Scale(Power(|p| - 1 - j), p))
  }

  lemma WithoutAt(p: Poly, j: nat, i: nat)
    requires j < |p| <= 255 && i < |p|
    ensures Without(p, j)[i] == 0 <==> p[i] == 0 || i == j
  {
    hide Add, Mul, Power;
    var n := |p| - 1;
    var x, y := Power(n - i), Power(n - j);
    MulAddsRight(p[i], x, y);
    MulNonzero(p[i], Add(x, y));
    AddSelf(x);
    if i < j {
      PowersDistinct(n - j, n - i);
      EqualOrNot(x, y);
    } else if j < i {
      PowersDistinct(n - i, n - j);
      EqualOrNot(x, y);
    }
  }

  lemma EqualOrNot(x: Byte, y: Byte)
    requires x != y
    ensures Add(x, y) != 0
  {
    hide Add;
    if Add(x, y) == 0 {
      EqualIfSumZero(x, y);
    }
  }

  lemma EvalWithout(p: Poly, j: nat, m: nat)
    requires j < |p|
    requires Eval(p, Power(m)) == 0 && Eval(p, Power(m + 1)) == 0
    ensures Eval(Without(p, j), Power(m)) == 0
  {
    hide Add, Mul, Power, Twist, Scale, Sum;
    var c := Power(|p| - 1 - j);
    EvalSum(Twist(p), Scale(c, p), Power(m));
    EvalTwist(p, Power(m));
    EvalScale(c, p, Power(m));
    PowerTimes(1, m);
    MulZero(c);
    AddZero(0);
  }

  /** A word vanishes at k consecutive powers of alpha, from alpha^0 on. */
  ghost predicate Vanishes(p: Poly, k: nat) {
    forall m: nat | m < k :: Eval(p, Power(m)) == 0
  }

  lemma SingleTerm(p: Poly, j: nat)
    requires j < |p| <= 255 && p[j] != 0 && Without(p, j) == Zeros(|p|)
    ensures p == Term(j, p[j], |p| - 1 - j)
  {
    hide Without;
    forall i | 0 <= i < |p| ensures p[i] == Term(j, p[j], |p| - 1 - j)[i] {
      WithoutAt(p, j, i);
    }
  }

  lemma {:induction false} EvalTermAtOne(i: nat, c: Byte, j: nat)
    ensures Eval(Term(i, c, j), 1) == c
  {
    hide Add, Mul;
    if j == 0 {
      assert Term(i, c, 0) == Zeros(i) + [c];
      EvalPads([c], i, 1);
      EvalAppend([], c, 1);
      assert [] + [c] == [c];
      MulZero(1);
      AddZero(c);
    } else {
      EvalTermAtOne(i, c, j - 1);
      assert Term(i, c, j) == Term(i, c, j - 1) + [0];
      EvalAppend(Term(i, c, j - 1), 0, 1);
      MulOne(c);
      AddZero(c);
    }
  }

  /** A non-zero word of at most 255 bytes that vanishes at k powers has more than k non-zero bytes. */
  lemma {:induction false} WeightOfVanishing(p: Poly, k: nat)
    requires |p| <= 255 && p != Zeros(|p|) && Vanishes(p, k)
    ensures Weight(p) > k
    decreases k
  {
    hide Power, Add, Mul, Eval, Weight, Zeros, Term;
    ZeroWeight(p);
    if k > 0 {
      var j :| 0 <= j < |p| && p[j] != 0;
      var q := Without(p, j);
      forall i: nat | i < |p| ensures q[i] == 0 <==> p[i] == 0 || i == j {
        WithoutAt(p, j, i);
      }
      WeightBound(p, q);
      if q == Zeros(|q|) {
        SingleTerm(p, j);
        EvalTermAtOne(j, p[j], |p| - 1 - j);
        PowerOf0();
        assert false;
      }
      forall m: nat | m < k - 1 ensures Eval(q, Power(m)) == 0 {
        EvalWithout(p, j, m);
      }
      WeightOfVanishing(q, k - 1);
    }
  }

  lemma {:induction false} DistanceIsWeight(p: Poly, q: Poly)
    requires |p| == |q|
    ensures Distance(p, q) == Weight(Sum(p, q))
  {
    hide Add;
    if p != [] {
      var n := |p| - 1;
      DistanceIsWeight(p[..n], q[..n]);
      assert Sum(p, q)[..n] == Sum(p[..n], q[..n]);
      AddSelf(p[n]);
      if p[n] != q[n] {
        EqualOrNot(p[n], q[n]);
      }
    }
  }

  lemma CodewordVanishes(word: Poly, ec: nat)
    requires IsCodeword(word, ec)
    ensures Vanishes(word, ec)
  {
    hide Add, Mul, Power, Times, Generator, Eval;
    var q: Poly :| |q| + ec == |word| && word == Times(q, Generator(ec));
    forall m: nat | m < ec ensures Eval(word, Power(m)) == 0 {
      EvalTimes(q, Generator(ec), Power(m));
      GeneratorRoots(ec, Power(m));
      MulZero(Eval(q, Power(m)));
    }
  }

  /** Two different codewords of at most 255 bytes differ in more than ec places. */
  lemma CodewordsFarApart(v: Poly, w: Poly, ec: nat)
    requires |v| == |w| <= 255 && v != w && IsCodeword(v, ec) && IsCodeword(w, ec)
    ensures Distance(v, w) >= ec + 1
  {
    hide Add, Mul, Power, Eval, Sum, IsCodeword, Distance, Weight;
    CodewordVanishes(v, ec);
    CodewordVanishes(w, ec);
    var s := Sum(v, w);
    forall m: nat | m < ec ensures Eval(s, Power(m)) == 0 {
      EvalSum(v, w, Power(m));
      AddZero(0);
    }
    if s == Zeros(|s|) {
      forall i | 0 <= i < |v| ensures v[i] == w[i] {
        assert s[i] == 0;
        EqualIfSumZero(v[i], w[i]);
      }
      assert false;
    }
    WeightOfVanishing(s, ec);
    DistanceIsWeight(v, w);
  }

  lemma {:induction false} DistanceTriangle(u: Poly, v: Poly, w: Poly)
    requires |u| == |v| == |w|
    ensures Distance(u, w) <= Distance(u, v) + Distance(v, w)
    ensures Distance(u, v) == Distance(v, u)
  {
    if u != [] {
      var n := |u| - 1;
      DistanceTriangle(u[..n], v[..n], w[..n]);
    }
  }

  /** A received word with at most ec / 2 damaged bytes belongs to one codeword only: the one sent. */
  lemma DamageIsCorrectable(received: Poly, v: Poly, w: Poly, ec: nat)
    requires |received| == |v| == |w| <= 255 && IsCodeword(v, ec) && IsCodeword(w, ec)
    requires Distance(received, v) <= ec / 2 && Distance(received, w) <= ec / 2
    ensures v == w
  {
    hide IsCodeword, Distance;
    DistanceTriangle(v, received, w);
    DistanceTriangle(received, v, w);
    if v != w {
      CodewordsFarApart(v, w, ec);
    }
  }

  /** Block j of the buffer as it is sent: data, then error correction. */
  ghost function SentBlock(buffer: seq<Byte>, blocks: seq<RSBlock>, j: nat): (word: Poly)
    requires SumData(blocks) <= |buffer| && j < |blocks|
    ensures |word| == blocks[j].dataCount + EcLength(blocks[j])
  {
    var data := DataBlock(buffer, blocks, j);
    data + ErrorWord(data, EcLength(blocks[j]))
  }

  /** In every version, a block damaged in at most half its error-correction bytes is still the only candidate. */
  lemma BlocksAreCorrectable(v: nat, buffer: seq<Byte>, j: nat, received: Poly, w: Poly)
    requires IsVersion(v) && SumData(RSBlocks(v)) <= |buffer| && j < |RSBlocks(v)|
    requires |received| == |w| == RSBlocks(v)[j].totalCount == |SentBlock(buffer, RSBlocks(v), j)|
    requires Distance(received, SentBlock(buffer, RSBlocks(v), j)) <= EcCount(v) / 2
    requires IsCodeword(w, EcCount(v)) && Distance(received, w) <= EcCount(v) / 2
    ensures w == SentBlock(buffer, RSBlocks(v), j)
  {
    hide IsCodeword, Distance, RSBlocks, EcCount, SumData, DataBlock, ErrorWord;
    var b := RSBlocks(v)[j];
    BlockErrorBytes(v, b);
    EncodedIsCodeword(DataBlock(buffer, RSBlocks(v), j), EcLength(b));
    DamageIsCorrectable(received, SentBlock(buffer, RSBlocks(v), j), w, EcCount(v));
  }
}
