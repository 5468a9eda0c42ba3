/** Scalars of secp256k1: integers modulo the group order, with the addition,
    subtraction and summation the encryption layer uses. */
module Scalars {

  /** The order of the secp256k1 group. */
  const N: nat := 0xFFFFFFFF_FFFFFFFF_FFFFFFFF_FFFFFFFE_BAAEDCE6_AF48A03B_BFD25E8C_D0364141

  type Scalar = x: int | 0 <= x < N

  /** `Scalar(x)`: the scalar congruent to x modulo the group order. */
  function FromInt(x: int): (r: Scalar)
    ensures (x - r) % N == 0
  {
    x % N
  }

  /** Addition modulo N of two reduced values. */
  function Add(a: Scalar, b: Scalar): (s: Scalar)
    ensures s == (a + b) % N
  {
    if a + b < N then a + b else a + b - N
  }

  /** Subtraction modulo N of two reduced values. */
  function Sub(a: Scalar, b: Scalar): (s: Scalar)
    ensures s == (a - b) % N
  {
    if a >= b then a - b else a - b + N
  }

  /** The integer sum, without reduction. */
  function IntSum(s: seq<Scalar>): int {
    if s == [] then 0 else IntSum(s[..|s| - 1]) + s[|s| - 1]
  }

  /** Reducing a partial sum before adding the next term changes nothing. */
  lemma AddReduced(a: int, b: int)
    ensures (a % N + b) % N == (a + b) % N
  {
    var q := a / N;
    assert a == q * N + a % N;
    assert a + b == (a % N + b) + q * N;
  }

  /** `Scalar.sum`: summing one scalar at a time from zero gives the
      integer sum reduced modulo the group order. */
  function Sum(s: seq<Scalar>): (r: Scalar)
    ensures r == IntSum(s) % N
  {
    if s == [] then 0
    else
      AddReduced(IntSum(s[..|s| - 1]), s[|s| - 1]);
      Add(Sum(s[..|s| - 1]), s[|s| - 1])
  }

  /** Entry i of every row. */
  function Column(rows: seq<seq<Scalar>>, i: nat): (col: seq<Scalar>)
    requires forall p :: 0 <= p < |rows| ==> i < |rows[p]|
    ensures |col| == |rows|
  {
    seq(|rows|, p requires 0 <= p < |rows| => rows[p][i])
  }

  /** Subtracting the pad that was added recovers the message. */
  lemma SubAdd(m: Scalar, p: Scalar)
    ensures Sub(Add(m, p), p) == m
  {
  }

  /** Adding back what was subtracted recovers the minuend. */
  lemma AddSub(s: Scalar, p: Scalar)
    ensures Add(Sub(s, p), p) == s
  {
  }

  /** Subtracting two pads one after the other is subtracting their sum. */
  lemma SubSub(s: Scalar, a: Scalar, p: Scalar)
    ensures Sub(Sub(s, a), p) == Sub(s, Add(a, p))
  {
  }

  /** Addition may be regrouped: (a + b) + (c + d) == (a + c) + (b + d). */
  lemma AddSwap(a: Scalar, b: Scalar, c: Scalar, d: Scalar)
    ensures Add(Add(a, b), Add(c, d)) == Add(Add(a, c), Add(b, d))
  {
  }

  /** Addition may be reordered: (a + x) + y == (a + y) + x. */
  lemma AddRotate(a: Scalar, x: Scalar, y: Scalar)
    ensures Add(Add(a, x), y) == Add(Add(a, y), x)
  {
  }

  /** Subtracting one more pad is subtracting the sum extended by it. */
  lemma SubSum(s: Scalar, ps: seq<Scalar>, p: Scalar)
    ensures Sub(Sub(s, Sum(ps)), p) == Sub(s, Sum(ps + [p]))
  {
    var ps' := ps + [p];
    assert ps'[..|ps'| - 1] == ps;
    SubSub(s, Sum(ps), p);
  }

  /** Summing masked values is summing the values plus summing the masks. */
  lemma {:induction false} SumOfAdds(ms: seq<Scalar>, ps: seq<Scalar>, cs: seq<Scalar>)
    requires |ms| == |ps| == |cs|
    requires forall j :: 0 <= j < |cs| ==> cs[j] == Add(ms[j], ps[j])
    ensures Sum(cs) == Add(Sum(ms), Sum(ps))
  {
    if cs != [] {
      var k := |cs| - 1;
      SumOfAdds(ms[..k], ps[..k], cs[..k]);
      AddSwap(Sum(ms[..k]), Sum(ps[..k]), ms[k], ps[k]);
    }
  }

  /** Removing the pads from the sum of masked values leaves the sum of the
      values. */
  lemma SumOfAddsSub(ms: seq<Scalar>, ps: seq<Scalar>, cs: seq<Scalar>)
    requires |ms| == |ps| == |cs|
    requires forall j :: 0 <= j < |cs| ==> cs[j] == Add(ms[j], ps[j])
    ensures Sub(Sum(cs), Sum(ps)) == Sum(ms)
  {
    SumOfAdds(ms, ps, cs);
    SubAdd(Sum(ms), Sum(ps));
  }

  /** A sum with entry i replaced by zero, plus entry i, is the whole sum. */
  lemma {:induction false} SumZeroAt(s: seq<Scalar>, s': seq<Scalar>, i: nat)
    requires i < |s| == |s'| && s'[i] == 0
    requires forall j :: 0 <= j < |s| && j != i ==> s'[j] == s[j]
    ensures Add(Sum(s'), s[i]) == Sum(s)
  {
    var k := |s| - 1;
    if i == k {
      assert s'[..k] == s[..k];
    } else {
      assert Sum(s') == Add(Sum(s'[..k]), s[k]);
      SumZeroAt(s[..k], s'[..k], i);
      AddRotate(Sum(s'[..k]), s[k], s[i]);
    }
  }
}
