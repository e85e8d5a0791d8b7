/** Finite sums over reals, the arithmetic that numpy's `sum` performs exactly in this model. */
module Sums {

  /** Sum of a sequence of reals, accumulated left to right. */
  function Sum(s: seq<real>): real
    decreases |s|
  {
    if |s| == 0 then 0.0 else Sum(s[..|s| - 1]) + s[|s| - 1]
  }

  /** Element-wise quotient of a sequence by a scalar. */
  function Divide(s: seq<real>, d: real): (r: seq<real>)
    requires d != 0.0
    ensures |r| == |s|
    ensures forall i :: 0 <= i < |s| ==> r[i] == s[i] / d
  {
    seq(|s|, i requires 0 <= i < |s| => s[i] / d)
  }

  /** Element-wise product of a sequence with a scalar. */
  function Scale(s: seq<real>, k: real): (r: seq<real>)
    ensures |r| == |s|
    ensures forall i :: 0 <= i < |s| ==> r[i] == s[i] * k
  {
    seq(|s|, i requires 0 <= i < |s| => s[i] * k)
  }

  /** Element-wise sum of two sequences of the same length. */
  function Add(a: seq<real>, b: seq<real>): (r: seq<real>)
    requires |a| == |b|
    ensures |r| == |a|
    ensures forall i :: 0 <= i < |a| ==> r[i] == a[i] + b[i]
  {
    seq(|a|, i requires 0 <= i < |a| => a[i] + b[i])
  }

  /** A non-zero total divided by itself is one. */
  lemma DivideSelf(x: real)
    requires x != 0.0
    ensures x / x == 1.0
  {
  }

  /** Dividing by a positive number and multiplying back is the identity, and keeps the sign. */
  lemma Quotient(x: real, d: real)
    requires d > 0.0
    ensures (x / d) * d == x
    ensures x >= 0.0 ==> x / d >= 0.0
  {
  }

  /** Term by term, dividing by a positive number can be undone. */
  lemma QuotientsScaleBack(q: seq<real>, s: seq<real>, d: real)
    requires d > 0.0 && |q| == |s|
    requires forall i :: 0 <= i < |s| ==> q[i] == s[i] / d
    ensures forall i :: 0 <= i < |s| ==> q[i] * d == s[i]
  {
    forall i | 0 <= i < |s|
      ensures q[i] * d == s[i]
    {
      Quotient(s[i], d);
    }
  }

  /** A sequence of zeros sums to zero. */
  lemma {:induction false} SumZeros(n: nat)
    ensures Sum(seq(n, _ => 0.0)) == 0.0
  {
    if n > 0 {
      assert seq(n, _ => 0.0)[..n - 1] == seq(n - 1, _ => 0.0);
      SumZeros(n - 1);
    }
  }

  /** A sum of non-negative terms is non-negative. */
  lemma {:induction false} SumNonNegative(s: seq<real>)
    requires forall i :: 0 <= i < |s| ==> s[i] >= 0.0
    ensures Sum(s) >= 0.0
    decreases |s|
  {
    if |s| > 0 {
      SumNonNegative(s[..|s| - 1]);
    }
  }

  /** Dividing every term by `d` divides the sum by `d`. */
  lemma {:induction false} SumDivide(s: seq<real>, d: real)
    requires d != 0.0
    ensures Sum(Divide(s, d)) == Sum(s) / d
    decreases |s|
  {
    if |s| > 0 {
      var n := |s| - 1;
      assert Divide(s, d)[..n] == Divide(s[..n], d);
      SumDivide(s[..n], d);
    }
  }

  /** Multiplying every term by `k` multiplies the sum by `k`. */
  lemma {:induction false} SumScale(s: seq<real>, k: real)
    ensures Sum(Scale(s, k)) == Sum(s) * k
    decreases |s|
  {
    if |s| > 0 {
      var n := |s| - 1;
      assert Scale(s, k)[..n] == Scale(s[..n], k) by {
        forall i | 0 <= i < n ensures Scale(s, k)[..n][i] == Scale(s[..n], k)[i] {
        }
      }
      SumScale(s[..n], k);
    }
  }

  /** The sum of an element-wise sum is the sum of the sums. */
  lemma {:induction false} SumAdd(a: seq<real>, b: seq<real>)
    requires |a| == |b|
    ensures Sum(Add(a, b)) == Sum(a) + Sum(b)
    decreases |a|
  {
    if |a| > 0 {
      var n := |a| - 1;
      assert Add(a, b)[..n] == Add(a[..n], b[..n]);
      SumAdd(a[..n], b[..n]);
    }
  }
}
