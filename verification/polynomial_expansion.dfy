/**
 * The column names `PolynomialFeatures(degree, include_bias=False)` gives a
 * table (pipeline.py `feature_engineering`): monomials of degree 1 up to
 * `degree` over the input columns, degree by degree, each written as a
 * non-decreasing list of column indices. The lemmas state the length and
 * index order of every list, the count C(n+d, d) - 1 and that the single
 * columns come first; the order within one degree is that of the
 * construction below, and no lemma compares it with scikit-learn's order.
 */
module PolynomialExpansion {
  import opened Schema

  /** `c` lists column indices in `[lo, n)` in non-decreasing order. */
  predicate Ascending(c: seq<nat>, lo: nat, n: nat)
  {
    && (forall k :: 0 <= k < |c| ==> lo <= c[k] < n)
    && (forall k :: 0 < k < |c| ==> c[k - 1] <= c[k])
  }

  function Prefixed(x: nat, cs: seq<seq<nat>>): (r: seq<seq<nat>>)
    ensures |r| == |cs|
    ensures forall i :: 0 <= i < |r| ==> r[i] == [x] + cs[i]
  {
    seq(|cs|, i requires 0 <= i < |cs| => [x] + cs[i])
  }

  /** Non-decreasing lists of `e` indices from `[lo, n)`: those starting with `lo`, then those above it. */
  function Combinations(lo: nat, n: nat, e: nat): (r: seq<seq<nat>>)
    ensures forall i :: 0 <= i < |r| ==> |r[i]| == e && Ascending(r[i], lo, n)
    decreases e, if lo <= n then n - lo else 0
  {
    if e == 0 then [[]]
    else if lo >= n then []
    else
      var first := Combinations(lo, n, e - 1);
      var rest := Combinations(lo + 1, n, e);
      assert forall i :: 0 <= i < |first| ==> Ascending([lo] + first[i], lo, n) by {
        forall i | 0 <= i < |first|
          ensures Ascending([lo] + first[i], lo, n)
        {
          var c := [lo] + first[i];
          assert forall k :: 0 < k < |c| ==> c[k] == first[i][k - 1];
        }
      }
      Prefixed(lo, first) + rest
  }

  /** The index lists of all monomials of degree 1 to `d` over `n` columns. */
  function Powers(n: nat, d: nat): (r: seq<seq<nat>>)
    ensures forall i :: 0 <= i < |r| ==> 1 <= |r[i]| <= d && Ascending(r[i], 0, n)
  {
    if d == 0 then [] else Powers(n, d - 1) + Combinations(0, n, d)
  }

  /** The monomial over `names` whose factors are the columns listed in `c`. */
  function MonomialOf(names: seq<Name>, c: seq<nat>): Name
    requires Ascending(c, 0, |names|)
  {
    Monomial(seq(|c|, k requires 0 <= k < |c| => names[c[k]]))
  }

  /** The output names of the polynomial map of degree `d` on a table with columns `names`. */
  function PolynomialNames(names: seq<Name>, d: nat): (r: seq<Name>)
    ensures |r| == |Powers(|names|, d)|
    ensures forall i :: 0 <= i < |r| ==>
              && r[i].Monomial? && 1 <= |r[i].factors| <= d
              && forall k :: 0 <= k < |r[i].factors| ==> r[i].factors[k] in names
  {
    var ps := Powers(|names|, d);
    seq(|ps|, i requires 0 <= i < |ps| => MonomialOf(names, ps[i]))
  }

  // ---------------------------------------------------------------------
  // Widths
  // ---------------------------------------------------------------------

  /** Binomial coefficient by Pascal's rule. */
  function Binomial(a: nat, b: nat): nat
  {
    if b == 0 then 1 else if a == 0 then 0 else Binomial(a - 1, b - 1) + Binomial(a - 1, b)
  }

  lemma {:induction false} BinomialDiagonal(a: nat)
    ensures Binomial(a, a) == 1
  {
    if a > 0 {
      BinomialDiagonal(a - 1);
      BinomialAbove(a - 1, a);
    }
  }

  lemma {:induction false} BinomialAbove(a: nat, b: nat)
    requires a < b
    ensures Binomial(a, b) == 0
  {
    if a > 0 {
      BinomialAbove(a - 1, b - 1);
      BinomialAbove(a - 1, b);
    }
  }

  lemma BinomialSevenTwo()
    ensures Binomial(7, 2) == 21
  {
  }

  /** There are C(m+e-1, e) ways to choose `e` of `m` indices with repetition. */
  lemma {:induction false} CombinationsCount(lo: nat, n: nat, e: nat)
    requires lo < n
    ensures |Combinations(lo, n, e)| == Binomial(n - lo + e - 1, e)
    decreases e, n - lo
  {
    if e > 0 {
      CombinationsCount(lo, n, e - 1);
      if lo + 1 < n {
        CombinationsCount(lo + 1, n, e);
      } else {
        assert Combinations(lo + 1, n, e) == [];
        BinomialAbove(e - 1, e);
      }
    }
  }

  /** Over `n` columns the polynomial map of degree `d` gives C(n+d, d) - 1 columns. */
  lemma {:induction false} PowersCount(n: nat, d: nat)
    ensures |Powers(n, d)| == Binomial(n + d, d) - 1
  {
    if d > 0 {
      PowersCount(n, d - 1);
      if n > 0 {
        CombinationsCount(0, n, d);
      } else {
        assert Combinations(0, n, d) == [];
        BinomialDiagonal(d);
        BinomialDiagonal(d - 1);
      }
    }
  }

  /** The degree-one index lists are the columns themselves, in order. */
  lemma {:induction false} LinearCombinations(lo: nat, n: nat)
    requires lo <= n
    ensures |Combinations(lo, n, 1)| == n - lo
    ensures forall i :: 0 <= i < n - lo ==> Combinations(lo, n, 1)[i] == [lo + i]
    decreases n - lo
  {
    if lo < n {
      LinearCombinations(lo + 1, n);
      assert Combinations(lo, n, 0) == [[]];
      var c := Combinations(lo, n, 1);
      forall i | 0 <= i < n - lo
        ensures c[i] == [lo + i]
      {
        if i > 0 {
          assert c[i] == Combinations(lo + 1, n, 1)[i - 1];
        }
      }
    }
  }

  /**
   * The polynomial map of degree `d >= 1` keeps every input column, as
   * its first `|names|` outputs in order, and has C(n+d, d) - 1 outputs.
   */
  lemma PolynomialNamesSpec(names: seq<Name>, d: nat)
    requires d >= 1
    ensures var r := PolynomialNames(names, d);
      && |r| == Binomial(|names| + d, d) - 1
      && |names| <= |r|
      && forall i :: 0 <= i < |names| ==> r[i] == Monomial([names[i]])
  {
    var n := |names|;
    PowersCount(n, d);
    PowersLinearFirst(n, d);
    var r := PolynomialNames(names, d);
    forall i | 0 <= i < n
      ensures r[i] == Monomial([names[i]])
    {
      assert Powers(n, d)[i] == [i];
      assert MonomialOf(names, [i]).factors == [names[i]];
    }
  }

  /** The first `n` index lists of the degree-`d` map are the single columns. */
  lemma {:induction false} PowersLinearFirst(n: nat, d: nat)
    requires d >= 1
    ensures |Powers(n, d)| >= n
    ensures forall i :: 0 <= i < n ==> Powers(n, d)[i] == [i]
  {
    if d == 1 {
      LinearCombinations(0, n);
      assert Powers(n, 0) == [];
      assert Powers(n, 1) == Combinations(0, n, 1);
    } else {
      PowersLinearFirst(n, d - 1);
    }
  }
}
