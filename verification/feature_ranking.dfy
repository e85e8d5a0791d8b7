/**
 * Back-projection of random-forest importances through the PCA loadings
 * (pipeline.py, `Classification.get_best_features`). The absolute loadings of
 * each component are normalised to sum to 1, weighted by that component's
 * explained-variance ratio, summed over the (at most) ten components the
 * forest ranks highest, and the ten features with the largest summed
 * contribution are returned, largest first. `np.argsort` does not fix an
 * order among equal scores, so the selections are specified by what they
 * guarantee (a top-k set, in non-increasing order) and not by a tie rule.
 */
module FeatureRanking {
  import opened Sums

  /** How many components and how many features the ranking keeps (`[-10:]`). */
  const TopCount: nat := 10

  function Min(a: nat, b: nat): nat
  {
    if a <= b then a else b
  }

  function Abs(x: real): real
  {
    if x < 0.0 then -x else x
  }

  /** `np.absolute` of one row of loadings. */
  function AbsRow(row: seq<real>): (r: seq<real>)
    ensures |r| == |row|
    ensures forall f :: 0 <= f < |row| ==> r[f] == Abs(row[f]) && r[f] >= 0.0
  {
    seq(|row|, f requires 0 <= f < |row| => Abs(row[f]))
  }

  /** Every row of the matrix has the given width. */
  ghost predicate Rectangular(m: seq<seq<real>>, width: nat)
  {
    forall c :: 0 <= c < |m| ==> |m[c]| == width
  }

  /** Every component has a non-zero absolute loading, so its row can be normalised. */
  ghost predicate Normalisable(components: seq<seq<real>>)
  {
    forall c :: 0 <= c < |components| ==> Sum(AbsRow(components[c])) != 0.0
  }

  /** One component's absolute loadings divided by their total. */
  function NormaliseRow(row: seq<real>): (r: seq<real>)
    requires Sum(AbsRow(row)) != 0.0
    ensures |r| == |row|
    ensures forall f :: 0 <= f < |row| ==> r[f] >= 0.0 && r[f] == AbsRow(row)[f] / Sum(AbsRow(row))
    ensures Sum(r) == 1.0
  {
    var a := AbsRow(row);
    var total := Sum(a);
    SumNonNegative(a);
    SumDivide(a, total);
    DivideSelf(total);
    Divide(a, total)
  }

  /** Each normalised entry is its absolute loading's share of the row total. */
  lemma NormaliseRowProportional(row: seq<real>)
    requires Sum(AbsRow(row)) != 0.0
    ensures forall f :: 0 <= f < |row| ==> NormaliseRow(row)[f] * Sum(AbsRow(row)) == Abs(row[f])
  {
    SumNonNegative(AbsRow(row));
    QuotientsScaleBack(NormaliseRow(row), AbsRow(row), Sum(AbsRow(row)));
  }

  /** One component's row of the contribution matrix. */
  function ContributionRow(row: seq<real>, ratio: real): (r: seq<real>)
    requires Sum(AbsRow(row)) != 0.0
    ensures |r| == |row|
    ensures forall f :: 0 <= f < |row| ==> r[f] == NormaliseRow(row)[f] * ratio
    ensures Sum(r) == ratio
  {
    SumScale(NormaliseRow(row), ratio);
    Scale(NormaliseRow(row), ratio)
  }

  /**
   * The contribution matrix (components x features): each component's
   * normalised absolute loadings weighted by its explained-variance ratio.
   */
  function Contribution(components: seq<seq<real>>, ratios: seq<real>): (m: seq<seq<real>>)
    requires |ratios| == |components| && Normalisable(components)
    ensures |m| == |components|
    ensures forall c :: 0 <= c < |m| ==> |m[c]| == |components[c]|
    ensures forall c :: 0 <= c < |m| ==> Sum(m[c]) == ratios[c]
    ensures forall c, f :: 0 <= c < |m| && 0 <= f < |m[c]| ==>
              m[c][f] == NormaliseRow(components[c])[f] * ratios[c]
  {
    seq(|components|, c requires 0 <= c < |components| => ContributionRow(components[c], ratios[c]))
  }

  /** All indices point into a collection of size `n`. */
  ghost predicate InRange(idx: seq<nat>, n: nat)
  {
    forall a :: 0 <= a < |idx| ==> idx[a] < n
  }

  ghost predicate Distinct(idx: seq<nat>)
  {
    forall a, b :: 0 <= a < b < |idx| ==> idx[a] != idx[b]
  }

  /** Column `f` of the rows picked by `selected`, in selection order. */
  function PickedColumn(contribution: seq<seq<real>>, width: nat, selected: seq<nat>, f: nat): (c: seq<real>)
    requires Rectangular(contribution, width) && InRange(selected, |contribution|) && f < width
    ensures |c| == |selected|
    ensures forall a :: 0 <= a < |selected| ==> c[a] == contribution[selected[a]][f]
  {
    seq(|selected|, a requires 0 <= a < |selected| => contribution[selected[a]][f])
  }

  /** Column sums of the rows picked by `selected` (`best_components.sum(axis=0)`). */
  function FeatureContribution(contribution: seq<seq<real>>, width: nat, selected: seq<nat>): (r: seq<real>)
    requires Rectangular(contribution, width) && InRange(selected, |contribution|)
    ensures |r| == width
    ensures forall f :: 0 <= f < width ==> r[f] == Sum(PickedColumn(contribution, width, selected, f))
    decreases |selected|
  {
    if |selected| == 0 then seq(width, _ => 0.0)
    else
      var n := |selected| - 1;
      assert forall f :: 0 <= f < width ==>
        PickedColumn(contribution, width, selected, f)[..n] == PickedColumn(contribution, width, selected[..n], f);
      Add(FeatureContribution(contribution, width, selected[..n]), contribution[selected[n]])
  }

  /** The ratios of the selected components, in selection order. */
  function Picked(ratios: seq<real>, selected: seq<nat>): (r: seq<real>)
    requires InRange(selected, |ratios|)
    ensures |r| == |selected|
    ensures forall k :: 0 <= k < |selected| ==> r[k] == ratios[selected[k]]
  {
    seq(|selected|, k requires 0 <= k < |selected| => ratios[selected[k]])
  }

  /** Summing non-negative contribution rows gives non-negative feature contributions. */
  lemma {:induction false} FeatureContributionNonNegative(contribution: seq<seq<real>>, width: nat, selected: seq<nat>)
    requires Rectangular(contribution, width) && InRange(selected, |contribution|)
    requires forall c, f :: 0 <= c < |contribution| && 0 <= f < width ==> contribution[c][f] >= 0.0
    ensures forall f :: 0 <= f < width ==> FeatureContribution(contribution, width, selected)[f] >= 0.0
    decreases |selected|
  {
    if |selected| > 0 {
      FeatureContributionNonNegative(contribution, width, selected[..|selected| - 1]);
    }
  }

  /**
   * When every row of a contribution matrix sums to its component's ratio,
   * the summed feature contributions add up to the ratios of the selected
   * components: summing over components and then over features loses nothing.
   */
  lemma {:induction false} FeatureContributionTotal(contribution: seq<seq<real>>, ratios: seq<real>, width: nat,
                                                     selected: seq<nat>)
    requires |ratios| == |contribution| && Rectangular(contribution, width)
    requires forall c :: 0 <= c < |contribution| ==> Sum(contribution[c]) == ratios[c]
    requires InRange(selected, |contribution|)
    ensures Sum(FeatureContribution(contribution, width, selected)) == Sum(Picked(ratios, selected))
    decreases |selected|
  {
    if |selected| == 0 {
      SumZeros(width);
    } else {
      var n := |selected| - 1;
      var prefix := FeatureContribution(contribution, width, selected[..n]);
      FeatureContributionTotal(contribution, ratios, width, selected[..n]);
      SumAdd(prefix, contribution[selected[n]]);
      assert Picked(ratios, selected)[..n] == Picked(ratios, selected[..n]);
    }
  }

  /**
   * With non-negative variance ratios, every feature's summed contribution
   * over any selection of components is non-negative.
   */
  lemma ContributionFeaturesNonNegative(components: seq<seq<real>>, ratios: seq<real>, width: nat, selected: seq<nat>)
    requires |ratios| == |components| && Normalisable(components) && Rectangular(components, width)
    requires forall c :: 0 <= c < |ratios| ==> ratios[c] >= 0.0
    requires InRange(selected, |components|)
    ensures forall f :: 0 <= f < width ==> FeatureContribution(Contribution(components, ratios), width, selected)[f] >= 0.0
  {
    FeatureContributionNonNegative(Contribution(components, ratios), width, selected);
  }

  /**
   * The back-projection neither loses nor invents variance: the features'
   * contributions add up to the explained variance of the selected components.
   */
  lemma ContributionTotal(components: seq<seq<real>>, ratios: seq<real>, width: nat, selected: seq<nat>)
    requires |ratios| == |components| && Normalisable(components) && Rectangular(components, width)
    requires InRange(selected, |components|)
    ensures Sum(FeatureContribution(Contribution(components, ratios), width, selected)) == Sum(Picked(ratios, selected))
  {
    FeatureContributionTotal(Contribution(components, ratios), ratios, width, selected);
  }

  /**
   * `idx` holds the indices of the `k` largest scores (all of them when there
   * are fewer): distinct, in range, and no index left out scores higher than
   * any index kept.
   */
  ghost predicate IsTop(scores: seq<real>, idx: seq<nat>, k: nat)
  {
    && |idx| == Min(k, |scores|)
    && InRange(idx, |scores|)
    && Distinct(idx)
    && forall a, j :: 0 <= a < |idx| && 0 <= j < |scores| && j !in idx ==> scores[j] <= scores[idx[a]]
  }

  /** The indices are listed from the largest score down. */
  ghost predicate Descending(scores: seq<real>, idx: seq<nat>)
    requires InRange(idx, |scores|)
  {
    forall a, b :: 0 <= a < b < |idx| ==> scores[idx[b]] <= scores[idx[a]]
  }

  /** Removing one position from a duplicate-free sequence removes exactly that value. */
  lemma RemoveAt(s: seq<nat>, p: nat)
    requires Distinct(s) && p < |s|
    ensures Distinct(s[..p] + s[p + 1..])
    ensures forall j :: j in s[..p] + s[p + 1..] <==> j in s && j != s[p]
  {
    var t := s[..p] + s[p + 1..];
    assert forall a :: 0 <= a < |t| ==> t[a] == if a < p then s[a] else s[a + 1];
  }

  /** A position of `rest` whose score no other entry of `rest` exceeds. */
  method ArgMax(scores: seq<real>, rest: seq<nat>) returns (p: nat)
    requires |rest| > 0 && InRange(rest, |scores|)
    ensures p < |rest|
    ensures forall b :: 0 <= b < |rest| ==> scores[rest[b]] <= scores[rest[p]]
  {
    p := 0;
    var q := 1;
    while q < |rest|
      invariant 0 <= p < q <= |rest|
      invariant forall b :: 0 <= b < q ==> scores[rest[b]] <= scores[rest[p]]
    {
      if scores[rest[q]] > scores[rest[p]] {
        p := q;
      }
      q := q + 1;
    }
  }

  /** `np.argsort(scores)[-k:][::-1]`: the indices of the `k` largest scores, largest first. */
  method TopIndices(scores: seq<real>, k: nat) returns (idx: seq<nat>)
    ensures IsTop(scores, idx, k)
    ensures Descending(scores, idx)
  {
    var target := Min(k, |scores|);
    idx := [];
    var rest: seq<nat> := seq(|scores|, i requires 0 <= i => i as nat);
    forall j | 0 <= j < |scores|
      ensures j in rest
    {
      assert rest[j] == j;
    }
    while |idx| < target
      invariant |idx| <= target
      invariant |idx| + |rest| == |scores|
      invariant InRange(idx, |scores|) && InRange(rest, |scores|)
      invariant Distinct(idx) && Distinct(rest)
      invariant forall j :: 0 <= j < |scores| ==> (j in idx <==> j !in rest)
      invariant Descending(scores, idx)
      invariant forall a, b :: 0 <= a < |idx| && 0 <= b < |rest| ==> scores[rest[b]] <= scores[idx[a]]
      decreases target - |idx|
    {
      var p := ArgMax(scores, rest);
      var pick := rest[p];
      var rest' := rest[..p] + rest[p + 1..];
      RemoveAt(rest, p);
      assert pick !in idx;
      idx := idx + [pick];
      rest := rest';
    }
  }

  /**
   * The two rankings of `get_best_features` on a contribution matrix
   * (components x features): the ten components with the largest forest
   * importance, then the ten features with the largest contribution summed
   * over those components, largest first, with their labels.
   */
  method RankFeatures<L>(importances: seq<real>, contribution: seq<seq<real>>, labels: seq<L>)
    returns (features: seq<L>, featureIndices: seq<nat>, chosenComponents: seq<nat>)
    requires |importances| == |contribution| && Rectangular(contribution, |labels|)
    ensures IsTop(importances, chosenComponents, TopCount)
    ensures IsTop(FeatureContribution(contribution, |labels|, chosenComponents), featureIndices, TopCount)
    ensures Descending(FeatureContribution(contribution, |labels|, chosenComponents), featureIndices)
    ensures |features| == |featureIndices| == Min(TopCount, |labels|)
    ensures forall a :: 0 <= a < |features| ==> features[a] == labels[featureIndices[a]]
  {
    chosenComponents := TopIndices(importances, TopCount);
    var scores := FeatureContribution(contribution, |labels|, chosenComponents);
    featureIndices := TopIndices(scores, TopCount);
    features := seq(|featureIndices|, a requires 0 <= a < |featureIndices| => labels[featureIndices[a]]);
  }

  /**
   * `get_best_features`. `importances` are the forest's per-component
   * importances; `components` and `ratios` the PCA loadings and
   * explained-variance ratios; `labels` the names of the pre-reduction
   * features. Besides the labels, the method returns the contribution
   * matrix and the chosen feature and component indices, which pipeline.py
   * computes on the way.
   */
  method BestFeatures<L>(importances: seq<real>, components: seq<seq<real>>, ratios: seq<real>, labels: seq<L>)
    returns (contribution: seq<seq<real>>, features: seq<L>, featureIndices: seq<nat>, chosenComponents: seq<nat>)
    requires |importances| == |components| == |ratios|
    requires Rectangular(components, |labels|) && Normalisable(components)
    ensures contribution == Contribution(components, ratios)
    ensures IsTop(importances, chosenComponents, TopCount)
    ensures IsTop(FeatureContribution(contribution, |labels|, chosenComponents), featureIndices, TopCount)
    ensures Descending(FeatureContribution(contribution, |labels|, chosenComponents), featureIndices)
    ensures |features| == |featureIndices| == Min(TopCount, |labels|)
    ensures forall a :: 0 <= a < |features| ==> features[a] == labels[featureIndices[a]]
  {
    contribution := Contribution(components, ratios);
    features, featureIndices, chosenComponents := RankFeatures(importances, contribution, labels);
  }
}
