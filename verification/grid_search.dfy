/**
 * The hyper-parameter sweep (pipeline.py, `perform_gridsearch`). The data is
 * split into train and test parts once, before any loop; every combination
 * is then run on that same split in the nested order method, degree, k,
 * number of components. The best record starts at accuracy 0.0 and is
 * replaced only by a strictly greater accuracy, so ties keep the earlier
 * combination and a sweep where no accuracy exceeds 0.0 never binds the
 * record, which makes the final report fail. Preprocessing, reduction,
 * training and scoring of one combination are library work and enter as the
 * function `run`.
 */
module GridSearch {
  import opened Wrappers

  /** One hyper-parameter combination, with the fields pipeline.py records (`[method, k, d, n]`). */
  datatype Combo = Combo(methodName: string, k: int, degree: int, components: int)

  /** The neighbour counts the sweep tries for imputation. */
  const Neighbours: seq<int> := [6]
  /** The polynomial degrees the sweep tries. */
  const Degrees: seq<int> := [3]
  /** The PCA component counts the sweep tries. */
  const ComponentCounts: seq<int> := [10, 100, 400, 600, 800]
  /** The model families the sweep tries, by method name. */
  const Methods: seq<string> := ["RF", "LR", "SVC"]
  /** The number of cross-validation folds of every run. */
  const Splits: nat := 10

  /** Concatenation of a sequence of blocks: the output of a loop whose iterations each emit one block. */
  function Flatten<T>(blocks: seq<seq<T>>): seq<T>
    decreases |blocks|
  {
    if |blocks| == 0 then [] else blocks[0] + Flatten(blocks[1..])
  }

  /** The innermost loop: one combination per component count. */
  function ForComponents(m: string, d: int, k: int, ns: seq<int>): (r: seq<Combo>)
    ensures |r| == |ns|
    ensures forall e :: 0 <= e < |ns| ==> r[e] == Combo(m, k, d, ns[e])
  {
    seq(|ns|, e requires 0 <= e < |ns| => Combo(m, k, d, ns[e]))
  }

  /** The iterations of the loop over k, each running the loop over component counts. */
  function NeighbourBlocks(m: string, d: int, ks: seq<int>, ns: seq<int>): (r: seq<seq<Combo>>)
    ensures |r| == |ks|
    ensures forall c :: 0 <= c < |ks| ==> r[c] == ForComponents(m, d, ks[c], ns)
  {
    seq(|ks|, c requires 0 <= c < |ks| => ForComponents(m, d, ks[c], ns))
  }

  /** The loop over k. */
  function ForNeighbours(m: string, d: int, ks: seq<int>, ns: seq<int>): seq<Combo>
  {
    Flatten(NeighbourBlocks(m, d, ks, ns))
  }

  /** The iterations of the loop over degrees, each running the loop over k. */
  function DegreeBlocks(m: string, ds: seq<int>, ks: seq<int>, ns: seq<int>): (r: seq<seq<Combo>>)
    ensures |r| == |ds|
    ensures forall b :: 0 <= b < |ds| ==> r[b] == ForNeighbours(m, ds[b], ks, ns)
  {
    seq(|ds|, b requires 0 <= b < |ds| => ForNeighbours(m, ds[b], ks, ns))
  }

  /** The loop over degrees. */
  function ForDegrees(m: string, ds: seq<int>, ks: seq<int>, ns: seq<int>): seq<Combo>
  {
    Flatten(DegreeBlocks(m, ds, ks, ns))
  }

  /** The iterations of the loop over methods, each running the loop over degrees. */
  function MethodBlocks(ms: seq<string>, ds: seq<int>, ks: seq<int>, ns: seq<int>): (r: seq<seq<Combo>>)
    ensures |r| == |ms|
    ensures forall a :: 0 <= a < |ms| ==> r[a] == ForDegrees(ms[a], ds, ks, ns)
  {
    seq(|ms|, a requires 0 <= a < |ms| => ForDegrees(ms[a], ds, ks, ns))
  }

  /** All combinations of the four lists, enumerated by four nested loops: method outermost, then degree, k, n. */
  function Combos(ms: seq<string>, ds: seq<int>, ks: seq<int>, ns: seq<int>): seq<Combo>
  {
    Flatten(MethodBlocks(ms, ds, ks, ns))
  }

  /**
   * `a` blocks of width `w`, counted block by block. The layout lemmas use it
   * instead of `*` so that their index arithmetic stays linear.
   */
  function Blocks(a: nat, w: nat): nat
  {
    if a == 0 then 0 else Blocks(a - 1, w) + w
  }

  lemma {:induction false} BlocksIsProduct(a: nat, w: nat)
    ensures Blocks(a, w) == a * w
  {
    if a > 0 {
      BlocksIsProduct(a - 1, w);
    }
  }

  /** Blocks of one width `w` flatten to `Blocks(n, w)` items, block `i` starting at `Blocks(i, w)`. */
  lemma {:induction false} FlattenUniform<T>(blocks: seq<seq<T>>, w: nat)
    requires forall i :: 0 <= i < |blocks| ==> |blocks[i]| == w
    ensures |Flatten(blocks)| == Blocks(|blocks|, w)
    decreases |blocks|
  {
    if |blocks| > 0 {
      FlattenUniform(blocks[1..], w);
    }
  }

  /** Item `j` of block `i` sits at position `Blocks(i, w) + j` of the flattened blocks. */
  lemma {:induction false} FlattenAt<T>(blocks: seq<seq<T>>, w: nat, i: nat, j: nat)
    requires forall k :: 0 <= k < |blocks| ==> |blocks[k]| == w
    requires i < |blocks| && j < w
    ensures Blocks(i, w) + j < |Flatten(blocks)|
    ensures Flatten(blocks)[Blocks(i, w) + j] == blocks[i][j]
    decreases i
  {
    FlattenUniform(blocks, w);
    if i > 0 {
      FlattenAt(blocks[1..], w, i - 1, j);
      FlattenUniform(blocks[1..], w);
    }
  }

  /** An item `x` of block `i` sits at position `Blocks(i, w) + j` of the flattened blocks. */
  lemma FlattenPick<T>(blocks: seq<seq<T>>, w: nat, i: nat, j: nat, x: T)
    requires forall k :: 0 <= k < |blocks| ==> |blocks[k]| == w
    requires i < |blocks| && j < w && blocks[i][j] == x
    ensures Blocks(i, w) + j < |Flatten(blocks)| && Flatten(blocks)[Blocks(i, w) + j] == x
  {
    FlattenAt(blocks, w, i, j);
  }

  /** The loop over k emits |ks| blocks of |ns| combinations. */
  lemma NeighbourLength(m: string, d: int, ks: seq<int>, ns: seq<int>)
    ensures |ForNeighbours(m, d, ks, ns)| == Blocks(|ks|, |ns|)
  {
    FlattenUniform(NeighbourBlocks(m, d, ks, ns), |ns|);
  }

  /** Every iteration of the loop over degrees emits the same number of combinations. */
  lemma DegreeBlocksUniform(m: string, ds: seq<int>, ks: seq<int>, ns: seq<int>)
    ensures forall b :: 0 <= b < |ds| ==> |DegreeBlocks(m, ds, ks, ns)[b]| == Blocks(|ks|, |ns|)
  {
    forall b | 0 <= b < |ds|
      ensures |DegreeBlocks(m, ds, ks, ns)[b]| == Blocks(|ks|, |ns|)
    {
      NeighbourLength(m, ds[b], ks, ns);
    }
  }

  /** The loop over degrees emits |ds| such blocks. */
  lemma DegreeLength(m: string, ds: seq<int>, ks: seq<int>, ns: seq<int>)
    ensures |ForDegrees(m, ds, ks, ns)| == Blocks(|ds|, Blocks(|ks|, |ns|))
  {
    DegreeBlocksUniform(m, ds, ks, ns);
    FlattenUniform(DegreeBlocks(m, ds, ks, ns), Blocks(|ks|, |ns|));
  }

  /** Every iteration of the loop over methods emits the same number of combinations. */
  lemma MethodBlocksUniform(ms: seq<string>, ds: seq<int>, ks: seq<int>, ns: seq<int>)
    ensures forall a :: 0 <= a < |ms| ==> |MethodBlocks(ms, ds, ks, ns)[a]| == Blocks(|ds|, Blocks(|ks|, |ns|))
  {
    forall a | 0 <= a < |ms|
      ensures |MethodBlocks(ms, ds, ks, ns)[a]| == Blocks(|ds|, Blocks(|ks|, |ns|))
    {
      DegreeLength(ms[a], ds, ks, ns);
    }
  }

  /** Four nested block counts multiply out. */
  lemma BlocksProduct(x: nat, y: nat, z: nat, w: nat)
    ensures Blocks(x, Blocks(y, Blocks(z, w))) == x * (y * (z * w))
  {
    var zw := Blocks(z, w);
    BlocksIsProduct(z, w);
    var yzw := Blocks(y, zw);
    BlocksIsProduct(y, zw);
    BlocksIsProduct(x, yzw);
  }

  /** The position of (a, b, c, e) in the nested enumeration, as three nested block offsets. */
  lemma NestedPosition(a: nat, b: nat, c: nat, e: nat, nd: nat, nk: nat, nn: nat, wk: nat, wd: nat)
    requires wk == nk * nn && wd == nd * wk
    ensures ((a * nd + b) * nk + c) * nn + e == a * wd + (b * wk + (c * nn + e))
  {
    assert ((a * nd + b) * nk + c) * nn == (a * nd + b) * wk + c * nn;
    assert (a * nd + b) * wk == a * wd + b * wk;
  }

  /** The same position, with every product counted block by block. */
  lemma NestedBlocks(a: nat, b: nat, c: nat, e: nat, nd: nat, nk: nat, nn: nat)
    ensures Position(a, b, c, e, nd, nk, nn) ==
            Blocks(a, Blocks(nd, Blocks(nk, nn))) + (Blocks(b, Blocks(nk, nn)) + (Blocks(c, nn) + e))
  {
    var wk := Blocks(nk, nn);
    var wd := Blocks(nd, wk);
    BlocksIsProduct(nk, nn);
    BlocksIsProduct(nd, wk);
    BlocksIsProduct(a, wd);
    BlocksIsProduct(b, wk);
    BlocksIsProduct(c, nn);
    NestedPosition(a, b, c, e, nd, nk, nn, wk, wd);
  }

  /** Inside one degree iteration: the combination for ks[c] and ns[e]. */
  lemma NeighboursAt(m: string, d: int, ks: seq<int>, ns: seq<int>, c: nat, e: nat)
    requires c < |ks| && e < |ns|
    ensures && Blocks(c, |ns|) + e < |ForNeighbours(m, d, ks, ns)|
            && ForNeighbours(m, d, ks, ns)[Blocks(c, |ns|) + e] == Combo(m, ks[c], d, ns[e])
  {
    var blocks := NeighbourBlocks(m, d, ks, ns);
    assert blocks[c][e] == Combo(m, ks[c], d, ns[e]);
    FlattenPick(blocks, |ns|, c, e, Combo(m, ks[c], d, ns[e]));
  }

  /** Item `j` of the block for ds[b] sits at offset Blocks(b, w) + j of the loop over degrees. */
  lemma DegreeBlockAt(m: string, ds: seq<int>, ks: seq<int>, ns: seq<int>, b: nat, j: nat, x: Combo)
    requires b < |ds| && j < |ForNeighbours(m, ds[b], ks, ns)|
    requires ForNeighbours(m, ds[b], ks, ns)[j] == x
    ensures && Blocks(b, Blocks(|ks|, |ns|)) + j < |ForDegrees(m, ds, ks, ns)|
            && ForDegrees(m, ds, ks, ns)[Blocks(b, Blocks(|ks|, |ns|)) + j] == x
  {
    var blocks := DegreeBlocks(m, ds, ks, ns);
    NeighbourLength(m, ds[b], ks, ns);
    DegreeBlocksUniform(m, ds, ks, ns);
    assert blocks[b][j] == x;
    FlattenPick(blocks, Blocks(|ks|, |ns|), b, j, x);
  }

  /** Inside one method iteration: the combination for ds[b], ks[c] and ns[e]. */
  lemma DegreesAt(m: string, ds: seq<int>, ks: seq<int>, ns: seq<int>, b: nat, c: nat, e: nat)
    requires b < |ds| && c < |ks| && e < |ns|
    ensures && Blocks(b, Blocks(|ks|, |ns|)) + (Blocks(c, |ns|) + e) < |ForDegrees(m, ds, ks, ns)|
            && ForDegrees(m, ds, ks, ns)[Blocks(b, Blocks(|ks|, |ns|)) + (Blocks(c, |ns|) + e)] == Combo(m, ks[c], ds[b], ns[e])
  {
    NeighboursAt(m, ds[b], ks, ns, c, e);
    DegreeBlockAt(m, ds, ks, ns, b, Blocks(c, |ns|) + e, Combo(m, ks[c], ds[b], ns[e]));
  }

  /** Item `q` of the block for ms[a] sits at offset Blocks(a, w) + q of the sweep. */
  lemma MethodBlockAt(ms: seq<string>, ds: seq<int>, ks: seq<int>, ns: seq<int>, a: nat, q: nat, x: Combo)
    requires a < |ms| && q < |ForDegrees(ms[a], ds, ks, ns)|
    requires ForDegrees(ms[a], ds, ks, ns)[q] == x
    ensures && Blocks(a, Blocks(|ds|, Blocks(|ks|, |ns|))) + q < |Combos(ms, ds, ks, ns)|
            && Combos(ms, ds, ks, ns)[Blocks(a, Blocks(|ds|, Blocks(|ks|, |ns|))) + q] == x
  {
    var blocks := MethodBlocks(ms, ds, ks, ns);
    DegreeLength(ms[a], ds, ks, ns);
    MethodBlocksUniform(ms, ds, ks, ns);
    assert blocks[a][q] == x;
    FlattenPick(blocks, Blocks(|ds|, Blocks(|ks|, |ns|)), a, q, x);
  }

  /** Where the four nested loops put the combination of ms[a], ds[b], ks[c] and ns[e]. */
  function Position(a: nat, b: nat, c: nat, e: nat, nd: nat, nk: nat, nn: nat): nat
  {
    ((a * nd + b) * nk + c) * nn + e
  }

  /** The combination at one position of the sweep. */
  lemma CombosAt(ms: seq<string>, ds: seq<int>, ks: seq<int>, ns: seq<int>, a: nat, b: nat, c: nat, e: nat)
    requires a < |ms| && b < |ds| && c < |ks| && e < |ns|
    ensures Position(a, b, c, e, |ds|, |ks|, |ns|) < |Combos(ms, ds, ks, ns)|
    ensures Combos(ms, ds, ks, ns)[Position(a, b, c, e, |ds|, |ks|, |ns|)] == Combo(ms[a], ks[c], ds[b], ns[e])
  {
    var q := Blocks(b, Blocks(|ks|, |ns|)) + (Blocks(c, |ns|) + e);
    var x := Combo(ms[a], ks[c], ds[b], ns[e]);
    DegreesAt(ms[a], ds, ks, ns, b, c, e);
    MethodBlockAt(ms, ds, ks, ns, a, q, x);
    NestedBlocks(a, b, c, e, |ds|, |ks|, |ns|);
  }

  /** The sweep runs one combination per element of the product of the four lists. */
  lemma CombosLength(ms: seq<string>, ds: seq<int>, ks: seq<int>, ns: seq<int>)
    ensures |Combos(ms, ds, ks, ns)| == |ms| * (|ds| * (|ks| * |ns|))
  {
    MethodBlocksUniform(ms, ds, ks, ns);
    FlattenUniform(MethodBlocks(ms, ds, ks, ns), Blocks(|ds|, Blocks(|ks|, |ns|)));
    BlocksProduct(|ms|, |ds|, |ks|, |ns|);
  }

  /** The fixed grid of pipeline.py: one k, one degree, five component counts, three methods. */
  function GridCombos(): seq<Combo>
  {
    Combos(Methods, Degrees, Neighbours, ComponentCounts)
  }

  /** The fixed grid has 15 combinations and starts with the random forest at 10 components. */
  lemma GridSize()
    ensures |GridCombos()| == 15
    ensures GridCombos()[0] == Combo("RF", 6, 3, 10)
    ensures GridCombos()[14] == Combo("SVC", 6, 3, 800)
  {
    CombosLength(Methods, Degrees, Neighbours, ComponentCounts);
    CombosAt(Methods, Degrees, Neighbours, ComponentCounts, 0, 0, 0, 0);
    CombosAt(Methods, Degrees, Neighbours, ComponentCounts, 2, 0, 0, 4);
  }

  /** The best-so-far state of the sweep: `best_acc` and the position of the record, if one was bound. */
  datatype Tracker = Tracker(bestAcc: real, bestIndex: Option<nat>)

  /** Before any combination: `best_acc = 0.0` and no record. */
  const Initial: Tracker := Tracker(0.0, None)

  /** The update after combination `i`: replace the record only on a strictly greater accuracy. */
  function Step(t: Tracker, i: nat, accuracy: real): Tracker
  {
    if accuracy > t.bestAcc then Tracker(accuracy, Some(i)) else t
  }

  /** The tracker after the accuracies of the combinations run so far, in sweep order. */
  function Track(accs: seq<real>): (t: Tracker)
    ensures t.bestAcc >= 0.0
    ensures forall j :: 0 <= j < |accs| ==> accs[j] <= t.bestAcc
    ensures t.bestIndex.Some? ==> t.bestIndex.value < |accs| && t.bestAcc == accs[t.bestIndex.value]
    decreases |accs|
  {
    if |accs| == 0 then Initial else Step(Track(accs[..|accs| - 1]), |accs| - 1, accs[|accs| - 1])
  }

  /**
   * `i` is the first position holding the largest accuracy, and that accuracy
   * beats the initial 0.0.
   */
  ghost predicate IsFirstBest(accs: seq<real>, i: int)
  {
    && 0 <= i < |accs|
    && accs[i] > 0.0
    && (forall j :: 0 <= j < |accs| ==> accs[j] <= accs[i])
    && (forall j :: 0 <= j < i ==> accs[j] < accs[i])
  }

  /**
   * The fold finds the first maximum: no record exactly when no accuracy
   * exceeds 0.0, and otherwise the record is the first position holding the
   * maximum, with `best_acc` equal to that maximum.
   */
  lemma {:induction false} TrackFindsFirstBest(accs: seq<real>)
    ensures Track(accs).bestIndex.None? <==> forall j :: 0 <= j < |accs| ==> accs[j] <= 0.0
    ensures Track(accs).bestIndex.None? ==> Track(accs).bestAcc == 0.0
    ensures Track(accs).bestIndex.Some? ==>
              && IsFirstBest(accs, Track(accs).bestIndex.value)
              && Track(accs).bestAcc == accs[Track(accs).bestIndex.value]
    decreases |accs|
  {
    if |accs| > 0 {
      var n := |accs| - 1;
      var prefix := accs[..n];
      TrackFindsFirstBest(prefix);
      assert forall j :: 0 <= j < n ==> prefix[j] == accs[j];
    }
  }

  /** One more combination advances the tracker by one step. */
  lemma TrackStep(accs: seq<real>, i: nat)
    requires i < |accs|
    ensures Track(accs[..i + 1]) == Step(Track(accs[..i]), i, accs[i])
  {
    assert accs[..i + 1][..i] == accs[..i];
  }

  /** `best_acc` never decreases as the sweep proceeds. */
  lemma {:induction false} TrackNeverDecreases(accs: seq<real>, i: nat, j: nat)
    requires i <= j <= |accs|
    ensures Track(accs[..i]).bestAcc <= Track(accs[..j]).bestAcc
    decreases j - i
  {
    if i < j {
      TrackNeverDecreases(accs, i, j - 1);
      assert accs[..j][..j - 1] == accs[..j - 1];
    }
  }

  /** `best_acc` as observed after each combination. */
  function BestAccHistory(accs: seq<real>): (h: seq<real>)
    ensures |h| == |accs|
  {
    seq(|accs|, i requires 0 <= i < |accs| => Track(accs[..i + 1]).bestAcc)
  }

  /** The history of `best_acc` is non-decreasing and never below 0.0. */
  lemma BestAccHistoryMonotone(accs: seq<real>)
    ensures forall i, j :: 0 <= i <= j < |accs| ==> 0.0 <= BestAccHistory(accs)[i] <= BestAccHistory(accs)[j]
  {
    forall i, j | 0 <= i <= j < |accs|
      ensures 0.0 <= BestAccHistory(accs)[i] <= BestAccHistory(accs)[j]
    {
      TrackNeverDecreases(accs, 0, i + 1);
      TrackNeverDecreases(accs, i + 1, j + 1);
    }
  }

  /** Accuracies 0.6, 0.55, 0.9, 0.7 give the history 0.6, 0.6, 0.9, 0.9 and keep the third combination. */
  lemma SweepExample()
    ensures BestAccHistory([0.6, 0.55, 0.9, 0.7]) == [0.6, 0.6, 0.9, 0.9]
    ensures Track([0.6, 0.55, 0.9, 0.7]).bestIndex == Some(2)
  {
    var accs := [0.6, 0.55, 0.9, 0.7];
    assert accs[..1] == [0.6];
    assert accs[..2] == [0.6, 0.55];
    assert accs[..3] == [0.6, 0.55, 0.9];
    assert accs[..4] == accs;
    assert [0.6, 0.55, 0.9][..2] == accs[..2];
    assert [0.6, 0.55][..1] == accs[..1];
    assert [0.6][..0] == [];
  }

  /** What one combination's run reports: the fitted model, its CV statistics and its test accuracy. */
  datatype Trial<M, S> = Trial(model: M, statistics: S, accuracy: real)

  /** The best record the sweep returns. */
  datatype Best<M, S> = Best(params: Combo, model: M, statistics: S, accuracy: real)

  /** A run that raised (aborting the sweep), or a sweep that never bound its best record. */
  datatype SweepError<E> = RunFailed(cause: E) | Unbound

  /** Accuracy of a run that succeeded; a failed run aborts before its accuracy matters. */
  function AccuracyOf<M, S, E>(out: Result<Trial<M, S>, E>): real
  {
    if out.Success? then out.value.accuracy else 0.0
  }

  /** The outcome of every combination's run on the one split, in sweep order. */
  function Outcomes<P, M, S, E>(combos: seq<Combo>, run: (Combo, nat, P) -> Result<Trial<M, S>, E>, parts: P)
    : (outs: seq<Result<Trial<M, S>, E>>)
    ensures |outs| == |combos|
    ensures forall i :: 0 <= i < |combos| ==> outs[i] == run(combos[i], Splits, parts)
  {
    seq(|combos|, i requires 0 <= i < |combos| => run(combos[i], Splits, parts))
  }

  /** The accuracies the runs report, in sweep order. */
  function Accuracies<M, S, E>(outs: seq<Result<Trial<M, S>, E>>): (accs: seq<real>)
    ensures |accs| == |outs|
    ensures forall i :: 0 <= i < |outs| && outs[i].Success? ==> accs[i] == outs[i].value.accuracy
  {
    seq(|outs|, i requires 0 <= i < |outs| => AccuracyOf(outs[i]))
  }

  /** The best record that a tracker designates among the runs' outcomes. */
  function RecordOf<M, S, E>(t: Tracker, combos: seq<Combo>, outs: seq<Result<Trial<M, S>, E>>): Option<Best<M, S>>
    requires |outs| == |combos|
  {
    match t.bestIndex
    case None => None
    case Some(i) =>
      if i < |outs| && outs[i].Success?
      then Some(Best(combos[i], outs[i].value.model, outs[i].value.statistics, outs[i].value.accuracy))
      else None
  }

  /**
   * What the sweep promises about its result `r`, given the outcome of every
   * combination's run: the first run that raised aborts the sweep with its
   * error; when all runs succeed, there is no record exactly when no accuracy
   * exceeds 0.0, and otherwise the record is the first combination reaching
   * the maximum accuracy, with that combination's model and statistics.
   */
  ghost predicate SweepResult<M, S, E>(combos: seq<Combo>, outs: seq<Result<Trial<M, S>, E>>,
                                       r: Result<Best<M, S>, SweepError<E>>)
    requires |outs| == |combos|
  {
    && (forall i :: 0 <= i < |outs| && outs[i].Failure? && (forall j :: 0 <= j < i ==> outs[j].Success?) ==>
          r == Failure(RunFailed(outs[i].error)))
    && ((forall i :: 0 <= i < |outs| ==> outs[i].Success?) ==>
          var accs := Accuracies(outs);
          && (r.Failure? <==> forall j :: 0 <= j < |accs| ==> accs[j] <= 0.0)
          && (r.Failure? ==> r.error == Unbound)
          && (r.Success? ==>
                (exists i :: IsFirstBest(accs, i) && r.value ==
                   Best(combos[i], outs[i].value.model, outs[i].value.statistics, accs[i]))))
  }

  /** A sweep that stops at the first run that raised reports that run's error. */
  lemma AbortResult<M, S, E>(combos: seq<Combo>, outs: seq<Result<Trial<M, S>, E>>, i: nat)
    requires |outs| == |combos| && i < |outs| && outs[i].Failure?
    requires forall j :: 0 <= j < i ==> outs[j].Success?
    ensures SweepResult(combos, outs, Failure(RunFailed(outs[i].error)))
  {
    forall i' | 0 <= i' < |outs| && outs[i'].Failure? && (forall j :: 0 <= j < i' ==> outs[j].Success?)
      ensures i' == i
    {
    }
  }

  /** A sweep whose runs all succeed reports the record its tracker designates, or no record. */
  lemma FinishResult<M, S, E>(combos: seq<Combo>, outs: seq<Result<Trial<M, S>, E>>, record: Option<Best<M, S>>)
    requires |outs| == |combos| && forall j :: 0 <= j < |outs| ==> outs[j].Success?
    requires record == RecordOf(Track(Accuracies(outs)), combos, outs)
    ensures SweepResult(combos, outs, if record.None? then Failure(Unbound) else Success(record.value))
  {
    TrackFindsFirstBest(Accuracies(outs));
  }

  /**
   * The selection loop over the combinations, all run on the one split
   * `parts`; `run` performs preprocessing, reduction, training and scoring
   * of one combination with the given fold count, or raises.
   */
  method Sweep<P, M, S, E>(combos: seq<Combo>, parts: P, run: (Combo, nat, P) -> Result<Trial<M, S>, E>)
    returns (r: Result<Best<M, S>, SweepError<E>>)
    ensures SweepResult(combos, Outcomes(combos, run, parts), r)
  {
    ghost var outs := Outcomes(combos, run, parts);
    ghost var accs := Accuracies(outs);
    var bestAcc := 0.0;
    var record: Option<Best<M, S>> := None;
    var i := 0;
    while i < |combos|
      invariant 0 <= i <= |combos|
      invariant forall j :: 0 <= j < i ==> outs[j].Success?
      invariant bestAcc == Track(accs[..i]).bestAcc
      invariant record == RecordOf(Track(accs[..i]), combos, outs)
    {
      var out := run(combos[i], Splits, parts);
      assert out == outs[i];
      if out.Failure? {
        AbortResult(combos, outs, i);
        return Failure(RunFailed(out.error));
      }
      TrackStep(accs, i);
      var trial := out.value;
      if trial.accuracy > bestAcc {
        bestAcc := trial.accuracy;
        record := Some(Best(combos[i], trial.model, trial.statistics, trial.accuracy));
      }
      i := i + 1;
    }
    assert accs[..|combos|] == accs;
    FinishResult(combos, outs, record);
    if record.None? {
      return Failure(Unbound);
    }
    r := Success(record.value);
  }

  /**
   * `perform_gridsearch`: the train/test split `split` is applied to `data`
   * once, before the loops, and that one split is handed to every run of
   * the fixed grid.
   */
  method PerformGridSearch<D, P, M, S, E>(data: D, split: D -> P, run: (Combo, nat, P) -> Result<Trial<M, S>, E>)
    returns (r: Result<Best<M, S>, SweepError<E>>)
    ensures SweepResult(GridCombos(), Outcomes(GridCombos(), run, split(data)), r)
  {
    var parts := split(data);
    r := Sweep(GridCombos(), parts, run);
  }
}
