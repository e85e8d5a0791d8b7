/**
 * The trainer's model selection (pipeline.py, `Classification.__call__`).
 * The four model families are a closed set; any other method name raises
 * `ValueError` before cross-validation or the final fit start. Model
 * construction, cross-validation and fitting are library work and enter as
 * function parameters over an abstract model state `M` and statistics `S`.
 */
module Classification {
  import opened Wrappers

  /** The model families the trainer can build. */
  datatype Family = SupportVector | LogisticRegression | RandomForest | NeuralNetwork

  /** The `ValueError` raised for a method name outside the four families. */
  datatype ClassificationError = ValueError(message: string)

  /** The fixed message of that `ValueError`; it does not name the rejected method. */
  const UnsupportedMessage: string := "Select one of SVC, LR, RF and NN"

  /** The method names the trainer accepts. */
  const MethodNames: set<string> := {"SVC", "LR", "RF", "NN"}

  /** The method name under which the command line and the sweep request each family. */
  function MethodName(f: Family): (name: string)
    ensures name in MethodNames
  {
    match f
    case SupportVector => "SVC"
    case LogisticRegression => "LR"
    case RandomForest => "RF"
    case NeuralNetwork => "NN"
  }

  /** Maps a method name to its model family, or raises for an unknown name. */
  function SelectModel(name: string): (r: Result<Family, ClassificationError>)
    ensures r.Success? <==> name in MethodNames
    ensures r.Success? ==> MethodName(r.value) == name
    ensures r.Failure? ==> r.error == ValueError(UnsupportedMessage)
  {
    if name == "SVC" then Success(SupportVector)
    else if name == "LR" then Success(LogisticRegression)
    else if name == "RF" then Success(RandomForest)
    else if name == "NN" then Success(NeuralNetwork)
    else Failure(ValueError(UnsupportedMessage))
  }

  /** Selecting the name of a family gives back that family: no two families share a name. */
  lemma SelectModelInvertsMethodName(f: Family)
    ensures SelectModel(MethodName(f)) == Success(f)
  {
  }

  /** Distinct families have distinct names, so exactly one family answers to a valid name. */
  lemma {:induction false} MethodNameInjective(f: Family, g: Family)
    ensures MethodName(f) == MethodName(g) <==> f == g
  {
    SelectModelInvertsMethodName(f);
    SelectModelInvertsMethodName(g);
  }

  /** What one trainer run hands back: the family, the finally fitted model and the CV statistics. */
  datatype Trained<M, S> = Trained(family: Family, model: M, statistics: S)

  /**
   * One trainer run. `build` makes the untrained model of a family;
   * `crossValidate` runs the folds on it and returns the model state the
   * folds left behind together with the statistics; `fitAll` refits that
   * same model object on the whole training set. The model is reused across
   * the folds and the final fit, as in pipeline.py: no fresh instance is made.
   */
  function Classify<M, S>(name: string, build: Family -> M, crossValidate: (Family, M) -> (M, S),
                          fitAll: (Family, M) -> M): (r: Result<Trained<M, S>, ClassificationError>)
    ensures r.Failure? <==> name !in MethodNames
    ensures r.Failure? ==> r.error == ValueError(UnsupportedMessage)
    ensures r.Success? ==> MethodName(r.value.family) == name
    ensures r.Success? ==>
              var afterFolds := crossValidate(r.value.family, build(r.value.family));
              && r.value.statistics == afterFolds.1
              && r.value.model == fitAll(r.value.family, afterFolds.0)
  {
    match SelectModel(name)
    case Failure(e) => Failure(e)
    case Success(family) =>
      var (afterFolds, statistics) := crossValidate(family, build(family));
      Success(Trained(family, fitAll(family, afterFolds), statistics))
  }
}
