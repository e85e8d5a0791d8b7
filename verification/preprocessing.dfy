/**
 * The schema-level rules of the `Preprocessing` class of pipeline.py:
 * which declared categorical columns `check_one_hot_encoding` replaces by
 * indicator columns, how many indicators each gets (one fewer for the
 * neural network), and which column names `__call__` leaves behind.
 * Imputation, scaling and the polynomial map act on values and are not
 * modelled; only the column names they leave behind are.
 */
module Preprocessing {
  import opened Wrappers
  import opened Schema
  import Classification
  import PolynomialExpansion

  /** `df[header]` on a header the table does not have: pandas raises a KeyError naming the headers. */
  datatype PreprocessError = MissingColumns(headers: seq<string>)

  /** The neural network asks `pd.get_dummies` to drop the first indicator of every encoded column. */
  predicate DropsFirst(methodName: string)
  {
    methodName == Classification.MethodName(Classification.NeuralNetwork)
  }

  /** Encoding is disabled for the random forest. */
  predicate SkipsEncoding(methodName: string)
  {
    methodName == Classification.MethodName(Classification.RandomForest)
  }

  /** Index of the first level that keeps an indicator column. */
  function FirstLevel(methodName: string): nat
  {
    if DropsFirst(methodName) then 1 else 0
  }

  /** How many indicator columns `pd.get_dummies` makes for a column with `levels` distinct values. */
  function IndicatorWidth(levels: nat, methodName: string): nat
  {
    if DropsFirst(methodName) && levels > 0 then levels - 1 else levels
  }

  /** An indicator column holds 0 and 1, or only 1 when its source column is constant. */
  function IndicatorLevels(levels: nat): nat
  {
    if levels >= 2 then 2 else 1
  }

  /** The indicator columns that replace the input column `header` with `levels` distinct values. */
  function Indicators(header: string, levels: nat, methodName: string): (r: seq<Column>)
    ensures |r| == IndicatorWidth(levels, methodName)
    ensures forall j :: 0 <= j < |r| ==> r[j].name.Indicator? && r[j].name.source == header
  {
    seq(IndicatorWidth(levels, methodName),
        j requires 0 <= j => Column(Indicator(header, FirstLevel(methodName) + j), IndicatorLevels(levels)))
  }

  /**
   * One iteration of the loop in `check_one_hot_encoding`: a binary column
   * stays as it is; any other column is dropped, every other column kept,
   * and its indicators appended.
   */
  function EncodeColumn(t: seq<Column>, header: string, methodName: string): (r: Result<seq<Column>, PreprocessError>)
    ensures r.Failure? <==> Find(t, header).None?
    ensures r.Failure? ==> r.error == MissingColumns([header])
    ensures r.Success? && t[Find(t, header).value].levels == 2 ==> r.value == t
    ensures r.Success? && t[Find(t, header).value].levels != 2 ==>
              var i := Find(t, header).value;
              var ind := Indicators(header, t[i].levels, methodName);
              && |r.value| == |t| - 1 + IndicatorWidth(t[i].levels, methodName)
              && (forall k :: 0 <= k < |t| && k != i ==> t[k] in r.value)
              && (forall x :: x in ind ==> x in r.value)
              && (forall c :: c in r.value ==> c in ind || exists k :: 0 <= k < |t| && k != i && t[k] == c)
              && (DistinctNames(t) ==> forall k :: 0 <= k < |r.value| ==> r.value[k].name != Raw(header))
  {
    match Find(t, header)
    case None => Failure(MissingColumns([header]))
    case Some(i) =>
      if t[i].levels == 2 then Success(t)
      else
        var ind := Indicators(header, t[i].levels, methodName);
        RemoveAppend(t, i, ind);
        Success(t[..i] + t[i + 1..] + ind)
  }

  /** `check_one_hot_encoding`: encode the declared categorical columns one after the other. */
  function OneHotEncode(t: seq<Column>, categorical: seq<string>, methodName: string): (r: Result<seq<Column>, PreprocessError>)
    ensures |categorical| == 0 ==> r == Success(t)
    ensures r.Failure? ==> |r.error.headers| == 1 && r.error.headers[0] in categorical
    decreases |categorical|
  {
    if |categorical| == 0 then Success(t)
    else match EncodeColumn(t, categorical[0], methodName)
      case Failure(e) => Failure(e)
      case Success(u) => OneHotEncode(u, categorical[1..], methodName)
  }

  // ---------------------------------------------------------------------
  // What the encoding does, stated against the input schema
  // ---------------------------------------------------------------------

  predicate DistinctHeaders(headers: seq<string>)
  {
    forall i, j :: 0 <= i < j < |headers| ==> headers[i] != headers[j]
  }

  /** Input column `c` is replaced once its header has been processed: it is declared and not binary. */
  predicate Replaced(done: seq<string>, c: Column)
  {
    c.name.Raw? && c.name.header in done && c.levels != 2
  }

  /** `c` is an input column of `s` that the encoding leaves alone. */
  ghost predicate Kept(s: seq<Column>, done: seq<string>, c: Column)
  {
    c in s && !Replaced(done, c)
  }

  /** `c` is one of the indicators of a replaced input column of `s`. */
  ghost predicate IsIndicator(s: seq<Column>, done: seq<string>, c: Column, methodName: string)
  {
    exists i :: 0 <= i < |s| && Replaced(done, s[i]) && c in Indicators(s[i].name.header, s[i].levels, methodName)
  }

  /** A replaced column is gone and all its indicators are present; any other column is present. */
  ghost predicate Covered(done: seq<string>, t: seq<Column>, c: Column, methodName: string)
    requires c.name.Raw?
  {
    if Replaced(done, c) then
      (forall k :: 0 <= k < |t| ==> t[k].name != c.name) &&
      (forall x :: x in Indicators(c.name.header, c.levels, methodName) ==> x in t)
    else c in t
  }

  /** Growth in width from encoding `header` of schema `s`: K-1 extra columns, K-2 for the neural network. */
  function Growth(s: seq<Column>, header: string, methodName: string): int
  {
    match Find(s, header)
    case None => 0
    case Some(i) => if s[i].levels == 2 then 0 else IndicatorWidth(s[i].levels, methodName) - 1
  }

  /** Total growth over the processed headers. */
  function TotalGrowth(s: seq<Column>, done: seq<string>, methodName: string): int
    decreases |done|
  {
    if |done| == 0 then 0
    else TotalGrowth(s, done[..|done| - 1], methodName) + Growth(s, done[|done| - 1], methodName)
  }

  /** The table `t` is what encoding the headers `done` of input schema `s` gives. */
  ghost predicate EncodedFrom(s: seq<Column>, done: seq<string>, t: seq<Column>, methodName: string)
    requires RawSchema(s)
  {
    && DistinctNames(t)
    && (forall k :: 0 <= k < |t| ==> Kept(s, done, t[k]) || IsIndicator(s, done, t[k], methodName))
    && (forall i :: 0 <= i < |s| ==> Covered(done, t, s[i], methodName))
    && |t| == |s| + TotalGrowth(s, done, methodName)
  }

  lemma EncodedFromStart(s: seq<Column>, methodName: string)
    requires RawSchema(s)
    ensures EncodedFrom(s, [], s, methodName)
  {
  }

  /** Where the columns of `t` and `ind` sit after removing position `q` of `t` and appending `ind`. */
  lemma ReplaceIndex(t: seq<Column>, q: nat, ind: seq<Column>)
    requires q < |t|
    ensures var u := t[..q] + t[q + 1..] + ind;
      && |u| == |t| - 1 + |ind|
      && (forall k :: 0 <= k < q ==> u[k] == t[k])
      && (forall k :: q <= k < |t| - 1 ==> u[k] == t[k + 1])
      && (forall j :: 0 <= j < |ind| ==> u[|t| - 1 + j] == ind[j])
  {
  }

  /** Removing position `q` and appending `ind` keeps every other column and adds exactly `ind`. */
  lemma RemoveAppend(t: seq<Column>, q: nat, ind: seq<Column>)
    requires q < |t|
    ensures var u := t[..q] + t[q + 1..] + ind;
      && |u| == |t| - 1 + |ind|
      && (forall k :: 0 <= k < q ==> u[k] == t[k])
      && (forall k :: q <= k < |t| - 1 ==> u[k] == t[k + 1])
      && (forall j :: 0 <= j < |ind| ==> u[|t| - 1 + j] == ind[j])
      && (forall k :: 0 <= k < |t| && k != q ==> t[k] in u)
      && (forall x :: x in ind ==> x in u)
  {
    var u := t[..q] + t[q + 1..] + ind;
    ReplaceIndex(t, q, ind);
    forall k | 0 <= k < |t| && k != q
      ensures t[k] in u
    {
      if k < q {
        assert u[k] == t[k];
      } else {
        assert u[k - 1] == t[k];
      }
    }
    forall x | x in ind
      ensures x in u
    {
      var j :| 0 <= j < |ind| && ind[j] == x;
      assert u[|t| - 1 + j] == x;
    }
  }

  /** Indicators of one column have pairwise distinct names. */
  lemma IndicatorsDistinct(header: string, levels: nat, methodName: string)
    ensures DistinctNames(Indicators(header, levels, methodName))
  {
    var ind := Indicators(header, levels, methodName);
    forall i, j | 0 <= i < j < |ind|
      ensures ind[i].name != ind[j].name
    {
      assert ind[i].name.level == FirstLevel(methodName) + i;
      assert ind[j].name.level == FirstLevel(methodName) + j;
    }
  }

  /** A column the encoding produces is an input column or an indicator whose source has been processed. */
  lemma EncodedColumnShape(s: seq<Column>, done: seq<string>, c: Column, methodName: string)
    requires RawSchema(s)
    requires Kept(s, done, c) || IsIndicator(s, done, c, methodName)
    ensures c.name.Raw? || (c.name.Indicator? && c.name.source in done)
  {
    if !Kept(s, done, c) {
      var i :| 0 <= i < |s| && Replaced(done, s[i]) && c in Indicators(s[i].name.header, s[i].levels, methodName);
    }
  }

  /** Before its header is processed, a column is in the encoded table exactly when it is in the input. */
  lemma {:induction false} FindAgrees(s: seq<Column>, done: seq<string>, t: seq<Column>, header: string, methodName: string)
    requires RawSchema(s) && EncodedFrom(s, done, t, methodName) && header !in done
    ensures Find(t, header).Some? <==> Find(s, header).Some?
    ensures Find(s, header).Some? ==> t[Find(t, header).value] == s[Find(s, header).value]
  {
    if Find(t, header).Some? {
      var q := Find(t, header).value;
      EncodedColumnShape(s, done, t[q], methodName);
      assert t[q] in s;
      var i :| 0 <= i < |s| && s[i] == t[q];
      assert s[i].name == Raw(header);
    }
    if Find(s, header).Some? {
      var p := Find(s, header).value;
      assert Covered(done, t, s[p], methodName);
      assert !Replaced(done, s[p]);
      var k :| 0 <= k < |t| && t[k] == s[p];
      assert t[k].name == Raw(header);
      var q := Find(t, header).value;
      assert q == k;
    }
  }

  /** Columns of a raw schema with different positions have different headers. */
  lemma RawHeadersDiffer(s: seq<Column>, i: nat, p: nat)
    requires RawSchema(s) && i < |s| && p < |s| && i != p
    ensures s[i].name.header != s[p].name.header
  {
    if i < p {
      assert s[i].name != s[p].name;
    } else {
      assert s[p].name != s[i].name;
    }
  }

  /** Processing a binary column changes nothing. */
  lemma {:induction false} EncodeBinaryStep(s: seq<Column>, done: seq<string>, t: seq<Column>, header: string, methodName: string)
    requires RawSchema(s) && EncodedFrom(s, done, t, methodName) && header !in done
    requires Find(s, header).Some? && s[Find(s, header).value].levels == 2
    ensures EncodeColumn(t, header, methodName) == Success(t)
    ensures EncodedFrom(s, done + [header], t, methodName)
  {
    FindAgrees(s, done, t, header, methodName);
    var p := Find(s, header).value;
    var done' := done + [header];
    assert done'[..|done'| - 1] == done;
    assert TotalGrowth(s, done', methodName) == TotalGrowth(s, done, methodName);
    forall i | 0 <= i < |s|
      ensures Replaced(done', s[i]) == Replaced(done, s[i])
    {
      if i != p {
        RawHeadersDiffer(s, i, p);
      }
    }
    forall k | 0 <= k < |t|
      ensures Kept(s, done', t[k]) || IsIndicator(s, done', t[k], methodName)
    {
      if Kept(s, done, t[k]) {
        var i :| 0 <= i < |s| && s[i] == t[k];
        assert Replaced(done', s[i]) == Replaced(done, s[i]);
      } else {
        var i :| 0 <= i < |s| && Replaced(done, s[i]) && t[k] in Indicators(s[i].name.header, s[i].levels, methodName);
        assert Replaced(done', s[i]);
      }
    }
    forall i | 0 <= i < |s|
      ensures Covered(done', t, s[i], methodName)
    {
      assert Covered(done, t, s[i], methodName);
    }
  }

  /**
   * The situation when the loop reaches a non-binary declared column:
   * `s[p]` is its input column and `t[q]` the same column in the table
   * encoded so far.
   */
  ghost predicate AtReplacement(s: seq<Column>, done: seq<string>, t: seq<Column>, header: string, methodName: string, p: nat, q: nat)
  {
    && RawSchema(s) && EncodedFrom(s, done, t, methodName) && header !in done
    && p < |s| && q < |t| && s[p].name == Raw(header) && s[p].levels != 2 && t[q] == s[p]
  }

  /** The table after the replacement: `t` without position `q`, then the indicators. */
  function Replace(t: seq<Column>, q: nat, ind: seq<Column>): seq<Column>
    requires q < |t|
  {
    t[..q] + t[q + 1..] + ind
  }

  /** No column other than `t[q]` is named `header`, and none is an indicator of it. */
  lemma {:induction false} OthersUnrelated(s: seq<Column>, done: seq<string>, t: seq<Column>, header: string, methodName: string, p: nat, q: nat)
    requires AtReplacement(s, done, t, header, methodName, p, q)
    ensures forall k :: 0 <= k < |t| && k != q ==> t[k].name != Raw(header)
    ensures forall k :: 0 <= k < |t| ==> !(t[k].name.Indicator? && t[k].name.source == header)
  {
    forall k | 0 <= k < |t| && k != q
      ensures t[k].name != Raw(header)
    {
      if k < q {
        assert t[k].name != t[q].name;
      } else {
        assert t[q].name != t[k].name;
      }
    }
    forall k | 0 <= k < |t|
      ensures !(t[k].name.Indicator? && t[k].name.source == header)
    {
      EncodedColumnShape(s, done, t[k], methodName);
    }
  }

  /** Each column of the new table is kept or an indicator. */
  lemma {:induction false} ReplaceShape(s: seq<Column>, done: seq<string>, t: seq<Column>, header: string, methodName: string, p: nat, q: nat)
    requires AtReplacement(s, done, t, header, methodName, p, q)
    ensures var u := Replace(t, q, Indicators(header, s[p].levels, methodName));
      forall k :: 0 <= k < |u| ==> Kept(s, done + [header], u[k]) || IsIndicator(s, done + [header], u[k], methodName)
  {
    var ind := Indicators(header, s[p].levels, methodName);
    var u := Replace(t, q, ind);
    var done' := done + [header];
    RemoveAppend(t, q, ind);
    OthersUnrelated(s, done, t, header, methodName, p, q);
    forall k | 0 <= k < |u|
      ensures Kept(s, done', u[k]) || IsIndicator(s, done', u[k], methodName)
    {
      if k >= |t| - 1 {
        assert u[k] == ind[k - (|t| - 1)];
        assert Replaced(done', s[p]);
      } else {
        var m := if k < q then k else k + 1;
        assert u[k] == t[m] && m != q;
        if Kept(s, done, t[m]) {
          assert t[m].name != Raw(header);
        } else {
          var i :| 0 <= i < |s| && Replaced(done, s[i]) && t[m] in Indicators(s[i].name.header, s[i].levels, methodName);
          assert Replaced(done', s[i]);
        }
      }
    }
  }

  /** The new table has no duplicate names. */
  lemma {:induction false} ReplaceDistinct(t: seq<Column>, q: nat, header: string, ind: seq<Column>)
    requires q < |t| && DistinctNames(t) && DistinctNames(ind)
    requires forall k :: 0 <= k < |t| ==> !(t[k].name.Indicator? && t[k].name.source == header)
    requires forall j :: 0 <= j < |ind| ==> ind[j].name.Indicator? && ind[j].name.source == header
    ensures DistinctNames(Replace(t, q, ind))
  {
    var u := Replace(t, q, ind);
    var li := |t| - 1;
    forall i, j | 0 <= i < j < |u|
      ensures u[i].name != u[j].name
    {
      if j < li {
        var mi := if i < q then i else i + 1;
        var mj := if j < q then j else j + 1;
        assert u[i] == t[mi] && u[j] == t[mj] && mi < mj;
      } else if i < li {
        var mi := if i < q then i else i + 1;
        assert u[i] == t[mi];
        assert u[j] == ind[j - li];
      } else {
        assert u[i] == ind[i - li] && u[j] == ind[j - li];
      }
    }
  }

  /** The replaced column is gone from the new table and its indicators are there. */
  lemma {:induction false} ReplaceCoversOwn(done: seq<string>, t: seq<Column>, q: nat, ind: seq<Column>, c: Column, methodName: string)
    requires q < |t| && t[q] == c && c.name.Raw? && c.levels != 2
    requires forall k :: 0 <= k < |t| && k != q ==> t[k].name != c.name
    requires ind == Indicators(c.name.header, c.levels, methodName)
    ensures Covered(done + [c.name.header], Replace(t, q, ind), c, methodName)
  {
    var u := Replace(t, q, ind);
    RemoveAppend(t, q, ind);
    assert Replaced(done + [c.name.header], c);
    forall k | 0 <= k < |u|
      ensures u[k].name != c.name
    {
      if k < |t| - 1 {
        var m := if k < q then k else k + 1;
        assert u[k] == t[m] && m != q;
      } else {
        assert u[k] == ind[k - (|t| - 1)];
      }
    }
  }

  /** Any other input column is covered by the new table as it was by the old one. */
  lemma {:induction false} ReplaceCoversOther(done: seq<string>, t: seq<Column>, q: nat, header: string, ind: seq<Column>,
                                              c: Column, methodName: string)
    requires q < |t| && t[q].name == Raw(header)
    requires c.name.Raw? && c.name.header != header
    requires Covered(done, t, c, methodName)
    requires forall j :: 0 <= j < |ind| ==> ind[j].name.Indicator?
    ensures Covered(done + [header], Replace(t, q, ind), c, methodName)
  {
    var u := Replace(t, q, ind);
    RemoveAppend(t, q, ind);
    assert Replaced(done + [header], c) == Replaced(done, c);
    if Replaced(done, c) {
      forall k | 0 <= k < |u|
        ensures u[k].name != c.name
      {
        if k < |t| - 1 {
          var m := if k < q then k else k + 1;
          assert u[k] == t[m];
        } else {
          assert u[k] == ind[k - (|t| - 1)];
        }
      }
      forall x | x in Indicators(c.name.header, c.levels, methodName)
        ensures x in u
      {
        assert x in t;
        var k :| 0 <= k < |t| && t[k] == x;
        assert x.name.Indicator?;
        assert k != q;
      }
    } else {
      var k :| 0 <= k < |t| && t[k] == c;
      assert k != q;
    }
  }

  /** Every input column is covered by the new table. */
  lemma {:induction false} ReplaceCovers(s: seq<Column>, done: seq<string>, t: seq<Column>, header: string, methodName: string, p: nat, q: nat)
    requires AtReplacement(s, done, t, header, methodName, p, q)
    ensures var u := Replace(t, q, Indicators(header, s[p].levels, methodName));
      forall i :: 0 <= i < |s| ==> Covered(done + [header], u, s[i], methodName)
  {
    var ind := Indicators(header, s[p].levels, methodName);
    OthersUnrelated(s, done, t, header, methodName, p, q);
    forall i | 0 <= i < |s|
      ensures Covered(done + [header], Replace(t, q, ind), s[i], methodName)
    {
      if i == p {
        ReplaceCoversOwn(done, t, q, ind, s[p], methodName);
      } else {
        RawHeadersDiffer(s, i, p);
        assert Covered(done, t, s[i], methodName);
        ReplaceCoversOther(done, t, q, header, ind, s[i], methodName);
      }
    }
  }

  /** Processing a non-binary column removes it and appends its indicators. */
  lemma {:induction false} EncodeReplaceStep(s: seq<Column>, done: seq<string>, t: seq<Column>, header: string, methodName: string)
    requires RawSchema(s) && EncodedFrom(s, done, t, methodName) && header !in done
    requires Find(s, header).Some? && s[Find(s, header).value].levels != 2
    ensures EncodeColumn(t, header, methodName).Success?
    ensures EncodedFrom(s, done + [header], EncodeColumn(t, header, methodName).value, methodName)
  {
    FindAgrees(s, done, t, header, methodName);
    var p := Find(s, header).value;
    var q := Find(t, header).value;
    var ind := Indicators(header, s[p].levels, methodName);
    var u := Replace(t, q, ind);
    assert EncodeColumn(t, header, methodName) == Success(u);
    assert AtReplacement(s, done, t, header, methodName, p, q);
    ReplaceShape(s, done, t, header, methodName, p, q);
    OthersUnrelated(s, done, t, header, methodName, p, q);
    IndicatorsDistinct(header, s[p].levels, methodName);
    ReplaceDistinct(t, q, header, ind);
    ReplaceCovers(s, done, t, header, methodName, p, q);
    RemoveAppend(t, q, ind);
    var done' := done + [header];
    assert done'[..|done'| - 1] == done;
    assert TotalGrowth(s, done', methodName) == TotalGrowth(s, done, methodName) + |ind| - 1;
  }

  /** One iteration of the loop on a declared header that the input has. */
  lemma EncodeStep(s: seq<Column>, done: seq<string>, t: seq<Column>, header: string, methodName: string)
    requires RawSchema(s) && EncodedFrom(s, done, t, methodName) && header !in done
    requires Find(s, header).Some?
    ensures EncodeColumn(t, header, methodName).Success?
    ensures EncodedFrom(s, done + [header], EncodeColumn(t, header, methodName).value, methodName)
  {
    if s[Find(s, header).value].levels == 2 {
      EncodeBinaryStep(s, done, t, header, methodName);
    } else {
      EncodeReplaceStep(s, done, t, header, methodName);
    }
  }

  /** In a list without repeats, no header occurs before its own position. */
  lemma NotBefore(headers: seq<string>, i: nat)
    requires DistinctHeaders(headers) && i < |headers|
    ensures headers[i] !in headers[..i]
    ensures headers[..i] + [headers[i]] == headers[..i + 1]
  {
    forall j | 0 <= j < i
      ensures headers[..i][j] != headers[i]
    {
      assert headers[..i][j] == headers[j];
    }
  }

  /** The `i`-th iteration of the loop, when its header is present. */
  lemma EncodeStepAt(s: seq<Column>, categorical: seq<string>, i: nat, t: seq<Column>, methodName: string)
    requires RawSchema(s) && DistinctHeaders(categorical) && i < |categorical|
    requires EncodedFrom(s, categorical[..i], t, methodName)
    requires Find(s, categorical[i]).Some?
    ensures EncodeColumn(t, categorical[i], methodName).Success?
    ensures EncodedFrom(s, categorical[..i + 1], EncodeColumn(t, categorical[i], methodName).value, methodName)
  {
    NotBefore(categorical, i);
    EncodeStep(s, categorical[..i], t, categorical[i], methodName);
  }

  /** When every remaining header is present, the loop runs to the end and the result is the encoding. */
  lemma {:induction false} EncodeAllPresent(s: seq<Column>, categorical: seq<string>, i: nat, t: seq<Column>, methodName: string)
    requires RawSchema(s) && DistinctHeaders(categorical) && i <= |categorical|
    requires EncodedFrom(s, categorical[..i], t, methodName)
    requires forall k :: i <= k < |categorical| ==> Find(s, categorical[k]).Some?
    ensures OneHotEncode(t, categorical[i..], methodName).Success?
    ensures EncodedFrom(s, categorical, OneHotEncode(t, categorical[i..], methodName).value, methodName)
    decreases |categorical| - i
  {
    if i == |categorical| {
      assert categorical[..i] == categorical;
    } else {
      EncodeStepAt(s, categorical, i, t, methodName);
      var u := EncodeColumn(t, categorical[i], methodName).value;
      EncodeAllPresent(s, categorical, i + 1, u, methodName);
      assert categorical[i..][1..] == categorical[i + 1..];
    }
  }

  /** When a remaining header is absent, the loop stops at the first such header with a KeyError. */
  lemma {:induction false} EncodeSomeMissing(s: seq<Column>, categorical: seq<string>, i: nat, t: seq<Column>, methodName: string, k: nat)
    requires RawSchema(s) && DistinctHeaders(categorical) && i <= k < |categorical|
    requires EncodedFrom(s, categorical[..i], t, methodName)
    requires Find(s, categorical[k]).None?
    requires forall j :: i <= j < k ==> Find(s, categorical[j]).Some?
    ensures OneHotEncode(t, categorical[i..], methodName) == Failure(MissingColumns([categorical[k]]))
    decreases k - i
  {
    NotBefore(categorical, i);
    FindAgrees(s, categorical[..i], t, categorical[i], methodName);
    if i < k {
      EncodeStepAt(s, categorical, i, t, methodName);
      var u := EncodeColumn(t, categorical[i], methodName).value;
      EncodeSomeMissing(s, categorical, i + 1, u, methodName, k);
      assert categorical[i..][1..] == categorical[i + 1..];
    }
  }

  /** The first absent header of a list, if any. */
  function FirstMissing(s: seq<Column>, headers: seq<string>): (r: Option<nat>)
    ensures r.None? <==> forall k :: 0 <= k < |headers| ==> Find(s, headers[k]).Some?
    ensures r.Some? ==> r.value < |headers| && Find(s, headers[r.value]).None?
    ensures r.Some? ==> forall j :: 0 <= j < r.value ==> Find(s, headers[j]).Some?
    decreases |headers|
  {
    if |headers| == 0 then None
    else if Find(s, headers[0]).None? then Some(0)
    else match FirstMissing(s, headers[1..])
      case None => None
      case Some(k) => Some(k + 1)
  }

  /**
   * `check_one_hot_encoding` on an input schema: it fails exactly when a
   * declared header is absent, naming the first such header; otherwise the
   * result has no duplicate names, a declared non-binary column is gone
   * and all its indicators are present, every other input column is
   * present, nothing else appears, and the width grows by K-1 per replaced
   * column (K-2 for the neural network).
   */
  lemma OneHotEncodeSpec(s: seq<Column>, categorical: seq<string>, methodName: string)
    requires RawSchema(s) && DistinctHeaders(categorical)
    ensures var r := OneHotEncode(s, categorical, methodName);
      && (r.Success? <==> forall h :: h in categorical ==> Find(s, h).Some?)
      && (r.Failure? ==> r.error == MissingColumns([categorical[FirstMissing(s, categorical).value]]))
      && (r.Success? ==> EncodedFrom(s, categorical, r.value, methodName))
  {
    EncodedFromStart(s, methodName);
    assert categorical[..0] == [] && categorical[0..] == categorical;
    match FirstMissing(s, categorical)
    case None =>
      EncodeAllPresent(s, categorical, 0, s, methodName);
    case Some(k) =>
      EncodeSomeMissing(s, categorical, 0, s, methodName, k);
  }

  // ---------------------------------------------------------------------
  // `__call__`
  // ---------------------------------------------------------------------

  /** One-hot encoding runs when a categorical list is given and the method is not the random forest. */
  predicate Encodes(categorical: Option<seq<string>>, methodName: string)
  {
    categorical.Some? && !SkipsEncoding(methodName)
  }

  /**
   * `Preprocessing(X, y, k, degree, categorical, method)()` on a table with
   * schema `s`, giving the column names of the result: imputation (whose
   * `cleaned_data[categorical]` raises a KeyError naming the absent
   * headers), the encoding gate, scaling, and the polynomial map when a
   * degree is given.
   */
  function Preprocess(s: seq<Column>, degree: Option<nat>, categorical: Option<seq<string>>, methodName: string): (r: Result<seq<Name>, PreprocessError>)
    ensures categorical.None? ==> r.Success?
    ensures r.Failure? ==>
              && categorical.Some?
              && |r.error.headers| > 0
              && forall h :: h in r.error.headers ==> h in categorical.value
  {
    if categorical.Some? && |Missing(s, categorical.value)| > 0 then
      Failure(MissingColumns(Missing(s, categorical.value)))
    else
      var encoded := if Encodes(categorical, methodName) then OneHotEncode(s, categorical.value, methodName) else Success(s);
      match encoded
      case Failure(e) => Failure(e)
      case Success(t) =>
        var standardised := Names(t);
        Success(if degree.Some? then PolynomialExpansion.PolynomialNames(standardised, degree.value) else standardised)
  }

  /** Width of the table that reaches scaling. */
  function StandardisedWidth(s: seq<Column>, categorical: Option<seq<string>>, methodName: string): int
  {
    |s| + if Encodes(categorical, methodName) then TotalGrowth(s, categorical.value, methodName) else 0
  }

  /** The table that reaches scaling: the encoded table, or the input when encoding is skipped. */
  lemma {:induction false} EncodedTable(s: seq<Column>, categorical: Option<seq<string>>, methodName: string)
    requires RawSchema(s)
    requires categorical.Some? ==> DistinctHeaders(categorical.value)
    requires categorical.Some? ==> forall h :: h in categorical.value ==> Find(s, h).Some?
    ensures Encodes(categorical, methodName) ==>
      && OneHotEncode(s, categorical.value, methodName).Success?
      && EncodedFrom(s, categorical.value, OneHotEncode(s, categorical.value, methodName).value, methodName)
      && |OneHotEncode(s, categorical.value, methodName).value| == StandardisedWidth(s, categorical, methodName)
  {
    if Encodes(categorical, methodName) {
      OneHotEncodeSpec(s, categorical.value, methodName);
    }
  }

  /**
   * `__call__` fails exactly when a categorical list names an absent
   * header, even for the random forest, and the error names every absent
   * header.
   */
  lemma {:induction false} PreprocessFails(s: seq<Column>, degree: Option<nat>, categorical: Option<seq<string>>, methodName: string)
    requires RawSchema(s)
    requires categorical.Some? ==> DistinctHeaders(categorical.value)
    ensures var r := Preprocess(s, degree, categorical, methodName);
      && (r.Failure? <==> categorical.Some? && exists h :: h in categorical.value && Find(s, h).None?)
      && (r.Failure? ==> forall h :: h in r.error.headers <==> h in categorical.value && Find(s, h).None?)
  {
    if categorical.Some? {
      var missing := Missing(s, categorical.value);
      if |missing| > 0 {
        assert missing[0] in categorical.value && Find(s, missing[0]).None?;
      } else {
        assert forall h :: h in categorical.value ==> Find(s, h).Some?;
        EncodedTable(s, categorical, methodName);
      }
    }
  }

  /**
   * Without a degree, the output names of `__call__` are those of the
   * encoded table, or of the input table when encoding is skipped.
   */
  lemma {:induction false} PreprocessNames(s: seq<Column>, categorical: Option<seq<string>>, methodName: string)
    requires RawSchema(s)
    requires categorical.Some? ==> DistinctHeaders(categorical.value)
    ensures var r := Preprocess(s, None, categorical, methodName);
      && (r.Success? && Encodes(categorical, methodName) ==>
            && OneHotEncode(s, categorical.value, methodName).Success?
            && EncodedFrom(s, categorical.value, OneHotEncode(s, categorical.value, methodName).value, methodName)
            && r.value == Names(OneHotEncode(s, categorical.value, methodName).value))
      && (r.Success? && !Encodes(categorical, methodName) ==> r.value == Names(s))
  {
    var r := Preprocess(s, None, categorical, methodName);
    if r.Success? && categorical.Some? {
      assert |Missing(s, categorical.value)| == 0;
      EncodedTable(s, categorical, methodName);
    }
  }

  /** Declared header `h` names a binary column of `s`. */
  ghost predicate Binary(s: seq<Column>, h: string)
  {
    Find(s, h).Some? && s[Find(s, h).value].levels == 2
  }

  /**
   * The encoding gate, seen in the output names of `__call__` without a
   * degree: a declared column keeps its own name exactly when the method
   * is the random forest or the column is binary, and then every declared
   * name survives exactly when the random forest is chosen or all declared
   * columns are binary. An undeclared column always keeps its name.
   */
  lemma {:induction false} PreprocessEncodingGate(s: seq<Column>, categorical: seq<string>, methodName: string)
    requires RawSchema(s) && DistinctHeaders(categorical)
    ensures var r := Preprocess(s, None, Some(categorical), methodName);
      r.Success? ==>
        && (forall h :: h in categorical ==> (Raw(h) in r.value <==> SkipsEncoding(methodName) || Binary(s, h)))
        && ((forall h :: h in categorical ==> Raw(h) in r.value) <==>
              SkipsEncoding(methodName) || forall h :: h in categorical ==> Binary(s, h))
        && (forall i :: 0 <= i < |s| && s[i].name.header !in categorical ==> s[i].name in r.value)
  {
    var r := Preprocess(s, None, Some(categorical), methodName);
    if r.Success? {
      PreprocessFails(s, None, Some(categorical), methodName);
      PreprocessNames(s, Some(categorical), methodName);
      var t := if Encodes(Some(categorical), methodName) then OneHotEncode(s, categorical, methodName).value else s;
      assert r.value == Names(t);
      forall h | h in categorical
        ensures Raw(h) in r.value <==> SkipsEncoding(methodName) || Binary(s, h)
      {
        var i := Find(s, h).value;
        NameInNames(t, Raw(h));
        if Encodes(Some(categorical), methodName) {
          assert Covered(categorical, t, s[i], methodName);
        } else {
          assert t[i].name == Raw(h);
        }
      }
      forall i | 0 <= i < |s| && s[i].name.header !in categorical
        ensures s[i].name in r.value
      {
        NameInNames(t, s[i].name);
        if Encodes(Some(categorical), methodName) {
          assert Covered(categorical, t, s[i], methodName);
        } else {
          assert t[i].name == s[i].name;
        }
      }
    }
  }

  /** A name is among the names of a table exactly when some column carries it. */
  lemma NameInNames(t: seq<Column>, x: Name)
    ensures x in Names(t) <==> exists k :: 0 <= k < |t| && t[k].name == x
  {
    if x in Names(t) {
      var k :| 0 <= k < |t| && Names(t)[k] == x;
    }
  }

  /**
   * The expansion gate, seen in the output names of `__call__`: with a
   * degree every output is a product of standardised columns, without one
   * no output is.
   */
  lemma {:induction false} PreprocessExpansionGate(s: seq<Column>, degree: Option<nat>, categorical: Option<seq<string>>, methodName: string)
    requires RawSchema(s)
    requires categorical.Some? ==> DistinctHeaders(categorical.value)
    ensures var r := Preprocess(s, degree, categorical, methodName);
      && (r.Success? && degree.Some? ==>
            forall k :: 0 <= k < |r.value| ==> r.value[k].Monomial? && 1 <= |r.value[k].factors| <= degree.value)
      && (r.Success? && degree.None? ==>
            forall k :: 0 <= k < |r.value| ==> r.value[k].Raw? || r.value[k].Indicator?)
  {
    var r := Preprocess(s, degree, categorical, methodName);
    if r.Success? && degree.None? {
      PreprocessNames(s, categorical, methodName);
      if Encodes(categorical, methodName) {
        var t := OneHotEncode(s, categorical.value, methodName).value;
        forall k | 0 <= k < |r.value|
          ensures r.value[k].Raw? || r.value[k].Indicator?
        {
          EncodedColumnShape(s, categorical.value, t[k], methodName);
        }
      }
    }
  }

  /**
   * The width `__call__` produces: the encoded width without a degree,
   * and C(w+d, d) - 1 over that width `w` with degree `d`.
   */
  lemma {:induction false} PreprocessWidth(s: seq<Column>, degree: Option<nat>, categorical: Option<seq<string>>, methodName: string)
    requires RawSchema(s)
    requires categorical.Some? ==> DistinctHeaders(categorical.value)
    requires degree.Some? ==> degree.value >= 1
    ensures var r := Preprocess(s, degree, categorical, methodName);
      && (r.Success? ==> StandardisedWidth(s, categorical, methodName) >= 0)
      && (r.Success? && degree.None? ==> |r.value| == StandardisedWidth(s, categorical, methodName))
      && (r.Success? && degree.Some? ==>
            |r.value| == PolynomialExpansion.Binomial(StandardisedWidth(s, categorical, methodName) + degree.value, degree.value) - 1)
  {
    var r := Preprocess(s, degree, categorical, methodName);
    if r.Success? {
      if categorical.Some? {
        assert |Missing(s, categorical.value)| == 0;
      }
      EncodedTable(s, categorical, methodName);
      var t := if Encodes(categorical, methodName) then OneHotEncode(s, categorical.value, methodName).value else s;
      assert |Names(t)| == StandardisedWidth(s, categorical, methodName);
      if degree.Some? {
        PolynomialExpansion.PolynomialNamesSpec(Names(t), degree.value);
      }
    }
  }

  /** With a degree, the standardised columns are the first outputs of the polynomial map, in order. */
  lemma PreprocessKeepsLinearTerms(s: seq<Column>, d: nat, categorical: Option<seq<string>>, methodName: string)
    requires d >= 1
    ensures var r := Preprocess(s, Some(d), categorical, methodName);
      r.Success? ==>
        var plain := Preprocess(s, None, categorical, methodName);
        && plain.Success?
        && |plain.value| <= |r.value|
        && forall i :: 0 <= i < |plain.value| ==> r.value[i] == Monomial([plain.value[i]])
  {
    var r := Preprocess(s, Some(d), categorical, methodName);
    if r.Success? {
      var plain := Preprocess(s, None, categorical, methodName);
      PolynomialExpansion.PolynomialNamesSpec(plain.value, d);
    }
  }

  /**
   * Declaring a single column with `K` distinct values, and no degree,
   * gives `|s|` columns when it is binary or the method is the random
   * forest, `|s| + K - 1` otherwise, and `|s| + K - 2` for the neural network.
   */
  lemma SingleCategoricalWidth(s: seq<Column>, header: string, methodName: string)
    requires RawSchema(s) && Find(s, header).Some?
    ensures var k := s[Find(s, header).value].levels;
      var r := Preprocess(s, None, Some([header]), methodName);
      && r.Success?
      && (k == 2 || SkipsEncoding(methodName) ==> |r.value| == |s|)
      && (k != 2 && !SkipsEncoding(methodName) && !DropsFirst(methodName) ==> |r.value| == |s| + k - 1)
      && (k > 2 && DropsFirst(methodName) ==> |r.value| == |s| + k - 2)
  {
    var cats := [header];
    assert forall h :: h in cats ==> h == header;
    PreprocessFails(s, None, Some(cats), methodName);
    PreprocessWidth(s, None, Some(cats), methodName);
    assert cats[..0] == [];
    assert TotalGrowth(s, cats, methodName) == Growth(s, header, methodName);
  }

  /**
   * The random forest skips encoding, so on any five-column table whose
   * declared categorical headers are present the degree-2 map gives 20 columns.
   */
  lemma FiveColumnsDegreeTwo(s: seq<Column>, categorical: seq<string>, methodName: string)
    requires RawSchema(s) && |s| == 5 && DistinctHeaders(categorical) && SkipsEncoding(methodName)
    requires forall h :: h in categorical ==> Find(s, h).Some?
    ensures var r := Preprocess(s, Some(2), Some(categorical), methodName);
      r.Success? && |r.value| == 20
  {
    PreprocessFails(s, Some(2), Some(categorical), methodName);
    PreprocessWidth(s, Some(2), Some(categorical), methodName);
    assert StandardisedWidth(s, Some(categorical), methodName) == 5;
    PolynomialExpansion.BinomialSevenTwo();
  }
}
