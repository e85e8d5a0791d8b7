/**
 * Column schemas of the preprocessing tables. Values are not modelled: a
 * column is its name and the number of distinct values it holds, which is
 * all the one-hot encoding rule of pipeline.py looks at.
 */
module Schema {
  import opened Wrappers

  /**
   * A column name: a column of the input table, an indicator column that
   * `pd.get_dummies` makes for one level of a categorical column, or a
   * polynomial feature, named by its factors (with repetition).
   */
  datatype Name = Raw(header: string) | Indicator(source: string, level: nat) | Monomial(factors: seq<Name>)

  /** A column of a cleaned table: its name and how many distinct values it holds. */
  datatype Column = Column(name: Name, levels: nat)

  /** No two columns share a name. */
  ghost predicate DistinctNames(t: seq<Column>)
  {
    forall i, j :: 0 <= i < j < |t| ==> t[i].name != t[j].name
  }

  /** A table as read from the input file: every column named by its header, no name twice. */
  ghost predicate RawSchema(t: seq<Column>)
  {
    DistinctNames(t) && forall i :: 0 <= i < |t| ==> t[i].name.Raw?
  }

  /** The position of the input column labelled `header`, if the table has one (`df[header]`). */
  function Find(t: seq<Column>, header: string): (r: Option<nat>)
    ensures r.None? <==> forall i :: 0 <= i < |t| ==> t[i].name != Raw(header)
    ensures r.Some? ==> r.value < |t| && t[r.value].name == Raw(header)
    ensures r.Some? ==> forall i :: 0 <= i < r.value ==> t[i].name != Raw(header)
    decreases |t|
  {
    if |t| == 0 then None
    else if t[0].name == Raw(header) then Some(0)
    else match Find(t[1..], header)
      case None => None
      case Some(i) => Some(i + 1)
  }

  /** The column names of a table, in order (`df.columns`). */
  function Names(t: seq<Column>): (r: seq<Name>)
    ensures |r| == |t|
    ensures forall i :: 0 <= i < |t| ==> r[i] == t[i].name
  {
    seq(|t|, i requires 0 <= i < |t| => t[i].name)
  }

  /** The headers of `headers`, in order, that name no column of `t`. */
  function Missing(t: seq<Column>, headers: seq<string>): (r: seq<string>)
    ensures forall l :: l in r <==> l in headers && Find(t, l).None?
    decreases |headers|
  {
    if |headers| == 0 then []
    else (if Find(t, headers[0]).None? then [headers[0]] else []) + Missing(t, headers[1..])
  }
}
