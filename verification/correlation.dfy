/**
 * Cell lookups in the correlation table, which is labelled on both axes by
 * the headers of `numeric_vars`. How the coefficients are computed is not
 * modelled: the cells are given.
 */
module Correlation {
  import opened Wrappers
  import opened Dataset

  /** A square table with the same labels on its rows and its columns. */
  datatype CorrTable = CorrTable(labels: seq<string>, cells: seq<seq<real>>)

  predicate Square(m: CorrTable)
  {
    && |m.cells| == |m.labels|
    && forall i :: 0 <= i < |m.cells| ==> |m.cells[i]| == |m.labels|
  }

  /** The error `.loc` raises for a label the table does not have. */
  datatype CorrError = KeyNotFound(key: string)

  /** The position of the first occurrence of `x` in `labels`, if any. */
  function IndexOf(labels: seq<string>, x: string): (r: Option<nat>)
    ensures r.None? <==> x !in labels
    ensures r.Some? ==> r.value < |labels| && labels[r.value] == x
    ensures r.Some? ==> forall j :: 0 <= j < r.value ==> labels[j] != x
  {
    if labels == [] then None
    else if labels[0] == x then Some(0)
    else match IndexOf(labels[1..], x)
      case None => None
      case Some(i) => Some(i + 1)
  }

  /**
   * `m.loc[row, col]`: the cell at the row labelled `row` and the column
   * labelled `col`. A scalar lookup resolves the column first, so a missing
   * column is the label the key error names even when the row is missing too.
   */
  function CorrAt(m: CorrTable, row: string, col: string): (r: Result<real, CorrError>)
    requires Square(m)
    ensures r.Ok? <==> row in m.labels && col in m.labels
    ensures col !in m.labels ==> r == Err(KeyNotFound(col))
    ensures col in m.labels && row !in m.labels ==> r == Err(KeyNotFound(row))
    ensures r.Ok? ==> exists i, j :: 0 <= i < |m.labels| && 0 <= j < |m.labels| &&
                        m.labels[i] == row && m.labels[j] == col && r.value == m.cells[i][j]
  {
    match IndexOf(m.labels, col)
    case None => Err(KeyNotFound(col))
    case Some(j) =>
      match IndexOf(m.labels, row)
      case None => Err(KeyNotFound(row))
      case Some(i) => Ok(m.cells[i][j])
  }

  predicate DistinctLabels(labels: seq<string>)
  {
    forall i, j :: 0 <= i < j < |labels| ==> labels[i] != labels[j]
  }

  /** With distinct labels, the labels at positions `i` and `j` select cell `[i][j]`. */
  lemma {:induction false} IndexOfDistinct(labels: seq<string>, i: nat)
    requires DistinctLabels(labels) && i < |labels|
    ensures IndexOf(labels, labels[i]) == Some(i)
  {
    if i > 0 {
      assert labels[0] != labels[i];
      IndexOfDistinct(labels[1..], i - 1);
    }
  }

  lemma CorrAtPosition(m: CorrTable, i: nat, j: nat)
    requires Square(m) && DistinctLabels(m.labels) && i < |m.labels| && j < |m.labels|
    ensures CorrAt(m, m.labels[i], m.labels[j]) == Ok(m.cells[i][j])
  {
    IndexOfDistinct(m.labels, i);
    IndexOfDistinct(m.labels, j);
  }

  /** The headers of `numeric_vars` differ pairwise (they even differ in length). */
  lemma NumericVarNamesDistinct()
    ensures DistinctLabels(NumericVarNames)
  {
    var lengths := seq(|NumericVarNames|, i requires 0 <= i < |NumericVarNames| => |NumericVarNames[i]|);
    assert lengths == [14, 16, 23, 12, 10, 11];
  }

  /** In a table labelled by `numeric_vars`, every pair of numeric columns resolves to its cell. */
  lemma NumericLookupsResolve(m: CorrTable, f: NumericField, g: NumericField)
    requires Square(m) && m.labels == NumericVarNames
    ensures CorrAt(m, ColumnName(f), ColumnName(g)) == Ok(m.cells[ColumnIndex(f)][ColumnIndex(g)])
  {
    NumericVarNamesDistinct();
    CorrAtPosition(m, ColumnIndex(f), ColumnIndex(g));
  }

  /**
   * A row label outside `numeric_vars`, such as `Age`, raises a key error
   * naming it when the column label is one of `numeric_vars`.
   */
  lemma NonNumericRowRaises(m: CorrTable, row: string, g: NumericField)
    requires Square(m) && m.labels == NumericVarNames && row !in NumericVarNames
    ensures CorrAt(m, row, ColumnName(g)) == Err(KeyNotFound(row))
  {
    assert ColumnName(g) == NumericVarNames[ColumnIndex(g)];
  }

  /** `Age` is not among `numeric_vars`, so it raises as a row label. */
  lemma AgeRowRaises(m: CorrTable, g: NumericField)
    requires Square(m) && m.labels == NumericVarNames
    ensures CorrAt(m, "Age", ColumnName(g)) == Err(KeyNotFound("Age"))
  {
    assert forall i :: 0 <= i < |NumericVarNames| ==> |NumericVarNames[i]| != 3;
    NonNumericRowRaises(m, "Age", g);
  }

  /** The label pairs the narrative text quotes, row label first. */
  const NarrativePairs: seq<(NumericField, NumericField)> :=
    [ (SleepDuration, QualityOfSleep),
      (StressLevel, QualityOfSleep),
      (PhysicalActivityLevel, DailySteps),
      (HeartRate, StressLevel),
      (PhysicalActivityLevel, QualityOfSleep) ]

  /** Every pair the narrative text quotes resolves to its cell. */
  lemma NarrativeLookupsResolve(m: CorrTable)
    requires Square(m) && m.labels == NumericVarNames
    ensures forall p :: p in NarrativePairs ==>
              CorrAt(m, ColumnName(p.0), ColumnName(p.1)) == Ok(m.cells[ColumnIndex(p.0)][ColumnIndex(p.1)])
  {
    forall p | p in NarrativePairs
      ensures CorrAt(m, ColumnName(p.0), ColumnName(p.1)) == Ok(m.cells[ColumnIndex(p.0)][ColumnIndex(p.1)])
    {
      NumericLookupsResolve(m, p.0, p.1);
    }
  }

  /** The position of a numeric column in `numeric_vars`. */
  function ColumnIndex(f: NumericField): (i: nat)
    ensures i < |NumericVars| && NumericVars[i] == f && NumericVarNames[i] == ColumnName(f)
  {
    match f
    case SleepDuration => 0
    case QualityOfSleep => 1
    case PhysicalActivityLevel => 2
    case StressLevel => 3
    case HeartRate => 4
    case DailySteps => 5
  }
}
