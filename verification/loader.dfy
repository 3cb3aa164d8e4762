/**
 * Loading the table: header normalisation, the `Sleep_Disorder` fill policy
 * and the fall-back to the built-in table when anything in the load fails.
 * The parsed file is a `Frame` whose header list and rows are updated in
 * place, as the data frame is.
 */
module Loader {
  import opened Wrappers
  import opened Dataset

  /** A header with every space replaced by an underscore (`str.replace(' ', '_')`). */
  function NormalizeHeader(col: string): (r: string)
    ensures |r| == |col|
    ensures forall i :: 0 <= i < |col| ==> r[i] == (if col[i] == ' ' then '_' else col[i])
    ensures ' ' !in r
  {
    if col == [] then []
    else [if col[0] == ' ' then '_' else col[0]] + NormalizeHeader(col[1..])
  }

  /** A header without spaces is already normal. */
  lemma {:induction false} NormalizeHeaderFixesNormal(col: string)
    requires ' ' !in col
    ensures NormalizeHeader(col) == col
  {
    if col != [] {
      NormalizeHeaderFixesNormal(col[1..]);
    }
  }

  /** Normalising twice is normalising once. */
  lemma NormalizeHeaderIdempotent(col: string)
    ensures NormalizeHeader(NormalizeHeader(col)) == NormalizeHeader(col)
  {
    NormalizeHeaderFixesNormal(NormalizeHeader(col));
  }

  /**
   * The headers the pipeline addresses by name (`numeric_vars`,
   * `Sleep_Disorder`, `Gender`, `BMI_Category`) are all normal already, so
   * they still name their columns after normalisation.
   */
  lemma CanonicalHeadersAreNormal()
    ensures forall f: NumericField :: NormalizeHeader(ColumnName(f)) == ColumnName(f)
    ensures NormalizeHeader(SleepDisorderHeader) == SleepDisorderHeader
    ensures NormalizeHeader(GenderHeader) == GenderHeader
    ensures NormalizeHeader(BmiCategoryHeader) == BmiCategoryHeader
  {
    NumericHeadersAreNormal();
    SleepDisorderHeaderIsNormal();
    GenderHeaderIsNormal();
    BmiCategoryHeaderIsNormal();
  }

  lemma NumericHeadersAreNormal()
    ensures forall f: NumericField :: NormalizeHeader(ColumnName(f)) == ColumnName(f)
  {
    forall f: NumericField ensures NormalizeHeader(ColumnName(f)) == ColumnName(f) {
      NumericHeaderIsNormal(f);
    }
  }

  lemma NumericHeaderIsNormal(f: NumericField)
    ensures NormalizeHeader(ColumnName(f)) == ColumnName(f)
  {
    assert ' ' !in ColumnName(f);
    NormalizeHeaderFixesNormal(ColumnName(f));
  }

  lemma SleepDisorderHeaderIsNormal()
    ensures NormalizeHeader(SleepDisorderHeader) == SleepDisorderHeader
  {
    assert ' ' !in SleepDisorderHeader;
    NormalizeHeaderFixesNormal(SleepDisorderHeader);
  }

  lemma GenderHeaderIsNormal()
    ensures NormalizeHeader(GenderHeader) == GenderHeader
  {
    assert ' ' !in GenderHeader;
    NormalizeHeaderFixesNormal(GenderHeader);
  }

  lemma BmiCategoryHeaderIsNormal()
    ensures NormalizeHeader(BmiCategoryHeader) == BmiCategoryHeader
  {
    assert ' ' !in BmiCategoryHeader;
    NormalizeHeaderFixesNormal(BmiCategoryHeader);
  }

  /** No row has a missing `Sleep_Disorder` cell. */
  predicate NoneMissing(rows: seq<Record>)
  {
    forall i :: 0 <= i < |rows| ==> rows[i].sleepDisorder.Some?
  }

  /** One row under the fill policy. */
  function Filled(r: Record): Record
  {
    if r.sleepDisorder.None? then r.(sleepDisorder := Some(NoDisorder)) else r
  }

  /**
   * The `Sleep_Disorder` column with its missing cells filled with "None":
   * a missing cell becomes "None", a present one is kept, and nothing else
   * in any row changes.
   */
  function FillMissing(rows: seq<Record>): (filled: seq<Record>)
    ensures |filled| == |rows|
    ensures NoneMissing(filled)
    ensures forall i :: 0 <= i < |rows| && rows[i].sleepDisorder.Some? ==> filled[i] == rows[i]
    ensures forall i :: 0 <= i < |rows| && rows[i].sleepDisorder.None? ==>
              filled[i].sleepDisorder == Some(NoDisorder) &&
              filled[i] == rows[i].(sleepDisorder := filled[i].sleepDisorder)
  {
    seq(|rows|, i requires 0 <= i < |rows| => Filled(rows[i]))
  }

  /** Filling a column with nothing missing changes nothing. */
  lemma FillMissingIdempotent(rows: seq<Record>)
    ensures FillMissing(FillMissing(rows)) == FillMissing(rows)
  {
  }

  /** The parsed file: its header list and its rows, both updated in place. */
  class Frame {
    var columns: seq<string>
    const rows: array<Record>

    constructor (header: seq<string>, data: seq<Record>)
      ensures columns == header && rows[..] == data && fresh(rows)
    {
      columns := header;
      rows := new Record[|data|](i requires 0 <= i < |data| => data[i]);
    }

    /** Replaces the header list by its normalised form. */
    method NormalizeColumns()
      modifies this
      ensures |columns| == |old(columns)|
      ensures forall i :: 0 <= i < |columns| ==> columns[i] == NormalizeHeader(old(columns)[i])
      ensures forall i :: 0 <= i < |columns| ==> ' ' !in columns[i]
    {
      var headers := columns;
      var normalized: seq<string> := [];
      for i := 0 to |headers|
        invariant |normalized| == i
        invariant forall j :: 0 <= j < i ==> normalized[j] == NormalizeHeader(headers[j])
      {
        normalized := normalized + [NormalizeHeader(headers[i])];
      }
      columns := normalized;
    }

    /** Overwrites the `Sleep_Disorder` column with its filled form. */
    method FillSleepDisorder()
      modifies rows
      ensures rows[..] == FillMissing(old(rows[..]))
    {
      for i := 0 to rows.Length
        invariant forall j :: 0 <= j < i ==> rows[j] == Filled(old(rows[j]))
        invariant forall j :: i <= j < rows.Length ==> rows[j] == old(rows[j])
      {
        if rows[i].sleepDisorder.None? {
          rows[i] := rows[i].(sleepDisorder := Some(NoDisorder));
        }
      }
    }
  }

  /** Some header of `headers` normalises to `name`. */
  predicate HasNormalizedHeader(headers: seq<string>, name: string)
  {
    exists i :: 0 <= i < |headers| && NormalizeHeader(headers[i]) == name
  }

  /**
   * Loads the table. `source` is the parsed file, or null when reading it
   * raised. A file without a `Sleep_Disorder` column once its headers are
   * normalised raises as well. Either failure yields the built-in table and
   * sets `degraded`, which stands for the printed error.
   */
  method Load(source: Frame?) returns (data: seq<Record>, degraded: bool)
    modifies if source == null then {} else {source, source.rows}
    ensures source == null ==> degraded
    ensures source != null ==>
              (degraded <==> !HasNormalizedHeader(old(source.columns), SleepDisorderHeader))
    ensures degraded ==> data == Fixture()
    ensures !degraded ==> source != null && data == FillMissing(old(source.rows[..]))
    ensures NoneMissing(data)
    ensures source != null ==>
              (|source.columns| == |old(source.columns)| &&
               forall i :: 0 <= i < |source.columns| ==> source.columns[i] == NormalizeHeader(old(source.columns)[i]))
    ensures source != null && degraded ==> source.rows[..] == old(source.rows[..])
    ensures !degraded ==> source != null && source.rows[..] == data
  {
    if source == null {
      return Fixture(), true;
    }
    source.NormalizeColumns();
    if SleepDisorderHeader !in source.columns {
      return Fixture(), true;
    }
    source.FillSleepDisorder();
    data := source.rows[..];
    degraded := false;
  }
}
