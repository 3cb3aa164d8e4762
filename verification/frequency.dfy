/**
 * Frequency tables (`value_counts()`): one row per distinct value present in
 * a column with the number of rows holding it, most frequent first. Missing
 * cells are not counted: `Gender` and `BMI_Category` counts always cover
 * every row, and `Sleep_Disorder` counts do once the column is filled.
 */
module Frequency {
  import opened Wrappers
  import opened Dataset
  import opened Loader

  /** The number of rows whose column `c` holds `v`. */
  function CountOf(rows: seq<Record>, c: CategoricalField, v: string): nat
  {
    if rows == [] then 0
    else CountOf(rows[..|rows| - 1], c, v) + (if Category(rows[|rows| - 1], c) == Some(v) then 1 else 0)
  }

  /** The number of rows whose column `c` is not missing. */
  function Present(rows: seq<Record>, c: CategoricalField): nat
  {
    if rows == [] then 0
    else Present(rows[..|rows| - 1], c) + (if Category(rows[|rows| - 1], c).Some? then 1 else 0)
  }

  /** A value is counted exactly when some row holds it. */
  lemma {:induction false} CountPositiveIffHeld(rows: seq<Record>, c: CategoricalField, v: string)
    ensures CountOf(rows, c, v) > 0 <==> exists i :: 0 <= i < |rows| && Category(rows[i], c) == Some(v)
  {
    if rows != [] {
      var init := rows[..|rows| - 1];
      CountPositiveIffHeld(init, c, v);
      if exists i :: 0 <= i < |init| && Category(init[i], c) == Some(v) {
        var i :| 0 <= i < |init| && Category(init[i], c) == Some(v);
        assert Category(rows[i], c) == Some(v);
      }
      if exists i :: 0 <= i < |rows| && Category(rows[i], c) == Some(v) {
        var i :| 0 <= i < |rows| && Category(rows[i], c) == Some(v);
        if i < |init| {
          assert Category(init[i], c) == Some(v);
        }
      }
    }
  }

  /** One row of a frequency table. */
  datatype CountRow = CountRow(value: string, count: nat)

  predicate DistinctValues(t: seq<CountRow>)
  {
    forall i, j :: 0 <= i < j < |t| ==> t[i].value != t[j].value
  }

  predicate Listed(t: seq<CountRow>, v: string)
  {
    exists i :: 0 <= i < |t| && t[i].value == v
  }

  function TotalCount(t: seq<CountRow>): nat
  {
    if t == [] then 0 else t[0].count + TotalCount(t[1..])
  }

  /**
   * Records one more occurrence of `v`: its row's count goes up by one,
   * or a row `(v, 1)` is appended when `v` has none yet.
   */
  function Bump(t: seq<CountRow>, v: string): (r: seq<CountRow>)
    requires DistinctValues(t)
    ensures |r| == if Listed(t, v) then |t| else |t| + 1
    ensures forall i :: 0 <= i < |t| ==>
              r[i].value == t[i].value && r[i].count == t[i].count + (if t[i].value == v then 1 else 0)
    ensures !Listed(t, v) ==> r[|t|] == CountRow(v, 1)
    ensures TotalCount(r) == TotalCount(t) + 1
  {
    if t == [] then [CountRow(v, 1)]
    else if t[0].value == v then [CountRow(v, t[0].count + 1)] + t[1..]
    else
      var rest := Bump(t[1..], v);
      assert Listed(t, v) <==> Listed(t[1..], v) by {
        if Listed(t, v) {
          var i :| 0 <= i < |t| && t[i].value == v;
          assert t[1..][i - 1].value == v;
        }
        if Listed(t[1..], v) {
          var i :| 0 <= i < |t| - 1 && t[1..][i].value == v;
          assert t[i + 1].value == v;
        }
      }
      [t[0]] + rest
  }

  /** The first-occurrence table of column `c`: the counts before sorting. */
  function Tally(rows: seq<Record>, c: CategoricalField): (t: seq<CountRow>)
    ensures DistinctValues(t)
    ensures forall i :: 0 <= i < |t| ==> t[i].count == CountOf(rows, c, t[i].value) && t[i].count >= 1
    ensures forall v :: CountOf(rows, c, v) > 0 ==> Listed(t, v)
    ensures TotalCount(t) == Present(rows, c)
  {
    if rows == [] then []
    else
      var init := rows[..|rows| - 1];
      var t := Tally(init, c);
      match Category(rows[|rows| - 1], c)
      case None => t
      case Some(v) =>
        TallyStep(t, init, rows, c, v);
        Bump(t, v)
  }

  lemma TallyStep(t: seq<CountRow>, init: seq<Record>, rows: seq<Record>, c: CategoricalField, v: string)
    requires rows != [] && init == rows[..|rows| - 1] && Category(rows[|rows| - 1], c) == Some(v)
    requires DistinctValues(t)
    requires forall i :: 0 <= i < |t| ==> t[i].count == CountOf(init, c, t[i].value) && t[i].count >= 1
    requires forall w :: CountOf(init, c, w) > 0 ==> Listed(t, w)
    ensures var r := Bump(t, v);
            && DistinctValues(r)
            && (forall i :: 0 <= i < |r| ==> r[i].count == CountOf(rows, c, r[i].value) && r[i].count >= 1)
            && (forall w :: CountOf(rows, c, w) > 0 ==> Listed(r, w))
  {
    var r := Bump(t, v);
    if Listed(t, v) {
      TallyStepOld(t, init, rows, c, v);
    } else {
      TallyStepNew(t, init, rows, c, v);
    }
  }

  /** The row's value already has a row in the table: only its count changes. */
  lemma TallyStepOld(t: seq<CountRow>, init: seq<Record>, rows: seq<Record>, c: CategoricalField, v: string)
    requires rows != [] && init == rows[..|rows| - 1] && Category(rows[|rows| - 1], c) == Some(v)
    requires DistinctValues(t) && Listed(t, v)
    requires forall i :: 0 <= i < |t| ==> t[i].count == CountOf(init, c, t[i].value) && t[i].count >= 1
    requires forall w :: CountOf(init, c, w) > 0 ==> Listed(t, w)
    ensures var r := Bump(t, v);
            && DistinctValues(r)
            && (forall i :: 0 <= i < |r| ==> r[i].count == CountOf(rows, c, r[i].value) && r[i].count >= 1)
            && (forall w :: CountOf(rows, c, w) > 0 ==> Listed(r, w))
  {
    var r := Bump(t, v);
    assert |r| == |t|;
    forall w | CountOf(rows, c, w) > 0 ensures Listed(r, w) {
      if w != v {
        assert CountOf(init, c, w) > 0;
      }
      var i :| 0 <= i < |t| && t[i].value == w;
      assert r[i].value == w;
    }
  }

  /** The row's value is new: a row `(v, 1)` is appended. */
  lemma TallyStepNew(t: seq<CountRow>, init: seq<Record>, rows: seq<Record>, c: CategoricalField, v: string)
    requires rows != [] && init == rows[..|rows| - 1] && Category(rows[|rows| - 1], c) == Some(v)
    requires DistinctValues(t) && !Listed(t, v)
    requires forall i :: 0 <= i < |t| ==> t[i].count == CountOf(init, c, t[i].value) && t[i].count >= 1
    requires forall w :: CountOf(init, c, w) > 0 ==> Listed(t, w)
    ensures var r := Bump(t, v);
            && DistinctValues(r)
            && (forall i :: 0 <= i < |r| ==> r[i].count == CountOf(rows, c, r[i].value) && r[i].count >= 1)
            && (forall w :: CountOf(rows, c, w) > 0 ==> Listed(r, w))
  {
    var r := Bump(t, v);
    assert |r| == |t| + 1 && r[|t|] == CountRow(v, 1);
    assert CountOf(init, c, v) == 0;
    AppendKeepsDistinct(t, r, v);
    forall i | 0 <= i < |t| ensures t[i].value != v {
      assert !(t[i].value == v);
    }
    AppendKeepsCounts(t, r, init, rows, c, v);
    AppendKeepsListed(t, r, init, rows, c, v);
  }

  lemma AppendKeepsCounts(t: seq<CountRow>, r: seq<CountRow>, init: seq<Record>, rows: seq<Record>,
                          c: CategoricalField, v: string)
    requires rows != [] && init == rows[..|rows| - 1] && Category(rows[|rows| - 1], c) == Some(v)
    requires forall i :: 0 <= i < |t| ==> t[i].value != v
    requires CountOf(init, c, v) == 0
    requires |r| == |t| + 1 && r[|t|] == CountRow(v, 1)
    requires forall i :: 0 <= i < |t| ==> r[i] == t[i]
    requires forall i :: 0 <= i < |t| ==> t[i].count == CountOf(init, c, t[i].value) && t[i].count >= 1
    ensures forall i :: 0 <= i < |r| ==> r[i].count == CountOf(rows, c, r[i].value) && r[i].count >= 1
  {
    forall i | 0 <= i < |r| ensures r[i].count == CountOf(rows, c, r[i].value) && r[i].count >= 1 {
      if i < |t| {
        CountUnchanged(rows, c, v, t[i].value);
      } else {
        assert i == |t| && r[i] == CountRow(v, 1);
        CountFirst(init, rows, c, v);
      }
    }
  }

  /** A final row holding a value no earlier row holds counts it once. */
  lemma CountFirst(init: seq<Record>, rows: seq<Record>, c: CategoricalField, v: string)
    requires rows != [] && init == rows[..|rows| - 1] && Category(rows[|rows| - 1], c) == Some(v)
    requires CountOf(init, c, v) == 0
    ensures CountOf(rows, c, v) == 1
  {
  }

  /** A final row holding `v` leaves the count of any other value unchanged. */
  lemma CountUnchanged(rows: seq<Record>, c: CategoricalField, v: string, w: string)
    requires rows != [] && Category(rows[|rows| - 1], c) == Some(v) && w != v
    ensures CountOf(rows, c, w) == CountOf(rows[..|rows| - 1], c, w)
  {
  }

  lemma AppendKeepsListed(t: seq<CountRow>, r: seq<CountRow>, init: seq<Record>, rows: seq<Record>,
                          c: CategoricalField, v: string)
    requires rows != [] && init == rows[..|rows| - 1] && Category(rows[|rows| - 1], c) == Some(v)
    requires |r| == |t| + 1 && r[|t|].value == v
    requires forall i :: 0 <= i < |t| ==> r[i].value == t[i].value
    requires forall w :: CountOf(init, c, w) > 0 ==> Listed(t, w)
    ensures forall w :: CountOf(rows, c, w) > 0 ==> Listed(r, w)
  {
    forall w | CountOf(rows, c, w) > 0 ensures Listed(r, w) {
      if w != v {
        assert CountOf(init, c, w) > 0;
        var i :| 0 <= i < |t| && t[i].value == w;
        assert r[i].value == w;
      } else {
        assert r[|t|].value == w;
      }
    }
  }

  lemma AppendKeepsDistinct(t: seq<CountRow>, r: seq<CountRow>, v: string)
    requires DistinctValues(t) && !Listed(t, v)
    requires |r| == |t| + 1 && r[|t|].value == v
    requires forall i :: 0 <= i < |t| ==> r[i].value == t[i].value
    ensures DistinctValues(r)
  {
    forall i | 0 <= i < |t| ensures r[i].value != v {
      assert t[i].value != v;
    }
  }

  /** Counts never increase along the table. */
  predicate MostFrequentFirst(t: seq<CountRow>)
  {
    forall i, j :: 0 <= i < j < |t| ==> t[i].count >= t[j].count
  }

  lemma {:induction false} TotalCountConcat(a: seq<CountRow>, b: seq<CountRow>)
    ensures TotalCount(a + b) == TotalCount(a) + TotalCount(b)
  {
    if a == [] {
      assert a + b == b;
    } else {
      TotalCountConcat(a[1..], b);
      assert (a + b)[1..] == a[1..] + b;
    }
  }

  /** Where `e` goes: before the first row whose count does not exceed its own. */
  function InsertPos(e: CountRow, s: seq<CountRow>): (k: nat)
    ensures k <= |s|
    ensures forall j :: 0 <= j < k ==> s[j].count > e.count
    ensures k < |s| ==> s[k].count <= e.count
  {
    if s == [] || e.count >= s[0].count then 0 else 1 + InsertPos(e, s[1..])
  }

  /** One step of the stable insertion sort by descending count. */
  function InsertByCount(e: CountRow, s: seq<CountRow>): (r: seq<CountRow>)
    ensures multiset(r) == multiset(s) + multiset{e}
    ensures TotalCount(r) == TotalCount(s) + e.count
    ensures MostFrequentFirst(s) ==> MostFrequentFirst(r)
  {
    var k := InsertPos(e, s);
    InsertAt(e, s, k);
    s[..k] + [e] + s[k..]
  }

  lemma InsertAt(e: CountRow, s: seq<CountRow>, k: nat)
    requires k == InsertPos(e, s)
    ensures multiset(s[..k] + [e] + s[k..]) == multiset(s) + multiset{e}
    ensures TotalCount(s[..k] + [e] + s[k..]) == TotalCount(s) + e.count
    ensures MostFrequentFirst(s) ==> MostFrequentFirst(s[..k] + [e] + s[k..])
  {
    assert s == s[..k] + s[k..];
    InsertAtTotal(e, s, k);
    if MostFrequentFirst(s) {
      InsertAtOrder(e, s, k);
    }
  }

  lemma InsertAtTotal(e: CountRow, s: seq<CountRow>, k: nat)
    requires k <= |s|
    ensures TotalCount(s[..k] + [e] + s[k..]) == TotalCount(s) + e.count
  {
    assert s == s[..k] + s[k..];
    TotalCountConcat(s[..k], s[k..]);
    TotalCountConcat(s[..k], [e] + s[k..]);
    TotalCountConcat([e], s[k..]);
    assert s[..k] + [e] + s[k..] == s[..k] + ([e] + s[k..]);
  }

  lemma InsertAtOrder(e: CountRow, s: seq<CountRow>, k: nat)
    requires k == InsertPos(e, s) && MostFrequentFirst(s)
    ensures MostFrequentFirst(s[..k] + [e] + s[k..])
  {
    var r := s[..k] + [e] + s[k..];
    assert forall i :: 0 <= i < k ==> r[i] == s[i];
    assert r[k] == e;
    assert forall i :: k < i < |r| ==> r[i] == s[i - 1];
    forall i, j | 0 <= i < j < |r| ensures r[i].count >= r[j].count {
      if j < k {
        assert r[i] == s[i] && r[j] == s[j];
      } else if j == k {
        assert r[i] == s[i];
      } else if i == k {
        assert r[j] == s[j - 1];
      } else if i < k {
        assert r[i] == s[i] && r[j] == s[j - 1];
      } else {
        assert r[i] == s[i - 1] && r[j] == s[j - 1];
      }
    }
  }

  /** Inserting a row whose value is new keeps the values distinct. */
  lemma InsertKeepsDistinct(e: CountRow, s: seq<CountRow>)
    requires DistinctValues(s) && !Listed(s, e.value)
    ensures DistinctValues(InsertByCount(e, s))
  {
    var r := InsertByCount(e, s);
    var k := InsertPos(e, s);
    assert r == s[..k] + [e] + s[k..];
    forall i, j | 0 <= i < j < |r| ensures r[i].value != r[j].value {
      var i' := if i < k then i else i - 1;
      var j' := if j < k then j else j - 1;
      if i == k {
        assert r[j] == s[j'];
      } else if j == k {
        assert r[i] == s[i'];
      } else {
        assert r[i] == s[i'] && r[j] == s[j'];
      }
    }
  }

  /** A stable sort by descending count: rows with equal counts keep their order. */
  function SortByCount(t: seq<CountRow>): (r: seq<CountRow>)
    ensures multiset(r) == multiset(t)
    ensures TotalCount(r) == TotalCount(t)
    ensures MostFrequentFirst(r)
    ensures DistinctValues(t) ==> DistinctValues(r)
  {
    if t == [] then []
    else
      var rest := SortByCount(t[1..]);
      SortStep(t, rest);
      InsertByCount(t[0], rest)
  }

  lemma SortStep(t: seq<CountRow>, rest: seq<CountRow>)
    requires t != [] && multiset(rest) == multiset(t[1..])
    requires DistinctValues(t[1..]) ==> DistinctValues(rest)
    ensures multiset(InsertByCount(t[0], rest)) == multiset(t)
    ensures DistinctValues(t) ==> DistinctValues(InsertByCount(t[0], rest))
  {
    assert t == [t[0]] + t[1..];
    if DistinctValues(t) {
      forall i | 0 <= i < |rest| ensures rest[i].value != t[0].value {
        assert rest[i] in multiset(t[1..]);
        var j :| 0 <= j < |t| - 1 && t[1..][j] == rest[i];
        assert t[j + 1] == rest[i];
      }
      InsertKeepsDistinct(t[0], rest);
    }
  }

  /**
   * `rows[c].value_counts()`: every value some row holds appears exactly
   * once, with the number of rows holding it (at least one), most frequent
   * first; the counts add up to the number of rows where `c` is present.
   */
  function ValueCounts(rows: seq<Record>, c: CategoricalField): (t: seq<CountRow>)
    ensures DistinctValues(t)
    ensures forall i :: 0 <= i < |t| ==> t[i].count == CountOf(rows, c, t[i].value) && t[i].count >= 1
    ensures forall i :: 0 <= i < |rows| && Category(rows[i], c).Some? ==>
              Listed(t, Category(rows[i], c).value)
    ensures TotalCount(t) == Present(rows, c)
    ensures MostFrequentFirst(t)
  {
    var tally := Tally(rows, c);
    SortedTallyFacts(rows, c, tally, SortByCount(tally));
    SortByCount(tally)
  }

  lemma SortedTallyFacts(rows: seq<Record>, c: CategoricalField, tally: seq<CountRow>, t: seq<CountRow>)
    requires tally == Tally(rows, c) && multiset(t) == multiset(tally)
    ensures forall i :: 0 <= i < |t| ==> t[i].count == CountOf(rows, c, t[i].value) && t[i].count >= 1
    ensures forall i :: 0 <= i < |rows| && Category(rows[i], c).Some? ==>
              Listed(t, Category(rows[i], c).value)
  {
    forall i | 0 <= i < |t| ensures t[i].count == CountOf(rows, c, t[i].value) && t[i].count >= 1 {
      assert t[i] in multiset(tally);
    }
    forall i | 0 <= i < |rows| && Category(rows[i], c).Some?
      ensures Listed(t, Category(rows[i], c).value)
    {
      var v := Category(rows[i], c).value;
      CountPositiveIffHeld(rows, c, v);
      var j :| 0 <= j < |tally| && tally[j].value == v;
      assert tally[j] in multiset(t);
    }
  }

  /** Every row whose column `c` is present is counted. */
  lemma {:induction false} PresentWhenNoneMissing(rows: seq<Record>)
    requires NoneMissing(rows)
    ensures Present(rows, SleepDisorderColumn) == |rows|
  {
    if rows != [] {
      PresentWhenNoneMissing(rows[..|rows| - 1]);
    }
  }

  /** `Gender` and `BMI_Category` are never missing, so their counts cover every row. */
  lemma {:induction false} GroupColumnsAlwaysPresent(rows: seq<Record>)
    ensures Present(rows, GenderColumn) == |rows|
    ensures Present(rows, BmiCategoryColumn) == |rows|
  {
    if rows != [] {
      GroupColumnsAlwaysPresent(rows[..|rows| - 1]);
    }
  }

  /**
   * Once the fill policy has run, the `Sleep_Disorder` table accounts for
   * every row of the table.
   */
  lemma SleepDisorderCountsCoverAllRows(rows: seq<Record>)
    ensures TotalCount(ValueCounts(FillMissing(rows), SleepDisorderColumn)) == |rows|
  {
    PresentWhenNoneMissing(FillMissing(rows));
  }

  /** The number of rows whose `Sleep_Disorder` cell is missing. */
  function MissingCount(rows: seq<Record>): nat
  {
    if rows == [] then 0
    else MissingCount(rows[..|rows| - 1]) + (if rows[|rows| - 1].sleepDisorder.None? then 1 else 0)
  }

  /**
   * A row whose `Sleep_Disorder` was missing is counted under "None" and
   * under no other value; every other count is that of the unfilled column.
   */
  lemma {:induction false} MissingCountedUnderNone(rows: seq<Record>, v: string)
    ensures CountOf(FillMissing(rows), SleepDisorderColumn, NoDisorder) ==
              CountOf(rows, SleepDisorderColumn, NoDisorder) + MissingCount(rows)
    ensures v != NoDisorder ==>
              CountOf(FillMissing(rows), SleepDisorderColumn, v) == CountOf(rows, SleepDisorderColumn, v)
  {
    if rows != [] {
      var init := rows[..|rows| - 1];
      MissingCountedUnderNone(init, v);
      assert FillMissing(rows)[..|rows| - 1] == FillMissing(init);
    }
  }
}
