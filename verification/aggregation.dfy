/**
 * Group-wise means: the table grouped by `Gender` or by `BMI_Category`,
 * one row per key present, in ascending key order, holding the mean of
 * each numeric column over that key's rows; and the keyed lookup the
 * narrative sentences use, which raises on a key with no row.
 */
module Aggregation {
  import opened Wrappers
  import opened Dataset
  import opened StringOrder

  /** The sum of column `f` over `rows`. */
  function Sum(rows: seq<Record>, f: NumericField): real
  {
    if rows == [] then 0.0 else Sum(rows[..|rows| - 1], f) + Value(rows[|rows| - 1], f)
  }

  /** The arithmetic mean of column `f` over a non-empty set of rows. */
  function Mean(rows: seq<Record>, f: NumericField): real
    requires rows != []
  {
    Sum(rows, f) / (|rows| as real)
  }

  /** Some row holds `k` in its group column. */
  predicate Occurs(rows: seq<Record>, g: GroupField, k: string)
  {
    exists i :: 0 <= i < |rows| && Key(rows[i], g) == k
  }

  lemma OccursSnoc(rows: seq<Record>, g: GroupField, k: string)
    requires rows != []
    ensures Occurs(rows, g, k) <==>
              Occurs(rows[..|rows| - 1], g, k) || Key(rows[|rows| - 1], g) == k
  {
    var init := rows[..|rows| - 1];
    if Occurs(rows, g, k) && Key(rows[|rows| - 1], g) != k {
      var i :| 0 <= i < |rows| && Key(rows[i], g) == k;
      assert Key(init[i], g) == k;
    }
    if Occurs(init, g, k) {
      var i :| 0 <= i < |init| && Key(init[i], g) == k;
      assert Key(rows[i], g) == k;
    }
  }

  /**
   * The rows whose group column holds `k`, in table order: every such row,
   * as many times as the table holds it, and no other.
   */
  function Group(rows: seq<Record>, g: GroupField, k: string): (sel: seq<Record>)
    ensures forall i :: 0 <= i < |sel| ==> Key(sel[i], g) == k
    ensures sel != [] <==> Occurs(rows, g, k)
  {
    if rows == [] then []
    else
      var init := rows[..|rows| - 1];
      var last := rows[|rows| - 1];
      var sel := Group(init, g, k);
      OccursSnoc(rows, g, k);
      if Key(last, g) == k then sel + [last] else sel
  }

  /**
   * The selection is exactly the rows carrying `k`: every one of them is
   * selected, and each record occurs in it as often as in the table if it
   * carries `k`, and not at all otherwise.
   */
  lemma {:induction false} GroupIsExactSelection(rows: seq<Record>, g: GroupField, k: string)
    ensures forall i :: 0 <= i < |rows| && Key(rows[i], g) == k ==> rows[i] in Group(rows, g, k)
    ensures forall x :: multiset(Group(rows, g, k))[x] == if Key(x, g) == k then multiset(rows)[x] else 0
  {
    if rows != [] {
      var init := rows[..|rows| - 1];
      var last := rows[|rows| - 1];
      GroupIsExactSelection(init, g, k);
      assert rows == init + [last];
      assert multiset(rows) == multiset(init) + multiset{last};
      var sel := Group(init, g, k);
      assert Group(rows, g, k) == if Key(last, g) == k then sel + [last] else sel;
      forall x ensures multiset(Group(rows, g, k))[x] == if Key(x, g) == k then multiset(rows)[x] else 0 {
        if Key(last, g) == k {
          assert multiset(sel + [last]) == multiset(sel) + multiset{last};
        }
      }
      forall i | 0 <= i < |rows| && Key(rows[i], g) == k ensures rows[i] in Group(rows, g, k) {
        assert multiset(rows)[rows[i]] > 0;
      }
    }
  }

  /** The least value of column `f` over a non-empty set of rows. */
  function MinValue(rows: seq<Record>, f: NumericField): (m: real)
    requires rows != []
    ensures forall i :: 0 <= i < |rows| ==> m <= Value(rows[i], f)
    ensures exists i :: 0 <= i < |rows| && Value(rows[i], f) == m
  {
    if |rows| == 1 then Value(rows[0], f)
    else
      var init := rows[..|rows| - 1];
      var m := MinValue(init, f);
      var v := Value(rows[|rows| - 1], f);
      var j :| 0 <= j < |init| && Value(init[j], f) == m;
      assert Value(rows[j], f) == m;
      if v < m then v else m
  }

  /** The greatest value of column `f` over a non-empty set of rows. */
  function MaxValue(rows: seq<Record>, f: NumericField): (m: real)
    requires rows != []
    ensures forall i :: 0 <= i < |rows| ==> Value(rows[i], f) <= m
    ensures exists i :: 0 <= i < |rows| && Value(rows[i], f) == m
  {
    if |rows| == 1 then Value(rows[0], f)
    else
      var init := rows[..|rows| - 1];
      var m := MaxValue(init, f);
      var v := Value(rows[|rows| - 1], f);
      var j :| 0 <= j < |init| && Value(init[j], f) == m;
      assert Value(rows[j], f) == m;
      if m < v then v else m
  }

  /** `x` added to itself `k` times: `k * x` without a product of unknowns. */
  function Repeat(k: nat, x: real): real
  {
    if k == 0 then 0.0 else Repeat(k - 1, x) + x
  }

  lemma {:induction false} RepeatMonotone(k: nat, a: real, b: real)
    requires a <= b
    ensures Repeat(k, a) <= Repeat(k, b)
  {
    if k > 0 {
      RepeatMonotone(k - 1, a, b);
    }
  }

  lemma {:induction false} RepeatIsProduct(k: nat, x: real)
    ensures Repeat(k, x) == (k as real) * x
  {
    if k > 0 {
      RepeatIsProduct(k - 1, x);
    }
  }

  /** Dividing a bound on `k` copies of `c` by a positive `k`. */
  lemma DivideBound(k: nat, s: real, c: real)
    requires k > 0
    ensures Repeat(k, c) <= s ==> c <= s / (k as real)
    ensures s <= Repeat(k, c) ==> s / (k as real) <= c
  {
    RepeatIsProduct(k, c);
    var n := k as real;
    assert s / n * n == s;
  }

  /** A sum lies between the row count times the least and the greatest value. */
  lemma {:induction false} SumWithinRange(rows: seq<Record>, f: NumericField)
    requires rows != []
    ensures Repeat(|rows|, MinValue(rows, f)) <= Sum(rows, f) <= Repeat(|rows|, MaxValue(rows, f))
  {
    if |rows| > 1 {
      var init := rows[..|rows| - 1];
      SumWithinRange(init, f);
      RepeatMonotone(|init|, MinValue(rows, f), MinValue(init, f));
      RepeatMonotone(|init|, MaxValue(init, f), MaxValue(rows, f));
    }
  }

  /** Every group mean lies between the least and greatest value it averages. */
  lemma MeanWithinRange(rows: seq<Record>, f: NumericField)
    requires rows != []
    ensures MinValue(rows, f) <= Mean(rows, f) <= MaxValue(rows, f)
  {
    SumWithinRange(rows, f);
    DivideBound(|rows|, Sum(rows, f), MinValue(rows, f));
    DivideBound(|rows|, Sum(rows, f), MaxValue(rows, f));
  }

  /** The keys present in column `g`, ascending and without repeats. */
  function GroupKeys(rows: seq<Record>, g: GroupField): (ks: seq<string>)
    ensures StrictlySorted(ks)
    ensures forall k :: k in ks <==> Occurs(rows, g, k)
  {
    if rows == [] then []
    else
      var init := GroupKeys(rows[..|rows| - 1], g);
      var ks := InsertKey(init, Key(rows[|rows| - 1], g));
      assert forall k :: k in ks <==> Occurs(rows, g, k) by {
        forall k ensures k in ks <==> Occurs(rows, g, k) {
          OccursSnoc(rows, g, k);
        }
      }
      ks
  }

  /** The means of the six numeric columns over one group. */
  datatype FieldMeans = FieldMeans(
    sleepDuration: real,
    qualityOfSleep: real,
    physicalActivityLevel: real,
    stressLevel: real,
    heartRate: real,
    dailySteps: real)
  {
    function Of(f: NumericField): real
    {
      match f
      case SleepDuration => sleepDuration
      case QualityOfSleep => qualityOfSleep
      case PhysicalActivityLevel => physicalActivityLevel
      case StressLevel => stressLevel
      case HeartRate => heartRate
      case DailySteps => dailySteps
    }
  }

  /** One row of a grouped table: the key and its column means. */
  datatype GroupRow = GroupRow(key: string, means: FieldMeans)

  function MeansOf(rows: seq<Record>): (m: FieldMeans)
    requires rows != []
    ensures forall f :: m.Of(f) == Mean(rows, f)
  {
    FieldMeans(
      Mean(rows, SleepDuration), Mean(rows, QualityOfSleep), Mean(rows, PhysicalActivityLevel),
      Mean(rows, StressLevel), Mean(rows, HeartRate), Mean(rows, DailySteps))
  }

  lemma SortedKeysDistinct(ks: seq<string>)
    requires StrictlySorted(ks)
    ensures forall i, j :: 0 <= i < j < |ks| ==> ks[i] != ks[j]
  {
    forall i, j | 0 <= i < j < |ks| ensures ks[i] != ks[j] {
      LexLessIrreflexive(ks[i]);
    }
  }

  /**
   * `groupby(g)[numeric_vars].mean()`: one row per key present in column
   * `g`, in ascending key order and so without repeats, no row for an
   * absent key, and each column of a row the sum over that key's rows
   * divided by their number.
   */
  function GroupMeans(rows: seq<Record>, g: GroupField): (t: seq<GroupRow>)
    ensures forall i, j :: 0 <= i < j < |t| ==> LexLess(t[i].key, t[j].key)
    ensures forall i, j :: 0 <= i < j < |t| ==> t[i].key != t[j].key
    ensures forall k :: (exists i :: 0 <= i < |t| && t[i].key == k) <==> Occurs(rows, g, k)
    ensures forall i :: 0 <= i < |t| ==> Group(rows, g, t[i].key) != []
    ensures forall i, f :: 0 <= i < |t| ==>
              t[i].means.Of(f) ==
                Sum(Group(rows, g, t[i].key), f) / (|Group(rows, g, t[i].key)| as real)
  {
    var ks := GroupKeys(rows, g);
    SortedKeysDistinct(ks);
    var t := seq(|ks|, i requires 0 <= i < |ks| => GroupRow(ks[i], MeansOf(Group(rows, g, ks[i]))));
    assert forall k :: (exists i :: 0 <= i < |t| && t[i].key == k) <==> k in ks by {
      forall k | k in ks ensures exists i :: 0 <= i < |t| && t[i].key == k {
        var i :| 0 <= i < |ks| && ks[i] == k;
        assert t[i].key == k;
      }
    }
    t
  }

  /** The error `.values[0]` raises on an empty selection. */
  datatype LookupError = EmptySelection

  /**
   * `t.loc[t[key column] == key, f].values[0]`: the column-`f` mean of the
   * first row carrying `key`; an error, never a default, when none does.
   */
  function GroupStat(t: seq<GroupRow>, key: string, f: NumericField): (r: Result<real, LookupError>)
    ensures r.Err? <==> forall i :: 0 <= i < |t| ==> t[i].key != key
    ensures r.Err? ==> r.error == EmptySelection
    ensures r.Ok? ==> exists i :: 0 <= i < |t| && t[i].key == key && r.value == t[i].means.Of(f) &&
                        forall j :: 0 <= j < i ==> t[j].key != key
  {
    if t == [] then Err(EmptySelection)
    else if t[0].key == key then Ok(t[0].means.Of(f))
    else
      var r := GroupStat(t[1..], key, f);
      assert r.Ok? ==> exists i :: 0 <= i < |t| && t[i].key == key && r.value == t[i].means.Of(f) &&
                        forall j :: 0 <= j < i ==> t[j].key != key by {
        if r.Ok? {
          var i :| 0 <= i < |t| - 1 && t[1..][i].key == key && r.value == t[1..][i].means.Of(f) &&
                   forall j :: 0 <= j < i ==> t[1..][j].key != key;
          assert t[i + 1].key == key;
          assert forall j :: 0 <= j < i + 1 ==> t[j].key != key by {
            forall j | 0 < j < i + 1 ensures t[j].key != key {
              assert t[j] == t[1..][j - 1];
            }
          }
        }
      }
      r
  }

  /**
   * Looking up a statistic in a grouped table yields that group's mean when
   * the key occurs in the data, and the empty-selection error otherwise.
   */
  lemma GroupStatOfGroupMeans(rows: seq<Record>, g: GroupField, k: string, f: NumericField)
    ensures Occurs(rows, g, k) ==> GroupStat(GroupMeans(rows, g), k, f) == Ok(Mean(Group(rows, g, k), f))
    ensures !Occurs(rows, g, k) ==> GroupStat(GroupMeans(rows, g), k, f) == Err(EmptySelection)
  {
  }

  /** A list without repeats has as many elements as its set of elements. */
  lemma {:induction false} DistinctCardinality(ks: seq<string>)
    requires forall i, j :: 0 <= i < j < |ks| ==> ks[i] != ks[j]
    ensures |set x | x in ks| == |ks|
  {
    if ks != [] {
      DistinctCardinality(ks[1..]);
      assert (set x | x in ks) == (set x | x in ks[1..]) + {ks[0]};
      assert ks[0] !in ks[1..];
    }
  }

  /** A strictly ascending key list over exactly `Female` and `Male` is those two, in that order. */
  lemma TwoGenderKeys(ks: seq<string>)
    requires StrictlySorted(ks)
    requires forall i :: 0 <= i < |ks| ==> ks[i] == "Female" || ks[i] == "Male"
    requires "Female" in ks && "Male" in ks
    ensures ks == ["Female", "Male"]
  {
    SortedKeysDistinct(ks);
    DistinctCardinality(ks);
    assert (set x | x in ks) == {"Female", "Male"};
    assert LexLess(ks[0], ks[1]);
  }

  /**
   * When both genders and nothing else occur, the grouped table has two
   * rows: `Female` first, `Male` second.
   */
  lemma GenderRowsOrder(rows: seq<Record>)
    requires forall i :: 0 <= i < |rows| ==> rows[i].gender == "Female" || rows[i].gender == "Male"
    requires Occurs(rows, ByGender, "Female") && Occurs(rows, ByGender, "Male")
    ensures var t := GroupMeans(rows, ByGender);
            |t| == 2 && t[0].key == "Female" && t[1].key == "Male"
  {
    var t := GroupMeans(rows, ByGender);
    var ks := seq(|t|, i requires 0 <= i < |t| => t[i].key);
    forall i | 0 <= i < |ks| ensures ks[i] == "Female" || ks[i] == "Male" {
      assert t[i].key == ks[i];
      var j :| 0 <= j < |rows| && Key(rows[j], ByGender) == ks[i];
    }
    forall k | k == "Female" || k == "Male" ensures k in ks {
      var i :| 0 <= i < |t| && t[i].key == k;
      assert ks[i] == k;
    }
    TwoGenderKeys(ks);
  }
}
