/**
 * What the built-in four-row table yields when it stands in for the file:
 * the per-gender means the narrative quotes, the order of the grouped
 * tables, and the three frequency tables.
 */
module FixtureFacts {
  import opened Wrappers
  import opened Dataset
  import opened Aggregation
  import opened Frequency

  lemma GroupSnoc(rows: seq<Record>, r: Record, g: GroupField, k: string)
    ensures Group(rows + [r], g, k) == Group(rows, g, k) + (if Key(r, g) == k then [r] else [])
  {
    assert (rows + [r])[..|rows|] == rows;
  }

  lemma MeanOfTwo(a: Record, b: Record, f: NumericField)
    ensures Mean([a, b], f) == (Value(a, f) + Value(b, f)) / 2.0
  {
    assert [a, b][..1] == [a];
    assert [a][..0] == [];
    assert Sum([a], f) == Value(a, f);
    assert Sum([a, b], f) == Value(a, f) + Value(b, f);
  }

  function Keep(r: Record, g: GroupField, k: string): seq<Record>
  {
    if Key(r, g) == k then [r] else []
  }

  lemma GroupOfFour(a: Record, b: Record, c: Record, e: Record, g: GroupField, k: string)
    ensures Group([a, b, c, e], g, k) == Keep(a, g, k) + Keep(b, g, k) + Keep(c, g, k) + Keep(e, g, k)
  {
    assert [a, b, c, e] == [a, b, c] + [e];
    assert [a, b, c] == [a, b] + [c];
    assert [a, b] == [a] + [b];
    assert [a] == [] + [a];
    GroupSnoc([], a, g, k);
    GroupSnoc([a], b, g, k);
    GroupSnoc([a, b], c, g, k);
    GroupSnoc([a, b, c], e, g, k);
  }

  /** Four rows whose keys alternate between `k1` and `k2` form two groups of two. */
  lemma AlternatingGroups(a: Record, b: Record, c: Record, e: Record, g: GroupField, k1: string, k2: string)
    requires k1 != k2 && Key(a, g) == k1 && Key(b, g) == k2 && Key(c, g) == k1 && Key(e, g) == k2
    ensures Group([a, b, c, e], g, k1) == [a, c]
    ensures Group([a, b, c, e], g, k2) == [b, e]
  {
    GroupOfFour(a, b, c, e, g, k1);
    GroupOfFour(a, b, c, e, g, k2);
  }

  lemma FixtureGenderGroups()
    ensures Group(Fixture(), ByGender, "Male") == [Fixture()[0], Fixture()[2]]
    ensures Group(Fixture(), ByGender, "Female") == [Fixture()[1], Fixture()[3]]
  {
    var d := Fixture();
    assert d == [d[0], d[1], d[2], d[3]];
    assert Key(d[0], ByGender) == "Male" && Key(d[1], ByGender) == "Female";
    assert Key(d[2], ByGender) == "Male" && Key(d[3], ByGender) == "Female";
    AlternatingGroups(d[0], d[1], d[2], d[3], ByGender, "Male", "Female");
  }

  lemma StatOfTwoRowGroup(d: seq<Record>, g: GroupField, k: string, a: Record, b: Record, f: NumericField)
    requires Group(d, g, k) == [a, b]
    ensures GroupStat(GroupMeans(d, g), k, f) == Ok((Value(a, f) + Value(b, f)) / 2.0)
  {
    var sel := Group(d, g, k);
    assert Occurs(d, g, k);
    GroupStatOfGroupMeans(d, g, k, f);
    assert GroupStat(GroupMeans(d, g), k, f) == Ok(Mean(sel, f));
    MeanOfTwo(a, b, f);
    assert Mean(sel, f) == Mean([a, b], f);
  }

  /** Mean sleep duration: Male (7.5 + 8.2) / 2 = 7.85, Female (6.8 + 6.5) / 2 = 6.65. */
  lemma FixtureSleepMeans()
    ensures GroupStat(GroupMeans(Fixture(), ByGender), "Male", SleepDuration) == Ok(7.85)
    ensures GroupStat(GroupMeans(Fixture(), ByGender), "Female", SleepDuration) == Ok(6.65)
  {
    var d := Fixture();
    FixtureGenderGroups();
    assert Value(d[0], SleepDuration) == 7.5 && Value(d[2], SleepDuration) == 8.2;
    assert Value(d[1], SleepDuration) == 6.8 && Value(d[3], SleepDuration) == 6.5;
    StatOfTwoRowGroup(d, ByGender, "Male", d[0], d[2], SleepDuration);
    StatOfTwoRowGroup(d, ByGender, "Female", d[1], d[3], SleepDuration);
  }

  /** Mean sleep quality: Female (6 + 5) / 2 = 5.5, Male (8 + 9) / 2 = 8.5. */
  lemma FixtureQualityMeans()
    ensures GroupStat(GroupMeans(Fixture(), ByGender), "Female", QualityOfSleep) == Ok(5.5)
    ensures GroupStat(GroupMeans(Fixture(), ByGender), "Male", QualityOfSleep) == Ok(8.5)
  {
    var d := Fixture();
    FixtureGenderGroups();
    assert Value(d[0], QualityOfSleep) == 8.0 && Value(d[2], QualityOfSleep) == 9.0;
    assert Value(d[1], QualityOfSleep) == 6.0 && Value(d[3], QualityOfSleep) == 5.0;
    StatOfTwoRowGroup(d, ByGender, "Female", d[1], d[3], QualityOfSleep);
    StatOfTwoRowGroup(d, ByGender, "Male", d[0], d[2], QualityOfSleep);
  }

  /** Mean stress: Male (5 + 4) / 2 = 4.5, Female (7 + 8) / 2 = 7.5. */
  lemma FixtureStressMeans()
    ensures GroupStat(GroupMeans(Fixture(), ByGender), "Male", StressLevel) == Ok(4.5)
    ensures GroupStat(GroupMeans(Fixture(), ByGender), "Female", StressLevel) == Ok(7.5)
  {
    var d := Fixture();
    FixtureGenderGroups();
    assert Value(d[0], StressLevel) == 5.0 && Value(d[2], StressLevel) == 4.0;
    assert Value(d[1], StressLevel) == 7.0 && Value(d[3], StressLevel) == 8.0;
    StatOfTwoRowGroup(d, ByGender, "Male", d[0], d[2], StressLevel);
    StatOfTwoRowGroup(d, ByGender, "Female", d[1], d[3], StressLevel);
  }

  /** The grouped-by-gender table lists `Female` in row 0 and `Male` in row 1. */
  lemma FixtureGenderRowOrder()
    ensures |GroupMeans(Fixture(), ByGender)| == 2
    ensures GroupMeans(Fixture(), ByGender)[0].key == "Female"
    ensures GroupMeans(Fixture(), ByGender)[1].key == "Male"
  {
    var d := Fixture();
    assert Key(d[0], ByGender) == "Male" && Key(d[1], ByGender) == "Female";
    GenderRowsOrder(d);
  }

  lemma TallySnoc(rows: seq<Record>, r: Record, c: CategoricalField)
    ensures Category(r, c).None? ==> Tally(rows + [r], c) == Tally(rows, c)
    ensures Category(r, c).Some? ==> Tally(rows + [r], c) == Bump(Tally(rows, c), Category(r, c).value)
  {
    assert (rows + [r])[..|rows|] == rows;
  }

  lemma BumpNew(t: seq<CountRow>, v: string)
    requires DistinctValues(t) && forall i :: 0 <= i < |t| ==> t[i].value != v
    ensures Bump(t, v) == t + [CountRow(v, 1)]
  {
  }

  lemma BumpAt(t: seq<CountRow>, k: nat, v: string)
    requires DistinctValues(t) && k < |t| && t[k].value == v
    ensures Bump(t, v) == t[k := CountRow(v, t[k].count + 1)]
  {
  }

  /** Rows with non-increasing counts are already in `value_counts()` order. */
  lemma SortedPairStays(a: CountRow, b: CountRow)
    requires a.count >= b.count
    ensures SortByCount([a, b]) == [a, b]
  {
    assert [a, b][1..] == [b] && [b][1..] == [];
  }

  lemma SortedTripleStays(a: CountRow, b: CountRow, c: CountRow)
    requires a.count >= b.count >= c.count
    ensures SortByCount([a, b, c]) == [a, b, c]
  {
    assert [a, b, c][1..] == [b, c];
    SortedPairStays(b, c);
  }

  /** A row holding a value the tally has not seen appends `(v, 1)`. */
  lemma TallyExtendNew(rows: seq<Record>, r: Record, c: CategoricalField, t: seq<CountRow>, v: string)
    requires Tally(rows, c) == t && Category(r, c) == Some(v)
    requires forall i :: 0 <= i < |t| ==> t[i].value != v
    ensures Tally(rows + [r], c) == t + [CountRow(v, 1)]
  {
    TallySnoc(rows, r, c);
    BumpNew(t, v);
  }

  /** A row holding the value of tally row `k` adds one to that row. */
  lemma TallyExtendAt(rows: seq<Record>, r: Record, c: CategoricalField, t: seq<CountRow>, k: nat, v: string)
    requires Tally(rows, c) == t && Category(r, c) == Some(v)
    requires k < |t| && t[k].value == v
    ensures Tally(rows + [r], c) == t[k := CountRow(v, t[k].count + 1)]
  {
    TallySnoc(rows, r, c);
    BumpAt(t, k, v);
  }

  /** Two cells `v, w` with `v != w` tally to `v: 1, w: 1`. */
  lemma TallyVW(a: Record, b: Record, c: CategoricalField, v: string, w: string)
    requires Category(a, c) == Some(v) && Category(b, c) == Some(w) && v != w
    ensures Tally([a, b], c) == [CountRow(v, 1), CountRow(w, 1)]
  {
    assert [a] == [] + [a];
    TallyExtendNew([], a, c, [], v);
    assert [a, b] == [a] + [b];
    TallyExtendNew([a], b, c, [CountRow(v, 1)], w);
  }

  /** Three cells `v, w, v` with `v != w` tally to `v: 2, w: 1`. */
  lemma TallyVWV(a: Record, b: Record, x: Record, c: CategoricalField, v: string, w: string)
    requires Category(a, c) == Some(v) && Category(b, c) == Some(w) && Category(x, c) == Some(v)
    requires v != w
    ensures Tally([a, b, x], c) == [CountRow(v, 2), CountRow(w, 1)]
  {
    TallyVW(a, b, c, v, w);
    assert [a, b, x] == [a, b] + [x];
    TallyExtendAt([a, b], x, c, [CountRow(v, 1), CountRow(w, 1)], 0, v);
  }

  /** Four cells `v, w, v, z` with distinct `v`, `w`, `z` tally to `v: 2, w: 1, z: 1`. */
  lemma TallyVWVZ(a: Record, b: Record, x: Record, e: Record, c: CategoricalField, v: string, w: string, z: string)
    requires Category(a, c) == Some(v) && Category(b, c) == Some(w)
    requires Category(x, c) == Some(v) && Category(e, c) == Some(z)
    requires v != w && v != z && w != z
    ensures Tally([a, b, x, e], c) == [CountRow(v, 2), CountRow(w, 1), CountRow(z, 1)]
  {
    TallyVWV(a, b, x, c, v, w);
    assert [a, b, x, e] == [a, b, x] + [e];
    TallyExtendNew([a, b, x], e, c, [CountRow(v, 2), CountRow(w, 1)], z);
  }

  /** Four cells `v, w, v, w` with `v != w` tally to `v: 2, w: 2`. */
  lemma TallyVWVW(a: Record, b: Record, x: Record, e: Record, c: CategoricalField, v: string, w: string)
    requires Category(a, c) == Some(v) && Category(b, c) == Some(w)
    requires Category(x, c) == Some(v) && Category(e, c) == Some(w)
    requires v != w
    ensures Tally([a, b, x, e], c) == [CountRow(v, 2), CountRow(w, 2)]
  {
    TallyVWV(a, b, x, c, v, w);
    assert [a, b, x, e] == [a, b, x] + [e];
    TallyExtendAt([a, b, x], e, c, [CountRow(v, 2), CountRow(w, 1)], 1, w);
  }

  /** The `Sleep_Disorder` cells None, Insomnia, None, Sleep Apnea tallied in order. */
  lemma FixtureSleepDisorderTally()
    ensures Tally(Fixture(), SleepDisorderColumn) ==
              [CountRow("None", 2), CountRow("Insomnia", 1), CountRow("Sleep Apnea", 1)]
  {
    var d := Fixture();
    assert d == [d[0], d[1], d[2], d[3]];
    TallyVWVZ(d[0], d[1], d[2], d[3], SleepDisorderColumn, "None", "Insomnia", "Sleep Apnea");
  }

  /** The `Gender` cells Male, Female, Male, Female tallied in order. */
  lemma FixtureGenderTally()
    ensures Tally(Fixture(), GenderColumn) == [CountRow("Male", 2), CountRow("Female", 2)]
  {
    var d := Fixture();
    assert d == [d[0], d[1], d[2], d[3]];
    TallyVWVW(d[0], d[1], d[2], d[3], GenderColumn, "Male", "Female");
  }

  /** `value_counts()` of `Sleep_Disorder` on the fixture: None 2, Insomnia 1, Sleep Apnea 1. */
  lemma FixtureSleepDisorderCounts()
    ensures ValueCounts(Fixture(), SleepDisorderColumn) ==
              [CountRow("None", 2), CountRow("Insomnia", 1), CountRow("Sleep Apnea", 1)]
  {
    FixtureSleepDisorderTally();
    SortedTripleStays(CountRow("None", 2), CountRow("Insomnia", 1), CountRow("Sleep Apnea", 1));
  }

  /** `value_counts()` of `Gender` on the fixture: Male 2, Female 2. */
  lemma FixtureGenderCounts()
    ensures ValueCounts(Fixture(), GenderColumn) == [CountRow("Male", 2), CountRow("Female", 2)]
  {
    FixtureGenderTally();
    SortedPairStays(CountRow("Male", 2), CountRow("Female", 2));
  }
}
