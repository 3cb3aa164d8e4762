# Sleep-health report pipeline, modelled in Dafny

The sleep-health dashboard (`app.py`) prepares its data in a short pandas
pipeline before it lays out any page:

1. it reads the CSV, replaces every space in the column headers by `_` and
   fills the missing `Sleep_Disorder` cells with the text `"None"`; if any of
   this raises, it uses a built-in four-row table instead;
2. it averages the six `numeric_vars` columns per `Gender` and per
   `BMI_Category` (`groupby(...).mean()`);
3. it counts the values of `Gender`, `BMI_Category` and `Sleep_Disorder`
   (`value_counts()`);
4. the narrative text then looks up group means by key
   (`.loc[...].values[0]`) and correlation cells by label pair
   (`corr_matrix.loc[row, col]`).

Two consequences of the code shape the model: `groupby` sorts its keys
(pandas' default `sort=True`), so grouped tables are in ascending key order;
and a file without a `Sleep_Disorder` column raises `KeyError` at app.py:36
inside the `try`, so it too falls back to the built-in table.

This project restates each of those steps over a sequence of `Record`s with
exact `real` arithmetic and proves what the report relies on. Modules:

- `Wrappers`: `Option` and `Result`.
- `Dataset`: the `Record` type, the numeric, grouping and tallied columns,
  and the built-in table (`Fixture`).
- `Loader`: header normalisation, the fill policy and the load with its
  fall-back. The parsed file is a `Frame` class whose header list and row
  array are updated in place, as the data frame is.
- `StringOrder`: Python's code-point order on strings, the order in which
  `groupby` sorts its keys.
- `Aggregation`: selection by key, sums, means, the grouped tables and the
  key lookup with its empty-selection error.
- `Frequency`: counting and `value_counts()`.
- `Correlation`: label lookups in a given correlation table.
- `FixtureFacts`: the concrete figures the built-in table yields.

On the built-in table, the quality and stress means
(`FixtureFacts.FixtureQualityMeans`, `FixtureFacts.FixtureStressMeans`) are
the reverse of what the fixed narrative sentences at app.py:641-642 assert:
women average 5.5 quality against 8.5 for men, and men 4.5 stress against
7.5 for women. The sentences interpolate the values correctly; only their
fixed wording disagrees with the fallback data.

## Model

| member | source | states |
|---|---|---|
| Loader.NormalizeHeader | app.py:33 | each `' '` becomes `'_'`, every other character and the length are unchanged, and the result holds no space |
| Loader.NormalizeHeaderFixesNormal | app.py:33 | a header without spaces is left as it is |
| Loader.NormalizeHeaderIdempotent | app.py:33 | normalising a header twice gives the same as normalising it once |
| Loader.CanonicalHeadersAreNormal | app.py:33-36 | the headers the pipeline addresses by name (the six `numeric_vars`, `Sleep_Disorder`, `Gender` and `BMI_Category`, used at app.py:36 and 68-78) are unchanged by normalisation, so they still name their columns afterwards |
| Loader.Frame.NormalizeColumns | app.py:33 | the header list is replaced by the normalised header of each column, in order, and no header keeps a space |
| Loader.FillMissing | app.py:36 | the row count is kept; a missing `Sleep_Disorder` becomes `"None"` with every other field unchanged; a present one leaves its row unchanged; afterwards nothing is missing |
| Loader.FillMissingIdempotent | app.py:36 | filling an already filled table changes nothing |
| Loader.Frame.FillSleepDisorder | app.py:36 | the row array afterwards equals the fill policy applied to its old contents |
| Loader.Load | app.py:29-51 | a failed read, or a header list with no `Sleep_Disorder` after normalisation, yields the built-in table and the degraded flag; otherwise the filled rows of the file; either way no `Sleep_Disorder` is missing. A parsed frame is left with its headers normalised; its row array is untouched when the load falls back, and holds the returned filled rows otherwise |
| StringOrder.LexLessIrreflexive | app.py:68-69 | no key sorts before itself |
| StringOrder.LexLessTransitive | app.py:68-69 | the key order is transitive |
| StringOrder.LexLessTotal | app.py:68-69 | of two different keys one sorts before the other |
| StringOrder.InsertKey | app.py:68-69 | adding a key to an ascending key list keeps it ascending, without repeats, holding exactly the old keys and the new one |
| Aggregation.Group | app.py:68-69 | the rows selected for a key all carry that key, and the selection is empty exactly when no row carries it |
| Aggregation.GroupIsExactSelection | app.py:68-69 | the selection for a key is exactly the rows carrying it: every such row is selected, and each record occurs in it as often as in the table if it carries the key and not at all otherwise |
| Aggregation.MinValue | app.py:68-69 | the least value of a column over a non-empty row set: no row is below it and some row holds it |
| Aggregation.MaxValue | app.py:68-69 | the greatest value of a column over a non-empty row set: no row is above it and some row holds it |
| Aggregation.SumWithinRange | app.py:68-69 | a column sum lies between the row count times the least value and the row count times the greatest |
| Aggregation.MeanWithinRange | app.py:68-69 | a mean lies between the least and the greatest value it averages |
| Aggregation.GroupKeys | app.py:68-69 | the keys of a grouping column, ascending and without repeats, holding exactly the keys some row carries |
| Aggregation.GroupMeans | app.py:68-69 | one row per key that occurs and none for a key that does not, keys ascending and distinct, no empty group, and each column the group's sum divided by its size |
| Aggregation.GroupStat | app.py:640-642 | the lookup yields the column value of the first row carrying the key, and the empty-selection error exactly when no row carries it |
| Aggregation.GroupStatOfGroupMeans | app.py:640-642 | looking up a key in a grouped table gives the mean over that key's rows when the key occurs, and the error, never a default, when it does not |
| Aggregation.TwoGenderKeys | app.py:68 | an ascending key list over exactly `Female` and `Male` is `["Female", "Male"]` |
| Aggregation.GenderRowsOrder | app.py:68 | when both genders and no other value occur, the gender table has two rows, `Female` at row 0 and `Male` at row 1, as the row styling at app.py:274-282 assumes |
| Frequency.CountPositiveIffHeld | app.py:72-79 | a value has a positive count exactly when some row holds it |
| Frequency.Bump | app.py:72-79 | recording one more occurrence raises that value's count by one, or appends it with count 1, and raises the total by one |
| Frequency.Tally | app.py:72-79 | before sorting: each value once, each count the number of rows holding it and at least 1, every held value listed, the counts adding up to the rows where the column is present |
| Frequency.InsertByCount | app.py:72-79 | inserting a row into a table ordered by descending count keeps it ordered, adds exactly that row and adds its count to the total |
| Frequency.SortByCount | app.py:72-79 | the sorted table is a permutation of the tally, with the same total, counts descending and values still distinct |
| Frequency.ValueCounts | app.py:72-79 | each held value appears exactly once with its number of rows (at least 1), most frequent first, and the counts add up to the rows where the column is present |
| Frequency.GroupColumnsAlwaysPresent | app.py:72-76 | `Gender` and `BMI_Category` are present in every row, so their counts add up to the full row count |
| Frequency.PresentWhenNoneMissing | app.py:78 | with nothing missing, every row has a `Sleep_Disorder` value |
| Frequency.SleepDisorderCountsCoverAllRows | app.py:78 | after the fill policy of app.py:36 the `Sleep_Disorder` counts add up to the full row count |
| Frequency.MissingCountedUnderNone | app.py:78 | after the fill policy of app.py:36, `"None"` counts its old rows plus every missing one, and every other value keeps its count |
| Correlation.IndexOf | app.py:578-590 | a label's first position (no earlier label equals it), or none exactly when the label is absent |
| Correlation.CorrAt | app.py:578-590 | a cell lookup (also at app.py:670 and 684) succeeds exactly when both labels exist and yields the cell at their positions; otherwise a key error naming the column label if it is missing (the scalar lookup resolves the column first), else the row label |
| Correlation.IndexOfDistinct | app.py:578-590 | with distinct labels, a label's position is the one it sits at |
| Correlation.CorrAtPosition | app.py:578-590 | with distinct labels, the labels at positions `i` and `j` select cell `[i][j]` |
| Correlation.NumericVarNamesDistinct | app.py:54-58 | the six `numeric_vars` headers differ pairwise |
| Correlation.ColumnIndex | app.py:54-58 | each numeric column's position in `numeric_vars`, whose header is its name |
| Correlation.NumericLookupsResolve | app.py:54-58 | in a table labelled by `numeric_vars`, every pair of numeric columns selects its cell |
| Correlation.NonNumericRowRaises | app.py:54-58 | in a table labelled by `numeric_vars`, any row label outside them raises a key error naming it, when the column label is numeric |
| Correlation.AgeRowRaises | app.py:54-58 | in particular the row label `Age`, a data column (app.py:42) left out of `numeric_vars`, raises a key error naming it |
| Correlation.NarrativeLookupsResolve | app.py:578-590 | each of the five label pairs quoted in the narrative (the four here and the one at app.py:684; app.py:670 repeats one) selects the cell at the two labels' positions in `numeric_vars` |
| FixtureFacts.FixtureGenderGroups | app.py:40-51 | on the built-in table, `Male` selects rows 0 and 2 and `Female` rows 1 and 3 |
| FixtureFacts.FixtureSleepMeans | app.py:40-51 | on the built-in table, the gender-grouped mean (looked up at app.py:640) of sleep duration is 7.85 for `Male` and 6.65 for `Female` |
| FixtureFacts.FixtureQualityMeans | app.py:40-51 | on the built-in table, the gender-grouped mean (looked up at app.py:641) of sleep quality is 5.5 for `Female` and 8.5 for `Male` |
| FixtureFacts.FixtureStressMeans | app.py:40-51 | on the built-in table, the gender-grouped mean (looked up at app.py:642) of stress is 4.5 for `Male` and 7.5 for `Female` |
| FixtureFacts.FixtureGenderRowOrder | app.py:40-51 | on the built-in table the gender table has `Female` at row 0 and `Male` at row 1, as the styling at app.py:274-282 assumes |
| FixtureFacts.FixtureSleepDisorderTally | app.py:40-51 | on the built-in table the `Sleep_Disorder` tally is None 2, Insomnia 1, Sleep Apnea 1 |
| FixtureFacts.FixtureGenderTally | app.py:40-51 | on the built-in table the `Gender` tally is Male 2, Female 2 |
| FixtureFacts.FixtureSleepDisorderCounts | app.py:40-51 | on the built-in table `value_counts()` of `Sleep_Disorder` is None 2, Insomnia 1, Sleep Apnea 1 |
| FixtureFacts.FixtureGenderCounts | app.py:40-51 | on the built-in table `value_counts()` of `Gender` is Male 2, Female 2 |

## Left out

- The Dash, Bootstrap and Plotly layout, cards, tabs, charts, colour maps and the server run: they are user-interface code over libraries outside this model.
- Reading the CSV (`pd.read_csv`), building the path and printing the error are file and console I/O. A failed read is the `null` source passed to `Loader.Load`. The printed message is the `degraded` flag.
- Parsing of CSV cells is not modelled, including which strings pandas treats as missing. The rows arrive already typed, with a missing `Sleep_Disorder` cell as `None`.
- Loader.Load: failures inside the try block other than a failed read or a missing `Sleep_Disorder` column are not modelled (for instance a malformed file that pandas partly reads).
- Loader.Load: a file that reads and has a `Sleep_Disorder` column but lacks `Gender`, `BMI_Category` or one of `numeric_vars` makes app.py:61 or 68-78 raise outside the `try`, which stops the program; the model's `Record` always carries every column, so `Load` returns a full table whatever headers the file has.
- Dataset.Record: a missing `Gender` or `BMI_Category` cell, which `groupby` and `value_counts()` skip, cannot be expressed; those cells are plain strings, always present.
- Computing the correlation matrix (app.py:61) is left out. Pearson coefficients need square roots and floating-point accumulation. The table is given, and only its label lookups are modelled.
- `describe()` (app.py:82) is left out. Its standard deviation and percentiles are floating-point numerics from pandas.
- The whole-table means shown on the cards (app.py:136-138) are not separately modelled. They are `Aggregation.Mean` over all rows.
- Two-decimal formatting in the f-strings is presentation only.
- The renaming of the count tables' columns (app.py:73, 76, 79) changes only labels, so it is not modelled.
- Floating point is not modelled. Means are exact reals, so 7.85 is exactly (7.5 + 8.2) / 2. The `Age` column is carried but never aggregated, as in the source.
- Missing numeric cells (NaN), which pandas skips when averaging, are not modelled. Numeric cells are always present.
- Aggregation.Mean: requires a non-empty row set. pandas gives NaN for an empty one, but `groupby` never forms an empty group (`Aggregation.GroupMeans` proves this).
- Frequency.ValueCounts: values with equal counts stay in first-occurrence order (a stable sort). pandas does not document its tie order, so the model fixes this one choice.
