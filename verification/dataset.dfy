/**
 * The sleep-health table as the report addresses it once its headers are
 * normalised: one record per person, the six numeric columns that are
 * averaged and correlated, the two grouping columns and the three columns
 * that are tallied, and the built-in four-row table used when the file
 * cannot be loaded.
 */
module Dataset {
  import opened Wrappers

  /**
   * One row of the table. Numeric columns are exact reals; `sleepDisorder`
   * is `None` where the file left the cell empty, before the fill policy.
   */
  datatype Record = Record(
    gender: string,
    age: int,
    sleepDuration: real,
    qualityOfSleep: real,
    physicalActivityLevel: real,
    stressLevel: real,
    bmiCategory: string,
    heartRate: real,
    dailySteps: real,
    sleepDisorder: Option<string>)

  /** The numeric columns that are averaged per group and correlated. */
  datatype NumericField =
    | SleepDuration
    | QualityOfSleep
    | PhysicalActivityLevel
    | StressLevel
    | HeartRate
    | DailySteps

  /** `numeric_vars`, in the order the report lists them. */
  const NumericVars: seq<NumericField> :=
    [SleepDuration, QualityOfSleep, PhysicalActivityLevel, StressLevel, HeartRate, DailySteps]

  /** The normalised header of a numeric column. */
  function ColumnName(f: NumericField): string
  {
    match f
    case SleepDuration => "Sleep_Duration"
    case QualityOfSleep => "Quality_of_Sleep"
    case PhysicalActivityLevel => "Physical_Activity_Level"
    case StressLevel => "Stress_Level"
    case HeartRate => "Heart_Rate"
    case DailySteps => "Daily_Steps"
  }

  /** The headers of `numeric_vars`, which label the correlation table. */
  const NumericVarNames: seq<string> :=
    ["Sleep_Duration", "Quality_of_Sleep", "Physical_Activity_Level",
     "Stress_Level", "Heart_Rate", "Daily_Steps"]

  function Value(r: Record, f: NumericField): real
  {
    match f
    case SleepDuration => r.sleepDuration
    case QualityOfSleep => r.qualityOfSleep
    case PhysicalActivityLevel => r.physicalActivityLevel
    case StressLevel => r.stressLevel
    case HeartRate => r.heartRate
    case DailySteps => r.dailySteps
  }

  /** The headers of the two grouping columns. */
  const GenderHeader: string := "Gender"
  const BmiCategoryHeader: string := "BMI_Category"

  /** The two columns the table is grouped by. */
  datatype GroupField = ByGender | ByBmiCategory

  function Key(r: Record, g: GroupField): string
  {
    match g
    case ByGender => r.gender
    case ByBmiCategory => r.bmiCategory
  }

  /** The three columns whose values are tallied. */
  datatype CategoricalField = GenderColumn | BmiCategoryColumn | SleepDisorderColumn

  /** The cell of a tallied column; only `Sleep_Disorder` can be missing. */
  function Category(r: Record, c: CategoricalField): Option<string>
  {
    match c
    case GenderColumn => Some(r.gender)
    case BmiCategoryColumn => Some(r.bmiCategory)
    case SleepDisorderColumn => r.sleepDisorder
  }

  /** The header the fill policy addresses, and the category it fills in. */
  const SleepDisorderHeader: string := "Sleep_Disorder"
  const NoDisorder: string := "None"

  /** The four-row table that stands in for the file when loading fails. */
  function Fixture(): seq<Record>
  {
    [ Record("Male", 35, 7.5, 8.0, 60.0, 5.0, "Normal", 72.0, 8500.0, Some("None")),
      Record("Female", 42, 6.8, 6.0, 45.0, 7.0, "Overweight", 78.0, 6000.0, Some("Insomnia")),
      Record("Male", 29, 8.2, 9.0, 75.0, 4.0, "Normal", 68.0, 10000.0, Some("None")),
      Record("Female", 51, 6.5, 5.0, 30.0, 8.0, "Obese", 82.0, 5000.0, Some("Sleep Apnea")) ]
  }
}
