/** The feature pipeline of the analysis package. Its `transform` repeats the
    bronze-to-silver steps; every member below is written out as that code
    stands and proved to give the same result as its bronze-to-silver twin. */
module Features {
  import opened Wrappers
  import opened Frames
  import BronzeToSilver

  /** `rename_columns`: lower-case every name, then turn each space into `_`. */
  function RenameColumns(df: Frame): (r: Frame)
    ensures r == BronzeToSilver.RenameColumns(df)
  {
    df.(columns := seq(|df.columns|, j requires 0 <= j < |df.columns| => Replace(Lower(df.columns[j]), ' ', '_')))
  }

  /** The nested `segment_time_of_day`. */
  function SegmentTimeOfDay(hour: int): (r: string)
    ensures r == BronzeToSilver.SegmentTimeOfDay(hour)
  {
    if 6 <= hour <= 11 then "morning"
    else if 12 <= hour <= 16 then "afternoon"
    else if 17 <= hour <= 22 then "evening"
    else "night"
  }

  /** The `time_of_day` column: a bucket for each present hour, else missing. */
  function TimeOfDay(hour: seq<Cell>): (r: seq<Cell>)
    ensures r == BronzeToSilver.TimeOfDay(hour)
  {
    seq(|hour|, i requires 0 <= i < |hour| =>
      match hour[i]
      case Some(Int(h)) => Some(Text(SegmentTimeOfDay(h)))
      case _ => None)
  }

  /** `hour.apply(...)` for the `time_of_day` column. */
  function ApplyTimeOfDay(hour: Selection): (r: Result<Selection, Error>)
    ensures r == BronzeToSilver.ApplyTimeOfDay(hour)
  {
    match hour
    case Series(h) => Success(Series(TimeOfDay(h)))
    case Columns(sub) => if |sub.rows| == 0 then Success(hour) else Failure(AmbiguousTruth("hour"))
  }

  /** `extract_temporal_features`, assignment by assignment on a copy. */
  function ExtractTemporalFeatures(df: Frame, cal: int -> DateParts): (r: Result<Frame, Error>)
    requires WellFormed(df)
    ensures r == BronzeToSilver.ExtractTemporalFeatures(df, cal)
  {
    var datetime :- GetColumn(df, "datetime");
    if !IsDatetimeColumn(datetime) then Failure(NotDatetime("datetime"))
    else
      var f1 := SetColumn(df, "hour", DtPart(datetime, cal, Hour));
      var f2 := SetColumn(f1, "day", DtPart(datetime, cal, Day));
      var f3 := SetColumn(f2, "month", DtPart(datetime, cal, Month));
      var f4 := SetColumn(f3, "weekday", DtPart(datetime, cal, Weekday));
      var weekday := Select(f4, "weekday").value;  // just assigned, so present
      var f5 :- Assign(f4, "is_weekend", IsInOf(weekday, {5, 6}));
      var hour := Select(f5, "hour").value;        // assigned first, so present
      var segments :- ApplyTimeOfDay(hour);
      Assign(f5, "time_of_day", segments)
  }

  /** `cancelled_to_flag`: a presence flag for each of three columns, on a copy. */
  method CancelledToFlag(df: Frame) returns (r: Result<Frame, Error>)
    requires WellFormed(df)
    ensures r == BronzeToSilver.Flagged(df, BronzeToSilver.CancelledColumns, "_flag", true)
  {
    var newDf := df;
    var columnsToFlag := ["cancelled_rides_by_driver", "cancelled_rides_by_customer", "incomplete_rides"];
    assert columnsToFlag == BronzeToSilver.CancelledColumns;
    for k := 0 to |columnsToFlag|
      invariant BronzeToSilver.Flagged(df, columnsToFlag[..k], "_flag", true) == Success(newDf)
    {
      var col := columnsToFlag[k];
      BronzeToSilver.FlaggedNext(df, columnsToFlag, k, "_flag", true, newDf);
      BronzeToSilver.FlaggedPrefix(df, columnsToFlag, k + 1, "_flag", true);
      var values :- Select(newDf, col);
      newDf :- Assign(newDf, col + "_flag", NullMarksOf(values, true));
    }
    assert columnsToFlag[..|columnsToFlag|] == columnsToFlag;
    return Success(newDf);
  }

  /** `missing_to_flag`: an absence flag for each of four columns, on a copy. */
  method MissingToFlag(df: Frame) returns (r: Result<Frame, Error>)
    requires WellFormed(df)
    ensures r == BronzeToSilver.Flagged(df, BronzeToSilver.MissingColumns, "_missing_flag", false)
  {
    var newDf := df;
    var columnsToFlag := ["driver_ratings", "customer_rating", "booking_value", "payment_method"];
    assert columnsToFlag == BronzeToSilver.MissingColumns;
    for k := 0 to |columnsToFlag|
      invariant BronzeToSilver.Flagged(df, columnsToFlag[..k], "_missing_flag", false) == Success(newDf)
    {
      var col := columnsToFlag[k];
      BronzeToSilver.FlaggedNext(df, columnsToFlag, k, "_missing_flag", false, newDf);
      BronzeToSilver.FlaggedPrefix(df, columnsToFlag, k + 1, "_missing_flag", false);
      var values :- Select(newDf, col);
      newDf :- Assign(newDf, col + "_missing_flag", NullMarksOf(values, false));
    }
    assert columnsToFlag[..|columnsToFlag|] == columnsToFlag;
    return Success(newDf);
  }

  /** `transform`: `processed_df` rebound by each step in turn; for every
      input table (and every cast and calendar) it gives exactly what
      `transform_to_silver` gives. */
  method Transform(staging: Frame, cast: Frame -> Result<Frame, Error>, cal: int -> DateParts)
    returns (r: Result<Frame, Error>)
    requires WellFormed(staging) && BronzeToSilver.ShapePreserving(cast)
    ensures r == BronzeToSilver.Silver(staging, cast, cal)
  {
    var processed := RenameColumns(staging);
    processed :- cast(processed);
    processed :- ExtractTemporalFeatures(processed, cal);
    processed :- CancelledToFlag(processed);
    processed :- MissingToFlag(processed);
    return Success(processed);
  }
}
