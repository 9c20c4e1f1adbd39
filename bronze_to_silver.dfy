/** The bronze-to-silver transformation of the ride-booking records: column
    names are normalised, typed (an abstract step here), extended with
    calendar features, and given presence and absence flags. */
module BronzeToSilver {
  import opened Wrappers
  import opened Frames

  // ---------------------------------------------------------------------
  // rename_columns

  /** The per-name mapping of `rename_columns`: lower-case, then every space
      becomes an underscore. */
  function NormalizeName(name: string): (r: string)
    ensures |r| == |name|
    ensures ' ' !in r
    ensures forall k :: 0 <= k < |r| ==> !('A' <= r[k] <= 'Z')
    ensures forall k :: 0 <= k < |name| ==>
      r[k] == (if name[k] == ' ' then '_'
               else if 'A' <= name[k] <= 'Z' then (name[k] as int + 32) as char
               else name[k])
  {
    Replace(Lower(name), ' ', '_')
  }

  lemma NormalizeNameIdempotent(name: string)
    ensures NormalizeName(NormalizeName(name)) == NormalizeName(name)
  {
  }

  /** `rename_columns`: a copy whose column names are normalised one by one,
      same number and order of columns, rows untouched. */
  function RenameColumns(df: Frame): (r: Frame)
    ensures |r.columns| == |df.columns| && r.rows == df.rows
    ensures forall j :: 0 <= j < |df.columns| ==> r.columns[j] == NormalizeName(df.columns[j])
    ensures forall j :: 0 <= j < |r.columns| ==> ' ' !in r.columns[j]
    ensures WellFormed(df) ==> WellFormed(r)
  {
    df.(columns := seq(|df.columns|, j requires 0 <= j < |df.columns| => NormalizeName(df.columns[j])))
  }

  lemma RenameColumnsIdempotent(df: Frame)
    ensures RenameColumns(RenameColumns(df)) == RenameColumns(df)
  {
    var once := RenameColumns(df);
    forall j | 0 <= j < |df.columns|
      ensures RenameColumns(once).columns[j] == once.columns[j]
    {
      NormalizeNameIdempotent(df.columns[j]);
    }
  }

  // ---------------------------------------------------------------------
  // extract_temporal_features

  /** The nested `segment_time_of_day`: one bucket for every hour. */
  function SegmentTimeOfDay(hour: int): (r: string)
    ensures r == "morning" <==> 6 <= hour <= 11
    ensures r == "afternoon" <==> 12 <= hour <= 16
    ensures r == "evening" <==> 17 <= hour <= 22
    ensures r == "night" <==> hour < 6 || 22 < hour
  {
    if 6 <= hour <= 11 then "morning"
    else if 12 <= hour <= 16 then "afternoon"
    else if 17 <= hour <= 22 then "evening"
    else "night"
  }

  /** `hour.apply(lambda h: segment_time_of_day(h) if pd.notnull(h) else None)`. */
  function TimeOfDay(hour: seq<Cell>): (r: seq<Cell>)
    ensures |r| == |hour|
    ensures forall i :: 0 <= i < |hour| && hour[i].None? ==> r[i].None?
    ensures forall i :: 0 <= i < |hour| && hour[i].Some? && hour[i].value.Int? ==>
      r[i] == Some(Text(SegmentTimeOfDay(hour[i].value.i)))
  {
    seq(|hour|, i requires 0 <= i < |hour| =>
      match hour[i]
      case Some(Int(h)) => Some(Text(SegmentTimeOfDay(h)))
      case _ => None)  // the hour column holds only integers and missing values
  }

  /** `hour.apply(lambda h: ...)` on what `new_df["hour"]` gave.  On a Series
      every hour is put in its bucket.  On a sub-frame the lambda is handed
      whole columns and its `if` raises ValueError, except on a table without
      rows, where pandas swallows that error and returns a copy. */
  function ApplyTimeOfDay(hour: Selection): (r: Result<Selection, Error>)
    ensures r.Success? <==> hour.Series? || |hour.sub.rows| == 0
    ensures r.Failure? ==> r.error == AmbiguousTruth("hour")
    ensures hour.Series? ==> r == Success(Series(TimeOfDay(hour.values)))
    ensures r.Success? && hour.Columns? ==> r.value == hour
  {
    match hour
    case Series(h) => Success(Series(TimeOfDay(h)))
    case Columns(sub) => if |sub.rows| == 0 then Success(hour) else Failure(AmbiguousTruth("hour"))
  }

  const TemporalColumns: seq<string> := ["hour", "day", "month", "weekday", "is_weekend", "time_of_day"]

  /** `extract_temporal_features`: a copy with six columns assigned in turn,
      the calendar fields being read from the `datetime` column by `cal`. */
  function ExtractTemporalFeatures(df: Frame, cal: int -> DateParts): (r: Result<Frame, Error>)
    requires WellFormed(df)
    ensures r.Success? ==> WellFormed(r.value) && |r.value.rows| == |df.rows|
  {
    var datetime :- GetColumn(df, "datetime");
    if !IsDatetimeColumn(datetime) then Failure(NotDatetime("datetime"))
    else
      var f1 := SetColumn(df, "hour", DtPart(datetime, cal, Hour));
      var f2 := SetColumn(f1, "day", DtPart(datetime, cal, Day));
      var f3 := SetColumn(f2, "month", DtPart(datetime, cal, Month));
      var f4 := SetColumn(f3, "weekday", DtPart(datetime, cal, Weekday));
      var weekday := Select(f4, "weekday").value;  // just assigned, so present
      var f5 :- Assign(f4, "is_weekend", IsInOf(weekday, {5, 6}));
      var hour := Select(f5, "hour").value;        // assigned first, so present
      var segments :- ApplyTimeOfDay(hour);
      Assign(f5, "time_of_day", segments)
  }

  /** The calendar field a datetime cell yields; NaT yields a missing value. */
  function Derived(d: Cell, cal: int -> DateParts, which: Part): Cell {
    match d
    case Some(Stamp(t)) => Some(Int(PartOf(cal(t), which)))
    case _ => None
  }

  /** The timestamp the first column called `name` is filled from in row `i`:
      that of row `SeriesRow(df, name, 0, i)`, which is row `i` itself unless
      `name` already occurs as many times as there are rows, two or more. */
  function SourceStamp(df: Frame, name: string, i: nat): (d: Cell)
    requires WellFormed(df) && Unique(df.columns, "datetime") && i < |df.rows|
    ensures d == At(df, "datetime", SeriesRow(df, name, 0, i))
    ensures IsDatetimeColumn(GetColumn(df, "datetime").value) ==> (d.Some? ==> d.value.Stamp?)
  {
    GetColumn(df, "datetime").value[SeriesRow(df, name, 0, i)]
  }

  /** Every one of the six temporal names is a column of `cols`. */
  predicate HasTemporalColumns(cols: seq<string>) {
    && "hour" in cols && "day" in cols && "month" in cols && "weekday" in cols
    && "is_weekend" in cols && "time_of_day" in cols
  }

  /** The column list `extract_temporal_features` leaves, built one assignment at a time. */
  lemma TemporalNames(cols: seq<string>)
    ensures AddNames(cols, TemporalColumns) ==
      AddName(AddName(AddName(AddName(AddName(AddName(cols, "hour"), "day"), "month"), "weekday"), "is_weekend"), "time_of_day")
  {
    AddSix(cols, "hour", "day", "month", "weekday", "is_weekend", "time_of_day");
  }

  /** Assigning six names is six single assignments in turn. */
  lemma AddSix(cols: seq<string>, a: string, b: string, c: string, d: string, e: string, f: string)
    ensures AddNames(cols, [a, b, c, d, e, f]) ==
      AddName(AddName(AddName(AddName(AddName(AddName(cols, a), b), c), d), e), f)
  {
    var t := [a, b, c, d, e, f];
    assert t[..0] == [];
    AddNamesPrefix(cols, t, 0);
    AddNamesPrefix(cols, t, 1);
    AddNamesPrefix(cols, t, 2);
    AddNamesPrefix(cols, t, 3);
    AddNamesPrefix(cols, t, 4);
    AddNamesPrefix(cols, t, 5);
    assert t[..6] == t;
  }

  /** The copy after the four calendar assignments. */
  function Calendar(df: Frame, datetime: seq<Cell>, cal: int -> DateParts): (f4: Frame)
    requires WellFormed(df) && IsDatetimeColumn(datetime) && |datetime| == |df.rows|
    ensures WellFormed(f4) && |f4.rows| == |df.rows|
  {
    SetColumn(SetColumn(SetColumn(SetColumn(df,
      "hour", DtPart(datetime, cal, Hour)), "day", DtPart(datetime, cal, Day)),
      "month", DtPart(datetime, cal, Month)), "weekday", DtPart(datetime, cal, Weekday))
  }

  /** The copy after all six assignments, when every one of them succeeds:
      the two derived columns come from the weekday and hour fields. */
  function TemporalFrame(df: Frame, datetime: seq<Cell>, cal: int -> DateParts): (g: Frame)
    requires WellFormed(df) && IsDatetimeColumn(datetime) && |datetime| == |df.rows|
    ensures WellFormed(g) && |g.rows| == |df.rows|
  {
    var f5 := SetColumn(Calendar(df, datetime, cal), "is_weekend", IsIn(DtPart(datetime, cal, Weekday), {5, 6}));
    SetColumn(f5, "time_of_day", TimeOfDay(DtPart(datetime, cal, Hour)))
  }

  /** The `hour` columns after the calendar assignments: they hold the hour
      field as the assignment left them, and there are as many as before (one
      if none); the first shows the hour of row `SeriesRow(df, "hour", 0, i)`. */
  lemma CalendarHour(df: Frame, datetime: seq<Cell>, cal: int -> DateParts)
    requires WellFormed(df) && IsDatetimeColumn(datetime) && |datetime| == |df.rows|
    ensures var f4 := Calendar(df, datetime, cal);
      && (AtMostOnce(f4.columns, "hour") <==> AtMostOnce(df.columns, "hour"))
      && ("hour" in df.columns ==> Count(f4.columns, "hour") == Count(df.columns, "hour"))
      && "hour" in f4.columns
      && Holds(f4, "hour", DtPart(datetime, cal, Hour))
      && forall i :: 0 <= i < |df.rows| ==> At(f4, "hour", i) == DtPart(datetime, cal, Hour)[SeriesRow(df, "hour", 0, i)]
  {
    CalendarHourCount(df, datetime, cal);
    CalendarHourHolds(df, datetime, cal);
    CalendarHourAt(df, datetime, cal);
  }

  /** The calendar assignments leave the number of `hour` columns as it was
      (or one, if there was none). */
  lemma CalendarHourCount(df: Frame, datetime: seq<Cell>, cal: int -> DateParts)
    requires WellFormed(df) && IsDatetimeColumn(datetime) && |datetime| == |df.rows|
    ensures var f4 := Calendar(df, datetime, cal);
      && (AtMostOnce(f4.columns, "hour") <==> AtMostOnce(df.columns, "hour"))
      && ("hour" in df.columns ==> Count(f4.columns, "hour") == Count(df.columns, "hour"))
  {
    var hs, ds, ms, ws := DtPart(datetime, cal, Hour), DtPart(datetime, cal, Day),
                          DtPart(datetime, cal, Month), DtPart(datetime, cal, Weekday);
    var f1 := SetColumn(df, "hour", hs);
    var f2 := SetColumn(f1, "day", ds);
    var f3 := SetColumn(f2, "month", ms);
    CountAddName(df.columns, "hour", "hour");
    CountAddName(f1.columns, "day", "hour");
    CountAddName(f2.columns, "month", "hour");
    CountAddName(f3.columns, "weekday", "hour");
    CountOnce(df.columns, "hour");
    CountOnce(Calendar(df, datetime, cal).columns, "hour");
  }

  /** The `hour` columns hold the hour field as its assignment left them. */
  lemma CalendarHourHolds(df: Frame, datetime: seq<Cell>, cal: int -> DateParts)
    requires WellFormed(df) && IsDatetimeColumn(datetime) && |datetime| == |df.rows|
    ensures Holds(Calendar(df, datetime, cal), "hour", DtPart(datetime, cal, Hour))
  {
    var hs, ds, ms, ws := DtPart(datetime, cal, Hour), DtPart(datetime, cal, Day),
                          DtPart(datetime, cal, Month), DtPart(datetime, cal, Weekday);
    var f1 := SetColumn(df, "hour", hs);
    var f2 := SetColumn(f1, "day", ds);
    var f3 := SetColumn(f2, "month", ms);
    SetColumnHolds(df, "hour", hs, "hour", hs);
    SetColumnHolds(f1, "day", ds, "hour", hs);
    SetColumnHolds(f2, "month", ms, "hour", hs);
    SetColumnHolds(f3, "weekday", ws, "hour", hs);
  }

  /** The first `hour` column after the calendar assignments reads the hour
      of row `SeriesRow(df, "hour", 0, i)`. */
  lemma CalendarHourAt(df: Frame, datetime: seq<Cell>, cal: int -> DateParts)
    requires WellFormed(df) && IsDatetimeColumn(datetime) && |datetime| == |df.rows|
    ensures var f4 := Calendar(df, datetime, cal);
      && "hour" in f4.columns
      && forall i :: 0 <= i < |df.rows| ==> At(f4, "hour", i) == DtPart(datetime, cal, Hour)[SeriesRow(df, "hour", 0, i)]
  {
    var hs, ds, ms, ws := DtPart(datetime, cal, Hour), DtPart(datetime, cal, Day),
                          DtPart(datetime, cal, Month), DtPart(datetime, cal, Weekday);
    var f1 := SetColumn(df, "hour", hs);
    var f2 := SetColumn(f1, "day", ds);
    var f3 := SetColumn(f2, "month", ms);
    SetColumnAt(df, "hour", hs, "hour");
    SetColumnAt(f1, "day", ds, "hour");
    SetColumnAt(f2, "month", ms, "hour");
    SetColumnAt(f3, "weekday", ws, "hour");
  }

  /** The `weekday` columns after the calendar assignments: they hold the
      weekday field as the assignment left them, and there are as many as
      before (one if none); the first shows the weekday of row
      `SeriesRow(df, "weekday", 0, i)`. */
  lemma CalendarWeekday(df: Frame, datetime: seq<Cell>, cal: int -> DateParts)
    requires WellFormed(df) && IsDatetimeColumn(datetime) && |datetime| == |df.rows|
    ensures var f4 := Calendar(df, datetime, cal);
      && (AtMostOnce(f4.columns, "weekday") <==> AtMostOnce(df.columns, "weekday"))
      && ("weekday" in df.columns ==> Count(f4.columns, "weekday") == Count(df.columns, "weekday"))
      && "weekday" in f4.columns
      && Holds(f4, "weekday", DtPart(datetime, cal, Weekday))
      && (Spreads(f4, "weekday") <==> Spreads(df, "weekday"))
      && forall i :: 0 <= i < |df.rows| ==> At(f4, "weekday", i) == DtPart(datetime, cal, Weekday)[SeriesRow(df, "weekday", 0, i)]
  {
    CalendarWeekdayCount(df, datetime, cal);
    CalendarWeekdayHolds(df, datetime, cal);
    CalendarWeekdayAt(df, datetime, cal);
  }

  /** The calendar assignments leave the number of `weekday` columns, and
      therefore whether they spread, as it was. */
  lemma CalendarWeekdayCount(df: Frame, datetime: seq<Cell>, cal: int -> DateParts)
    requires WellFormed(df) && IsDatetimeColumn(datetime) && |datetime| == |df.rows|
    ensures var f4 := Calendar(df, datetime, cal);
      && (AtMostOnce(f4.columns, "weekday") <==> AtMostOnce(df.columns, "weekday"))
      && ("weekday" in df.columns ==> Count(f4.columns, "weekday") == Count(df.columns, "weekday"))
      && (Spreads(f4, "weekday") <==> Spreads(df, "weekday"))
  {
    var hs, ds, ms, ws := DtPart(datetime, cal, Hour), DtPart(datetime, cal, Day),
                          DtPart(datetime, cal, Month), DtPart(datetime, cal, Weekday);
    var f1 := SetColumn(df, "hour", hs);
    var f2 := SetColumn(f1, "day", ds);
    var f3 := SetColumn(f2, "month", ms);
    CountAddName(df.columns, "hour", "weekday");
    CountAddName(f1.columns, "day", "weekday");
    CountAddName(f2.columns, "month", "weekday");
    CountAddName(f3.columns, "weekday", "weekday");
    CountOnce(df.columns, "weekday");
    CountOnce(Calendar(df, datetime, cal).columns, "weekday");
  }

  /** The `weekday` columns hold the weekday field as its assignment left them. */
  lemma CalendarWeekdayHolds(df: Frame, datetime: seq<Cell>, cal: int -> DateParts)
    requires WellFormed(df) && IsDatetimeColumn(datetime) && |datetime| == |df.rows|
    ensures Holds(Calendar(df, datetime, cal), "weekday", DtPart(datetime, cal, Weekday))
  {
    var hs, ds, ms, ws := DtPart(datetime, cal, Hour), DtPart(datetime, cal, Day),
                          DtPart(datetime, cal, Month), DtPart(datetime, cal, Weekday);
    var f1 := SetColumn(df, "hour", hs);
    var f2 := SetColumn(f1, "day", ds);
    var f3 := SetColumn(f2, "month", ms);
    SetColumnHolds(f3, "weekday", ws, "weekday", ws);
  }

  /** The first `weekday` column after the calendar assignments reads the
      weekday of row `SeriesRow(df, "weekday", 0, i)`. */
  lemma CalendarWeekdayAt(df: Frame, datetime: seq<Cell>, cal: int -> DateParts)
    requires WellFormed(df) && IsDatetimeColumn(datetime) && |datetime| == |df.rows|
    ensures var f4 := Calendar(df, datetime, cal);
      && "weekday" in f4.columns
      && forall i :: 0 <= i < |df.rows| ==> At(f4, "weekday", i) == DtPart(datetime, cal, Weekday)[SeriesRow(df, "weekday", 0, i)]
  {
    var hs, ds, ms, ws := DtPart(datetime, cal, Hour), DtPart(datetime, cal, Day),
                          DtPart(datetime, cal, Month), DtPart(datetime, cal, Weekday);
    var f1 := SetColumn(df, "hour", hs);
    var f2 := SetColumn(f1, "day", ds);
    var f3 := SetColumn(f2, "month", ms);
    SetColumnAt(df, "hour", hs, "weekday");
    SetColumnAt(f1, "day", ds, "weekday");
    SetColumnAt(f2, "month", ms, "weekday");
    SetColumnAt(f3, "weekday", ws, "weekday");
  }

  /** The `day` column after the calendar assignments. */
  lemma CalendarDay(df: Frame, datetime: seq<Cell>, cal: int -> DateParts)
    requires WellFormed(df) && IsDatetimeColumn(datetime) && |datetime| == |df.rows|
    ensures var f4 := Calendar(df, datetime, cal);
      && "day" in f4.columns
      && forall i :: 0 <= i < |df.rows| ==> At(f4, "day", i) == DtPart(datetime, cal, Day)[SeriesRow(df, "day", 0, i)]
  {
    var hs, ds, ms, ws := DtPart(datetime, cal, Hour), DtPart(datetime, cal, Day),
                          DtPart(datetime, cal, Month), DtPart(datetime, cal, Weekday);
    var f1 := SetColumn(df, "hour", hs);
    var f2 := SetColumn(f1, "day", ds);
    var f3 := SetColumn(f2, "month", ms);
    SetColumnAt(df, "hour", hs, "day");
    SetColumnAt(f1, "day", ds, "day");
    SetColumnAt(f2, "month", ms, "day");
    SetColumnAt(f3, "weekday", ws, "day");
  }

  /** The `month` column after the calendar assignments. */
  lemma CalendarMonth(df: Frame, datetime: seq<Cell>, cal: int -> DateParts)
    requires WellFormed(df) && IsDatetimeColumn(datetime) && |datetime| == |df.rows|
    ensures var f4 := Calendar(df, datetime, cal);
      && "month" in f4.columns
      && forall i :: 0 <= i < |df.rows| ==> At(f4, "month", i) == DtPart(datetime, cal, Month)[SeriesRow(df, "month", 0, i)]
  {
    var hs, ds, ms, ws := DtPart(datetime, cal, Hour), DtPart(datetime, cal, Day),
                          DtPart(datetime, cal, Month), DtPart(datetime, cal, Weekday);
    var f1 := SetColumn(df, "hour", hs);
    var f2 := SetColumn(f1, "day", ds);
    var f3 := SetColumn(f2, "month", ms);
    SetColumnAt(df, "hour", hs, "month");
    SetColumnAt(f1, "day", ds, "month");
    SetColumnAt(f2, "month", ms, "month");
    SetColumnAt(f3, "weekday", ws, "month");
  }

  /** The calendar assignments do not touch how often `is_weekend` and
      `time_of_day` occur, nor so whether a Series assigned to them is spread. */
  lemma CalendarCounts(df: Frame, datetime: seq<Cell>, cal: int -> DateParts)
    requires WellFormed(df) && IsDatetimeColumn(datetime) && |datetime| == |df.rows|
    ensures var f4 := Calendar(df, datetime, cal);
      && Count(f4.columns, "is_weekend") == Count(df.columns, "is_weekend")
      && Count(f4.columns, "time_of_day") == Count(df.columns, "time_of_day")
      && (Spreads(f4, "is_weekend") <==> Spreads(df, "is_weekend"))
      && (Spreads(f4, "time_of_day") <==> Spreads(df, "time_of_day"))
  {
    var hs, ds, ms, ws := DtPart(datetime, cal, Hour), DtPart(datetime, cal, Day),
                          DtPart(datetime, cal, Month), DtPart(datetime, cal, Weekday);
    var f1 := SetColumn(df, "hour", hs);
    var f2 := SetColumn(f1, "day", ds);
    var f3 := SetColumn(f2, "month", ms);
    CountAddName(df.columns, "hour", "is_weekend");
    CountAddName(f1.columns, "day", "is_weekend");
    CountAddName(f2.columns, "month", "is_weekend");
    CountAddName(f3.columns, "weekday", "is_weekend");
    CountAddName(df.columns, "hour", "time_of_day");
    CountAddName(f1.columns, "day", "time_of_day");
    CountAddName(f2.columns, "month", "time_of_day");
    CountAddName(f3.columns, "weekday", "time_of_day");
    var f4 := Calendar(df, datetime, cal);
    CountOnce(df.columns, "is_weekend");
    CountOnce(f4.columns, "is_weekend");
    CountOnce(df.columns, "time_of_day");
    CountOnce(f4.columns, "time_of_day");
  }

  /** The four `.dt` assignments: the first column of each calendar name
      holds its field of the timestamp of row `SeriesRow(df, name, 0, i)`. */
  lemma CalendarFields(df: Frame, datetime: seq<Cell>, cal: int -> DateParts)
    requires WellFormed(df) && IsDatetimeColumn(datetime) && |datetime| == |df.rows|
    ensures var f4 := Calendar(df, datetime, cal);
      && "hour" in f4.columns && "day" in f4.columns && "month" in f4.columns && "weekday" in f4.columns
      && forall i :: 0 <= i < |df.rows| ==>
           && At(f4, "hour", i) == DtPart(datetime, cal, Hour)[SeriesRow(df, "hour", 0, i)]
           && At(f4, "day", i) == DtPart(datetime, cal, Day)[SeriesRow(df, "day", 0, i)]
           && At(f4, "month", i) == DtPart(datetime, cal, Month)[SeriesRow(df, "month", 0, i)]
           && At(f4, "weekday", i) == DtPart(datetime, cal, Weekday)[SeriesRow(df, "weekday", 0, i)]
  {
    CalendarHour(df, datetime, cal);
    CalendarWeekday(df, datetime, cal);
    CalendarDay(df, datetime, cal);
    CalendarMonth(df, datetime, cal);
  }

  /** The `is_weekend` assignment.  The columns called `weekday` hold the
      weekday field, so reading it back gives that field once or, when the
      name is duplicated, a sub-frame; in the latter case the flags are
      written column by column into as many `is_weekend` columns, which is
      what assigning the flags as a Series does: a broadcast of the same flags,
      or, when there are as many columns as rows, the same spread. */
  lemma WeekendStep(df: Frame, datetime: seq<Cell>, cal: int -> DateParts)
    requires WellFormed(df) && IsDatetimeColumn(datetime) && |datetime| == |df.rows|
    requires AtMostOnce(df.columns, "weekday") || Count(df.columns, "weekday") == Count(df.columns, "is_weekend")
    ensures var f4 := Calendar(df, datetime, cal);
      && Select(f4, "weekday").Success?
      && Assign(f4, "is_weekend", IsInOf(Select(f4, "weekday").value, {5, 6}))
           == Success(SetColumn(f4, "is_weekend", IsIn(DtPart(datetime, cal, Weekday), {5, 6})))
  {
    var f4 := Calendar(df, datetime, cal);
    var ws := DtPart(datetime, cal, Weekday);
    CalendarWeekday(df, datetime, cal);
    CalendarCounts(df, datetime, cal);
    SelectHolds(f4, "weekday", ws);
    var sel := Select(f4, "weekday").value;
    if sel.Columns? {
      CountOnce(df.columns, "weekday");
      CountOnce(f4.columns, "weekday");
      CountOnce(f4.columns, "is_weekend");
      if Spreads(f4, "weekday") {
        SpreadingMarks(sel.sub, ws, {5, 6}, true);
        AssignSpread(f4, "is_weekend", IsInOf(sel, {5, 6}).sub, IsIn(ws, {5, 6}));
      } else {
        UniformMarks(sel.sub, ws, {5, 6}, true);
        AssignUniform(f4, "is_weekend", IsInOf(sel, {5, 6}).sub, IsIn(ws, {5, 6}));
      }
    }
  }

  /** The `time_of_day` assignment.  The columns called `hour` hold the
      hour field; reading it back gives that field once, or, on a table
      without rows, a sub-frame that is copied into as many `time_of_day`
      columns. */
  lemma HourStep(df: Frame, datetime: seq<Cell>, cal: int -> DateParts)
    requires WellFormed(df) && IsDatetimeColumn(datetime) && |datetime| == |df.rows|
    requires AtMostOnce(df.columns, "hour") ||
             (|df.rows| == 0 && Count(df.columns, "hour") == Count(df.columns, "time_of_day"))
    ensures var f5 := SetColumn(Calendar(df, datetime, cal), "is_weekend", IsIn(DtPart(datetime, cal, Weekday), {5, 6}));
      && Select(f5, "hour").Success?
      && ApplyTimeOfDay(Select(f5, "hour").value).Success?
      && Assign(f5, "time_of_day", ApplyTimeOfDay(Select(f5, "hour").value).value)
           == Success(SetColumn(f5, "time_of_day", TimeOfDay(DtPart(datetime, cal, Hour))))
  {
    var f4 := Calendar(df, datetime, cal);
    var hs := DtPart(datetime, cal, Hour);
    var flags := IsIn(DtPart(datetime, cal, Weekday), {5, 6});
    var f5 := SetColumn(f4, "is_weekend", flags);
    CalendarHour(df, datetime, cal);
    CalendarCounts(df, datetime, cal);
    SetColumnAt(f4, "is_weekend", flags, "hour");
    SetColumnHolds(f4, "is_weekend", flags, "hour", hs);
    CountAddName(f4.columns, "is_weekend", "hour");
    CountAddName(f4.columns, "is_weekend", "time_of_day");
    SelectHolds(f5, "hour", hs);
    var sel := Select(f5, "hour").value;
    if sel.Columns? {
      CountOnce(df.columns, "hour");
      CountOnce(f5.columns, "hour");
      CountOnce(f5.columns, "time_of_day");
      AssignUniform(f5, "time_of_day", sel.sub, TimeOfDay(hs));
    }
  }

  /** The precondition under which every read and assignment of
      `extract_temporal_features` succeeds. */
  predicate TemporalReady(df: Frame)
    requires WellFormed(df)
  {
    && Unique(df.columns, "datetime")
    && IsDatetimeColumn(GetColumn(df, "datetime").value)
    && (AtMostOnce(df.columns, "weekday") || Count(df.columns, "weekday") == Count(df.columns, "is_weekend"))
    && (AtMostOnce(df.columns, "hour") ||
        (|df.rows| == 0 && Count(df.columns, "hour") == Count(df.columns, "time_of_day")))
  }

  /** The result of a successful `extract_temporal_features`: whether `weekday`
      and `hour` are read back as one column or as several, it is the copy
      with the six assignments made column-wide. */
  lemma TemporalUnfold(df: Frame, cal: int -> DateParts)
    requires WellFormed(df) && TemporalReady(df)
    ensures ExtractTemporalFeatures(df, cal) == Success(TemporalFrame(df, GetColumn(df, "datetime").value, cal))
  {
    var datetime := GetColumn(df, "datetime").value;
    WeekendStep(df, datetime, cal);
    HourStep(df, datetime, cal);
  }

  /** The six assignments of `extract_temporal_features` leave every cell
      outside the temporal columns as it was. */
  lemma TemporalKeeps(df: Frame, cal: int -> DateParts)
    requires WellFormed(df) && TemporalReady(df)
    ensures var r := ExtractTemporalFeatures(df, cal);
      && r.Success? && WellFormed(r.value)
      && Keeps(df, r.value, TemporalColumns)
  {
    var datetime := GetColumn(df, "datetime").value;
    var hs, ds, ms, ws := DtPart(datetime, cal, Hour), DtPart(datetime, cal, Day),
                          DtPart(datetime, cal, Month), DtPart(datetime, cal, Weekday);
    var f1 := SetColumn(df, "hour", hs);
    var f2 := SetColumn(f1, "day", ds);
    var f3 := SetColumn(f2, "month", ms);
    var f4 := SetColumn(f3, "weekday", ws);
    TemporalUnfold(df, cal);
    var flags := IsIn(ws, {5, 6});
    var f5 := SetColumn(f4, "is_weekend", flags);
    var tod := TimeOfDay(hs);
    var g := SetColumn(f5, "time_of_day", tod);
    var t := TemporalColumns;
    SetColumnKeeps(df, "hour", hs, t);
    SetColumnKeeps(f1, "day", ds, t);
    KeepsTransitive(df, f1, f2, t);
    SetColumnKeeps(f2, "month", ms, t);
    KeepsTransitive(df, f2, f3, t);
    SetColumnKeeps(f3, "weekday", ws, t);
    KeepsTransitive(df, f3, f4, t);
    SetColumnKeeps(f4, "is_weekend", flags, t);
    KeepsTransitive(df, f4, f5, t);
    SetColumnKeeps(f5, "time_of_day", tod, t);
    KeepsTransitive(df, f5, g, t);
    assert ExtractTemporalFeatures(df, cal) == Success(g);
  }

  /** `isin([5, 6])` on one cell: true exactly for Saturday and Sunday. */
  lemma WeekendCell(c: Cell)
    ensures IsIn([c], {5, 6})[0] == Some(Bool(c == Some(Int(5)) || c == Some(Int(6))))
  {
  }

  /** `Series.dt.<field>` at one row is the calendar field of that row's stamp. */
  lemma DtPartDerived(dt: seq<Cell>, cal: int -> DateParts, which: Part, i: nat)
    requires IsDatetimeColumn(dt) && i < |dt|
    ensures DtPart(dt, cal, which)[i] == Derived(dt[i], cal, which)
  {
    assert dt[i].Some? ==> dt[i].value.Stamp?;
  }

  /** The two derived assignments leave the calendar columns as they were. */
  lemma DerivedCalendar(f4: Frame, ws: seq<Cell>, hs: seq<Cell>)
    requires WellFormed(f4) && |ws| == |f4.rows| && |hs| == |f4.rows|
    requires "hour" in f4.columns && "day" in f4.columns && "month" in f4.columns && "weekday" in f4.columns
    ensures var g := SetColumn(SetColumn(f4, "is_weekend", IsIn(ws, {5, 6})), "time_of_day", TimeOfDay(hs));
      && g.columns == AddName(AddName(f4.columns, "is_weekend"), "time_of_day")
      && HasTemporalColumns(g.columns)
      && forall i :: 0 <= i < |f4.rows| ==>
           && At(g, "hour", i) == At(f4, "hour", i)
           && At(g, "day", i) == At(f4, "day", i)
           && At(g, "month", i) == At(f4, "month", i)
           && At(g, "weekday", i) == At(f4, "weekday", i)
  {
    var flags := IsIn(ws, {5, 6});
    var f5 := SetColumn(f4, "is_weekend", flags);
    var tod := TimeOfDay(hs);
    SetColumnAt(f4, "is_weekend", flags, "hour");
    SetColumnAt(f4, "is_weekend", flags, "day");
    SetColumnAt(f4, "is_weekend", flags, "month");
    SetColumnAt(f4, "is_weekend", flags, "weekday");
    SetColumnAt(f4, "is_weekend", flags, "is_weekend");
    SetColumnAt(f5, "time_of_day", tod, "hour");
    SetColumnAt(f5, "time_of_day", tod, "day");
    SetColumnAt(f5, "time_of_day", tod, "month");
    SetColumnAt(f5, "time_of_day", tod, "weekday");
    SetColumnAt(f5, "time_of_day", tod, "is_weekend");
  }

  /** The two derived assignments: the first `is_weekend` column shows flag
      `SeriesRow(f4, "is_weekend", 0, i)` in row `i`, and the first
      `time_of_day` column bucket `SeriesRow(f4, "time_of_day", 0, i)`. */
  lemma DerivedCells(f4: Frame, ws: seq<Cell>, hs: seq<Cell>)
    requires WellFormed(f4) && |ws| == |f4.rows| && |hs| == |f4.rows|
    ensures var g := SetColumn(SetColumn(f4, "is_weekend", IsIn(ws, {5, 6})), "time_of_day", TimeOfDay(hs));
      && "is_weekend" in g.columns && "time_of_day" in g.columns
      && forall i :: 0 <= i < |f4.rows| ==>
           && At(g, "is_weekend", i) == IsIn(ws, {5, 6})[SeriesRow(f4, "is_weekend", 0, i)]
           && At(g, "time_of_day", i) == TimeOfDay(hs)[SeriesRow(f4, "time_of_day", 0, i)]
  {
    DerivedWeekend(f4, ws, hs);
    DerivedBucket(f4, ws, hs);
  }

  /** The first `is_weekend` column after the two derived assignments. */
  lemma DerivedWeekend(f4: Frame, ws: seq<Cell>, hs: seq<Cell>)
    requires WellFormed(f4) && |ws| == |f4.rows| && |hs| == |f4.rows|
    ensures var g := SetColumn(SetColumn(f4, "is_weekend", IsIn(ws, {5, 6})), "time_of_day", TimeOfDay(hs));
      && "is_weekend" in g.columns
      && forall i :: 0 <= i < |f4.rows| ==> At(g, "is_weekend", i) == IsIn(ws, {5, 6})[SeriesRow(f4, "is_weekend", 0, i)]
  {
    var flags := IsIn(ws, {5, 6});
    var f5 := SetColumn(f4, "is_weekend", flags);
    assert "is_weekend" != "time_of_day";
    SetColumnAt(f4, "is_weekend", flags, "is_weekend");
    SetColumnAt(f5, "time_of_day", TimeOfDay(hs), "is_weekend");
  }

  /** The first `time_of_day` column after the two derived assignments. */
  lemma DerivedBucket(f4: Frame, ws: seq<Cell>, hs: seq<Cell>)
    requires WellFormed(f4) && |ws| == |f4.rows| && |hs| == |f4.rows|
    ensures var g := SetColumn(SetColumn(f4, "is_weekend", IsIn(ws, {5, 6})), "time_of_day", TimeOfDay(hs));
      && "time_of_day" in g.columns
      && forall i :: 0 <= i < |f4.rows| ==> At(g, "time_of_day", i) == TimeOfDay(hs)[SeriesRow(f4, "time_of_day", 0, i)]
  {
    var flags := IsIn(ws, {5, 6});
    var f5 := SetColumn(f4, "is_weekend", flags);
    assert "is_weekend" != "time_of_day";
    SetColumnAt(f4, "is_weekend", flags, "time_of_day");
    assert Spreads(f5, "time_of_day") == Spreads(f4, "time_of_day");
    SetColumnAt(f5, "time_of_day", TimeOfDay(hs), "time_of_day");
  }

  /** Row `i` of a successful `extract_temporal_features`: the first column
      of each calendar name holds that field of the timestamp of row
      `SeriesRow(df, name, 0, i)`, which is row `i` unless the name already
      occurred as many times as there are rows. */
  lemma TemporalRowCalendar(df: Frame, cal: int -> DateParts, i: nat)
    requires WellFormed(df) && TemporalReady(df) && i < |df.rows|
    ensures var r := ExtractTemporalFeatures(df, cal);
      && r.Success? && "hour" in r.value.columns && "day" in r.value.columns
      && "month" in r.value.columns && "weekday" in r.value.columns
      && At(r.value, "hour", i) == Derived(SourceStamp(df, "hour", i), cal, Hour)
      && At(r.value, "day", i) == Derived(SourceStamp(df, "day", i), cal, Day)
      && At(r.value, "month", i) == Derived(SourceStamp(df, "month", i), cal, Month)
      && At(r.value, "weekday", i) == Derived(SourceStamp(df, "weekday", i), cal, Weekday)
  {
    var datetime := GetColumn(df, "datetime").value;
    CalendarFields(df, datetime, cal);
    DerivedCalendar(Calendar(df, datetime, cal), DtPart(datetime, cal, Weekday), DtPart(datetime, cal, Hour));
    TemporalUnfold(df, cal);
    DtPartDerived(datetime, cal, Hour, SeriesRow(df, "hour", 0, i));
    DtPartDerived(datetime, cal, Day, SeriesRow(df, "day", 0, i));
    DtPartDerived(datetime, cal, Month, SeriesRow(df, "month", 0, i));
    DtPartDerived(datetime, cal, Weekday, SeriesRow(df, "weekday", 0, i));
  }

  /** Row `i` of `is_weekend` and `time_of_day`: the weekend flag and the
      bucket of the timestamps of rows `SeriesRow(df, "is_weekend", 0, i)`
      and `SeriesRow(df, "time_of_day", 0, i)`. */
  lemma TemporalRowDerived(df: Frame, cal: int -> DateParts, i: nat)
    requires WellFormed(df) && TemporalReady(df) && i < |df.rows|
    ensures var r := ExtractTemporalFeatures(df, cal);
      && r.Success? && "is_weekend" in r.value.columns && "time_of_day" in r.value.columns
      && (var w := Derived(SourceStamp(df, "is_weekend", i), cal, Weekday);
          At(r.value, "is_weekend", i) == Some(Bool(w == Some(Int(5)) || w == Some(Int(6)))))
      && At(r.value, "time_of_day", i) == TimeOfDay([Derived(SourceStamp(df, "time_of_day", i), cal, Hour)])[0]
  {
    TemporalUnfold(df, cal);
    WeekendOfRow(df, cal, i);
    BucketOfRow(df, cal, i);
  }

  /** Row `i` of the first `is_weekend` column of the six assignments. */
  lemma WeekendOfRow(df: Frame, cal: int -> DateParts, i: nat)
    requires WellFormed(df) && TemporalReady(df) && i < |df.rows|
    ensures var g := TemporalFrame(df, GetColumn(df, "datetime").value, cal);
      && "is_weekend" in g.columns
      && (var w := Derived(SourceStamp(df, "is_weekend", i), cal, Weekday);
          At(g, "is_weekend", i) == Some(Bool(w == Some(Int(5)) || w == Some(Int(6)))))
  {
    var datetime := GetColumn(df, "datetime").value;
    var ws, hs := DtPart(datetime, cal, Weekday), DtPart(datetime, cal, Hour);
    var f4 := Calendar(df, datetime, cal);
    var g := TemporalFrame(df, datetime, cal);
    CalendarCounts(df, datetime, cal);
    DerivedCells(f4, ws, hs);
    var k := SeriesRow(df, "is_weekend", 0, i);
    assert SeriesRow(f4, "is_weekend", 0, i) == k;
    assert At(g, "is_weekend", i) == IsIn(ws, {5, 6})[k];
    WeekendRow(datetime, cal, k);
    assert datetime[k] == At(df, "datetime", k);
  }

  /** Row `i` of the first `time_of_day` column of the six assignments. */
  lemma BucketOfRow(df: Frame, cal: int -> DateParts, i: nat)
    requires WellFormed(df) && TemporalReady(df) && i < |df.rows|
    ensures var g := TemporalFrame(df, GetColumn(df, "datetime").value, cal);
      && "time_of_day" in g.columns
      && At(g, "time_of_day", i) == TimeOfDay([Derived(SourceStamp(df, "time_of_day", i), cal, Hour)])[0]
  {
    var datetime := GetColumn(df, "datetime").value;
    var ws, hs := DtPart(datetime, cal, Weekday), DtPart(datetime, cal, Hour);
    var f4 := Calendar(df, datetime, cal);
    var g := TemporalFrame(df, datetime, cal);
    CalendarCounts(df, datetime, cal);
    DerivedCells(f4, ws, hs);
    var k := SeriesRow(df, "time_of_day", 0, i);
    assert SeriesRow(f4, "time_of_day", 0, i) == k;
    assert At(g, "time_of_day", i) == TimeOfDay(hs)[k];
    HourRow(datetime, cal, k);
    assert datetime[k] == At(df, "datetime", k);
  }

  /** The weekend flag of row `k` of the weekday field. */
  lemma WeekendRow(datetime: seq<Cell>, cal: int -> DateParts, k: nat)
    requires IsDatetimeColumn(datetime) && k < |datetime|
    ensures var w := Derived(datetime[k], cal, Weekday);
      IsIn(DtPart(datetime, cal, Weekday), {5, 6})[k] == Some(Bool(w == Some(Int(5)) || w == Some(Int(6))))
  {
    var ws := DtPart(datetime, cal, Weekday);
    assert IsIn(ws, {5, 6})[k] == IsIn([ws[k]], {5, 6})[0];
    WeekendCell(ws[k]);
    DtPartDerived(datetime, cal, Weekday, k);
  }

  /** The bucket of row `k` of the hour field. */
  lemma HourRow(datetime: seq<Cell>, cal: int -> DateParts, k: nat)
    requires IsDatetimeColumn(datetime) && k < |datetime|
    ensures TimeOfDay(DtPart(datetime, cal, Hour))[k] == TimeOfDay([Derived(datetime[k], cal, Hour)])[0]
  {
    var hs := DtPart(datetime, cal, Hour);
    assert TimeOfDay(hs)[k] == TimeOfDay([hs[k]])[0];
    DtPartDerived(datetime, cal, Hour, k);
  }

  /** The bucket of the hour a datetime cell yields: missing for NaT, else the
      segment of the calendar hour. */
  lemma HourBucket(d: Cell, cal: int -> DateParts)
    requires d.Some? ==> d.value.Stamp?
    ensures TimeOfDay([Derived(d, cal, Hour)])[0].None? <==> d.None?
    ensures d.Some? ==> TimeOfDay([Derived(d, cal, Hour)])[0] == Some(Text(SegmentTimeOfDay(cal(d.value.t).hour)))
  {
  }

  /** Row `i` of a successful `extract_temporal_features`: the first column
      of each temporal name is filled from the timestamp of row
      `SeriesRow(df, name, 0, i)`, that is, of row `i` itself unless the name
      already occurred as many times as there are rows. */
  lemma TemporalRow(df: Frame, cal: int -> DateParts, i: nat)
    requires WellFormed(df) && TemporalReady(df) && i < |df.rows|
    ensures var r := ExtractTemporalFeatures(df, cal);
      && r.Success? && HasTemporalColumns(r.value.columns)
      && At(r.value, "hour", i) == Derived(SourceStamp(df, "hour", i), cal, Hour)
      && At(r.value, "day", i) == Derived(SourceStamp(df, "day", i), cal, Day)
      && At(r.value, "month", i) == Derived(SourceStamp(df, "month", i), cal, Month)
      && At(r.value, "weekday", i) == Derived(SourceStamp(df, "weekday", i), cal, Weekday)
      && (var w := Derived(SourceStamp(df, "is_weekend", i), cal, Weekday);
          At(r.value, "is_weekend", i) == Some(Bool(w == Some(Int(5)) || w == Some(Int(6)))))
      && (var d := SourceStamp(df, "time_of_day", i);
          && (At(r.value, "time_of_day", i).None? <==> d.None?)
          && (d.Some? ==> At(r.value, "time_of_day", i) == Some(Text(SegmentTimeOfDay(cal(d.value.t).hour)))))
  {
    TemporalRowCalendar(df, cal, i);
    TemporalRowDerived(df, cal, i);
    TemporalColumnList(df, cal);
    var datetime := GetColumn(df, "datetime").value;
    var l := SeriesRow(df, "time_of_day", 0, i);
    assert datetime[l] == At(df, "datetime", l);
    HourBucket(At(df, "datetime", l), cal);
  }

  /** The six temporal columns are all present after a successful call, and the
      column list is the input's with each new name appended in order. */
  lemma TemporalColumnList(df: Frame, cal: int -> DateParts)
    requires WellFormed(df) && TemporalReady(df)
    ensures var r := ExtractTemporalFeatures(df, cal);
      && r.Success?
      && r.value.columns == AddNames(df.columns, TemporalColumns)
      && HasTemporalColumns(r.value.columns)
  {
    var datetime := GetColumn(df, "datetime").value;
    CalendarFields(df, datetime, cal);
    DerivedCalendar(Calendar(df, datetime, cal), DtPart(datetime, cal, Weekday), DtPart(datetime, cal, Hour));
    TemporalUnfold(df, cal);
    TemporalNames(df.columns);
  }

  /** `extract_temporal_features` raises exactly when `datetime` is missing,
      duplicated or not of datetime type; when `weekday` is duplicated but
      `is_weekend` does not occur as often; or when `hour` is duplicated and
      the table has rows (the segmenting lambda then sees whole columns) or
      `time_of_day` does not occur as often. */
  lemma TemporalSucceeds(df: Frame, cal: int -> DateParts)
    requires WellFormed(df)
    ensures ExtractTemporalFeatures(df, cal).Success? <==>
      && Unique(df.columns, "datetime")
      && IsDatetimeColumn(GetColumn(df, "datetime").value)
      && (AtMostOnce(df.columns, "weekday") || Count(df.columns, "weekday") == Count(df.columns, "is_weekend"))
      && (AtMostOnce(df.columns, "hour") ||
          (|df.rows| == 0 && Count(df.columns, "hour") == Count(df.columns, "time_of_day")))
  {
    var r := ExtractTemporalFeatures(df, cal);
    var dtr := GetColumn(df, "datetime");
    if dtr.Failure? || !IsDatetimeColumn(dtr.value) {
      assert r.Failure?;
      return;
    }
    var datetime := dtr.value;
    var f4 := Calendar(df, datetime, cal);
    if !(AtMostOnce(df.columns, "weekday") || Count(df.columns, "weekday") == Count(df.columns, "is_weekend")) {
      WeekendFails(df, datetime, cal);
      assert r.Failure?;
      return;
    }
    WeekendStep(df, datetime, cal);
    if !(AtMostOnce(df.columns, "hour") ||
         (|df.rows| == 0 && Count(df.columns, "hour") == Count(df.columns, "time_of_day"))) {
      HourFails(df, datetime, cal);
      assert r.Failure?;
      return;
    }
    TemporalUnfold(df, cal);
  }

  /** A duplicated `weekday` that `is_weekend` does not match in number makes
      the `is_weekend` assignment raise. */
  lemma WeekendFails(df: Frame, datetime: seq<Cell>, cal: int -> DateParts)
    requires WellFormed(df) && IsDatetimeColumn(datetime) && |datetime| == |df.rows|
    requires !AtMostOnce(df.columns, "weekday") && Count(df.columns, "weekday") != Count(df.columns, "is_weekend")
    ensures var f4 := Calendar(df, datetime, cal);
      && Select(f4, "weekday").Success?
      && Assign(f4, "is_weekend", IsInOf(Select(f4, "weekday").value, {5, 6})).Failure?
  {
    CalendarWeekday(df, datetime, cal);
    CalendarCounts(df, datetime, cal);
    CountOnce(df.columns, "weekday");
    CountOnce(Calendar(df, datetime, cal).columns, "is_weekend");
  }

  /** A duplicated `hour` makes the `apply` raise when the table has rows,
      and the `time_of_day` assignment raise when that name does not occur
      as often. */
  lemma HourFails(df: Frame, datetime: seq<Cell>, cal: int -> DateParts)
    requires WellFormed(df) && IsDatetimeColumn(datetime) && |datetime| == |df.rows|
    requires !AtMostOnce(df.columns, "hour")
    requires |df.rows| > 0 || Count(df.columns, "hour") != Count(df.columns, "time_of_day")
    ensures var f5 := SetColumn(Calendar(df, datetime, cal), "is_weekend", IsIn(DtPart(datetime, cal, Weekday), {5, 6}));
      && Select(f5, "hour").Success?
      && (ApplyTimeOfDay(Select(f5, "hour").value).Success? ==>
            Assign(f5, "time_of_day", ApplyTimeOfDay(Select(f5, "hour").value).value).Failure?)
  {
    var f4 := Calendar(df, datetime, cal);
    var flags := IsIn(DtPart(datetime, cal, Weekday), {5, 6});
    var f5 := SetColumn(f4, "is_weekend", flags);
    CalendarHour(df, datetime, cal);
    CalendarCounts(df, datetime, cal);
    SetColumnAt(f4, "is_weekend", flags, "hour");
    CountAddName(f4.columns, "is_weekend", "hour");
    CountAddName(f4.columns, "is_weekend", "time_of_day");
    CountOnce(df.columns, "hour");
    CountOnce(f5.columns, "time_of_day");
  }

  /** Every row of a successful `extract_temporal_features`, as `TemporalRow` states it. */
  lemma TemporalRows(df: Frame, cal: int -> DateParts)
    requires WellFormed(df) && TemporalReady(df)
    ensures var r := ExtractTemporalFeatures(df, cal);
      && r.Success? && WellFormed(r.value)
      && HasTemporalColumns(r.value.columns)
      && forall i :: 0 <= i < |df.rows| ==>
           && At(r.value, "hour", i) == Derived(SourceStamp(df, "hour", i), cal, Hour)
           && At(r.value, "day", i) == Derived(SourceStamp(df, "day", i), cal, Day)
           && At(r.value, "month", i) == Derived(SourceStamp(df, "month", i), cal, Month)
           && At(r.value, "weekday", i) == Derived(SourceStamp(df, "weekday", i), cal, Weekday)
           && (var w := Derived(SourceStamp(df, "is_weekend", i), cal, Weekday);
               At(r.value, "is_weekend", i) == Some(Bool(w == Some(Int(5)) || w == Some(Int(6)))))
           && (var d := SourceStamp(df, "time_of_day", i);
               && (At(r.value, "time_of_day", i).None? <==> d.None?)
               && (d.Some? ==> At(r.value, "time_of_day", i) == Some(Text(SegmentTimeOfDay(cal(d.value.t).hour)))))
  {
    TemporalColumnList(df, cal);
    TemporalKeeps(df, cal);
    forall i | 0 <= i < |df.rows| {
      TemporalRow(df, cal, i);
    }
  }

  /** The contract of `extract_temporal_features`: when it succeeds, the six
      temporal columns are appended (or overwritten), every other cell is left
      alone, and the first column of each temporal name is filled row by row
      from the timestamps, as `TemporalRow` states. */
  lemma TemporalFeatures(df: Frame, cal: int -> DateParts)
    requires WellFormed(df)
    ensures var r := ExtractTemporalFeatures(df, cal);
      && (r.Success? <==>
            && Unique(df.columns, "datetime")
            && IsDatetimeColumn(GetColumn(df, "datetime").value)
            && (AtMostOnce(df.columns, "weekday") || Count(df.columns, "weekday") == Count(df.columns, "is_weekend"))
            && (AtMostOnce(df.columns, "hour") ||
                (|df.rows| == 0 && Count(df.columns, "hour") == Count(df.columns, "time_of_day"))))
      && (r.Success? ==>
            && WellFormed(r.value)
            && r.value.columns == AddNames(df.columns, TemporalColumns)
            && Keeps(df, r.value, TemporalColumns)
            && HasTemporalColumns(r.value.columns)
            && forall i :: 0 <= i < |df.rows| ==>
                 && At(r.value, "hour", i) == Derived(SourceStamp(df, "hour", i), cal, Hour)
                 && At(r.value, "day", i) == Derived(SourceStamp(df, "day", i), cal, Day)
                 && At(r.value, "month", i) == Derived(SourceStamp(df, "month", i), cal, Month)
                 && At(r.value, "weekday", i) == Derived(SourceStamp(df, "weekday", i), cal, Weekday)
                 && (var w := Derived(SourceStamp(df, "is_weekend", i), cal, Weekday);
                     At(r.value, "is_weekend", i) == Some(Bool(w == Some(Int(5)) || w == Some(Int(6)))))
                 && (var d := SourceStamp(df, "time_of_day", i);
                     && (At(r.value, "time_of_day", i).None? <==> d.None?)
                     && (d.Some? ==> At(r.value, "time_of_day", i) == Some(Text(SegmentTimeOfDay(cal(d.value.t).hour))))))
  {
    TemporalSucceeds(df, cal);
    if TemporalReady(df) {
      TemporalKeeps(df, cal);
      TemporalColumnList(df, cal);
      TemporalRows(df, cal);
    }
  }

  // ---------------------------------------------------------------------
  // cancelled_to_flag and missing_to_flag

  const CancelledColumns: seq<string> := ["cancelled_rides_by_driver", "cancelled_rides_by_customer", "incomplete_rides"]

  const MissingColumns: seq<string> := ["driver_ratings", "customer_rating", "booking_value", "payment_method"]

  /** The flag column written for each of `cols`: distinct for distinct
      sources, and none of them a source when no source is another plus the suffix. */
  function FlagNames(cols: seq<string>, suffix: string): (r: seq<string>)
    ensures |r| == |cols|
    ensures forall k :: 0 <= k < |cols| ==> r[k] == cols[k] + suffix
    ensures Distinct(cols) ==> Distinct(r)
    ensures (forall c, d :: c in cols && d in cols ==> c != d + suffix) ==>
      forall k :: 0 <= k < |r| ==> r[k] !in cols
  {
    var r := seq(|cols|, k requires 0 <= k < |cols| => cols[k] + suffix);
    assert Distinct(cols) ==> Distinct(r) by {
      if Distinct(cols) {
        forall j, l | 0 <= j < l < |cols|
          ensures r[j] != r[l]
        {
          if r[j] == r[l] {
            AppendCancel(cols[j], cols[l], suffix);
          }
        }
      }
    }
    assert (forall c, d :: c in cols && d in cols ==> c != d + suffix) ==>
      forall k :: 0 <= k < |r| ==> r[k] !in cols
    by {
      if forall c, d :: c in cols && d in cols ==> c != d + suffix {
        forall k | 0 <= k < |r|
          ensures r[k] !in cols
        {
          assert cols[k] in cols;
        }
      }
    }
    r
  }

  /** One pass of a flag loop: `new_df[col + suffix] = new_df[col].notnull()`,
      or `.isnull()` when `present` is false. */
  function FlagOne(df: Frame, col: string, suffix: string, present: bool): (r: Result<Frame, Error>)
    requires WellFormed(df)
    ensures r.Success? ==> WellFormed(r.value) && |r.value.rows| == |df.rows|
  {
    var values :- Select(df, col);
    Assign(df, col + suffix, NullMarksOf(values, present))
  }

  /** The frame a flag loop leaves after running over `cols`, in order. */
  function Flagged(df: Frame, cols: seq<string>, suffix: string, present: bool): (r: Result<Frame, Error>)
    requires WellFormed(df)
    ensures r.Success? ==> WellFormed(r.value) && |r.value.rows| == |df.rows|
    decreases |cols|
  {
    if cols == [] then Success(df)
    else
      var g :- Flagged(df, cols[..|cols| - 1], suffix, present);
      FlagOne(g, cols[|cols| - 1], suffix, present)
  }

  /** Once a pass of the flag loop has failed, the loop's result is that failure. */
  lemma {:induction false} FlaggedPrefix(df: Frame, cols: seq<string>, k: nat, suffix: string, present: bool)
    requires WellFormed(df) && k <= |cols|
    ensures Flagged(df, cols[..k], suffix, present).Failure? ==>
      Flagged(df, cols, suffix, present) == Flagged(df, cols[..k], suffix, present)
    decreases |cols| - k
  {
    if k == |cols| {
      assert cols[..k] == cols;
    } else {
      var n := |cols| - 1;
      assert cols[..n][..k] == cols[..k];
      FlaggedPrefix(df, cols[..n], k, suffix, present);
      FlaggedStops(df, cols, suffix, present);
    }
  }

  /** A failure before the last pass is the loop's result. */
  lemma FlaggedStops(df: Frame, cols: seq<string>, suffix: string, present: bool)
    requires WellFormed(df) && cols != []
    ensures var prefix := Flagged(df, cols[..|cols| - 1], suffix, present);
      prefix.Failure? ==> Flagged(df, cols, suffix, present) == prefix
  {
  }

  /** The flag loop over one more column is one more pass over the frame it had left. */
  lemma FlaggedNext(df: Frame, cols: seq<string>, k: nat, suffix: string, present: bool, g: Frame)
    requires WellFormed(df) && k < |cols|
    requires Flagged(df, cols[..k], suffix, present) == Success(g)
    ensures WellFormed(g)
    ensures Flagged(df, cols[..k + 1], suffix, present) == FlagOne(g, cols[k], suffix, present)
  {
    assert cols[..k + 1][..k] == cols[..k];
  }

  lemma AppendCancel(a: string, b: string, suffix: string)
    requires a + suffix == b + suffix
    ensures a == b
  {
    assert |a| == |b|;
    assert a == (a + suffix)[..|a|];
    assert b == (b + suffix)[..|b|];
  }

  /** A column that is no source column plus `suffix` is not among the flag names. */
  lemma NotFlagName(cols: seq<string>, suffix: string, c: string)
    requires forall d :: d in cols ==> c != d + suffix
    ensures c !in FlagNames(cols, suffix)
  {
  }

  /** When one pass of a flag loop over `source` succeeds: the source is
      present, and when it is duplicated the flag name occurs as often. */
  predicate FlagReady(cols: seq<string>, source: string, flag: string) {
    source in cols && (AtMostOnce(cols, source) || Count(cols, source) == Count(cols, flag))
  }

  /** The row whose source value the first flag column of `c` marks in row
      `i`: row `i`, unless `c` occurs once and its Series of marks is spread
      over the columns of the flag name (`SeriesRow`). */
  function FlagRow(df: Frame, c: string, suffix: string, i: nat): (k: nat)
    ensures i < |df.rows| ==> k < |df.rows|
  {
    if AtMostOnce(df.columns, c) then SeriesRow(df, c + suffix, 0, i) else i
  }

  /** What the flag loop has established after running over `init`. */
  predicate FlagsDone(df: Frame, g: Frame, init: seq<string>, suffix: string, present: bool)
    requires WellFormed(df) && WellFormed(g)
  {
    && (forall d :: d in init ==> FlagReady(df.columns, d, d + suffix))
    && g.columns == AddNames(df.columns, FlagNames(init, suffix))
    && Keeps(df, g, FlagNames(init, suffix))
    && (forall d :: d in init ==> d + suffix in g.columns)
    && forall d, i :: d in init && 0 <= i < |df.rows| ==>
         At(g, d + suffix, i) == Mark(At(df, d, FlagRow(df, d, suffix, i)), present)
  }

  /** Before the pass over `c`, the columns called `c` are those of the input
      frame, and the flag name occurs as often as there or, when new, at most once. */
  lemma FlagSource(df: Frame, g: Frame, init: seq<string>, c: string, suffix: string, present: bool)
    requires WellFormed(df) && WellFormed(g)
    requires forall d :: d in init ==> c != d + suffix
    requires FlagsDone(df, g, init, suffix, present)
    ensures c in g.columns <==> c in df.columns
    ensures AtMostOnce(g.columns, c) <==> AtMostOnce(df.columns, c)
    ensures Count(g.columns, c) == Count(df.columns, c)
    ensures FlagReady(g.columns, c, c + suffix) <==> FlagReady(df.columns, c, c + suffix)
    ensures Spreads(g, c + suffix) <==> Spreads(df, c + suffix)
    ensures c in df.columns ==> forall i :: 0 <= i < |df.rows| ==> At(g, c, i) == At(df, c, i)
  {
    var names := FlagNames(init, suffix);
    NotFlagName(init, suffix, c);
    AddNamesMembers(df.columns, names);
    ExtensionKeeps(df.columns, g.columns, c);
    CountAddNames(df.columns, names, c);
    CountAddNames(df.columns, names, c + suffix);
    CountOnce(df.columns, c);
    CountOnce(df.columns, c + suffix);
    if c in df.columns {
      var k := IndexOf(df.columns, c);
      assert df.columns[k] !in names;
    }
  }

  /** After a pass over a source `c` that occurs once, the flag of one source
      column `d` marks `d`: the new flag when `d` is `c`, an earlier one (left
      alone) otherwise. */
  lemma FlagMarkOne(df: Frame, g: Frame, c: string, d: string, suffix: string, present: bool)
    requires WellFormed(df) && WellFormed(g) && Unique(g.columns, c) && |g.rows| == |df.rows|
    requires d == c ==> (
      && c in df.columns && AtMostOnce(df.columns, c)
      && (Spreads(g, c + suffix) <==> Spreads(df, c + suffix))
      && forall i :: 0 <= i < |df.rows| ==> At(g, c, i) == At(df, c, i))
    requires d != c ==> (
      && d + suffix in g.columns && d in df.columns
      && forall i :: 0 <= i < |df.rows| ==>
           At(g, d + suffix, i) == Mark(At(df, d, FlagRow(df, d, suffix, i)), present))
    ensures var h := SetColumn(g, c + suffix, NullMarks(GetColumn(g, c).value, present));
      && d + suffix in h.columns
      && forall i :: 0 <= i < |df.rows| ==>
           At(h, d + suffix, i) == Mark(At(df, d, FlagRow(df, d, suffix, i)), present)
  {
    var column := GetColumn(g, c).value;
    var marks := NullMarks(column, present);
    SetColumnAt(g, c + suffix, marks, d + suffix);
    if d != c && d + suffix == c + suffix {
      AppendCancel(d, c, suffix);
    }
    if d == c {
      forall i | 0 <= i < |df.rows|
        ensures marks[SeriesRow(g, c + suffix, 0, i)] == Mark(At(df, c, FlagRow(df, c, suffix, i)), present)
      {
        var k := SeriesRow(g, c + suffix, 0, i);
        assert k == FlagRow(df, c, suffix, i);
        assert column[k] == At(g, c, k);
      }
    }
  }

  /** After the pass over a source `c` that occurs once, every flag written
      so far reads as before and the new one marks `c`. */
  lemma FlagMarks(df: Frame, g: Frame, init: seq<string>, c: string, suffix: string, present: bool)
    requires WellFormed(df) && WellFormed(g)
    requires forall x, y :: x in init + [c] && y in init + [c] ==> x != y + suffix
    requires FlagsDone(df, g, init, suffix, present)
    requires Unique(df.columns, c)
    ensures Unique(g.columns, c)
    ensures var h := SetColumn(g, c + suffix, NullMarks(GetColumn(g, c).value, present));
      && (forall d :: d in init + [c] ==> d + suffix in h.columns)
      && forall d, i :: d in init + [c] && 0 <= i < |df.rows| ==>
           At(h, d + suffix, i) == Mark(At(df, d, FlagRow(df, d, suffix, i)), present)
  {
    var cols := init + [c];
    assert forall d :: d in init ==> c != d + suffix by {
      forall d | d in init
        ensures c != d + suffix
      {
        assert c in cols && d in cols;
      }
    }
    FlagSource(df, g, init, c, suffix, present);
    var h := SetColumn(g, c + suffix, NullMarks(GetColumn(g, c).value, present));
    forall d | d in cols
      ensures d + suffix in h.columns
      ensures forall i :: 0 <= i < |df.rows| ==>
        At(h, d + suffix, i) == Mark(At(df, d, FlagRow(df, d, suffix, i)), present)
    {
      FlagMarkOne(df, g, c, d, suffix, present);
    }
  }

  /** One more flag assignment extends the column list and the untouched
      cells by its name. */
  lemma FlagColumnsStep(df: Frame, g: Frame, h: Frame, init: seq<string>, c: string, suffix: string)
    requires WellFormed(df) && WellFormed(g) && WellFormed(h)
    requires g.columns == AddNames(df.columns, FlagNames(init, suffix))
    requires Keeps(df, g, FlagNames(init, suffix))
    requires h.columns == AddName(g.columns, c + suffix) && Keeps(g, h, [c + suffix])
    ensures h.columns == AddNames(df.columns, FlagNames(init + [c], suffix))
    ensures Keeps(df, h, FlagNames(init + [c], suffix))
  {
    var names := FlagNames(init + [c], suffix);
    assert FlagNames(init, suffix) == names[..|init|];
    assert names == FlagNames(init, suffix) + [c + suffix];
    KeepsWiden(df, g, FlagNames(init, suffix), names);
    KeepsWiden(g, h, [c + suffix], names);
    KeepsTransitive(df, g, h, names);
  }

  /** A pass over a source column that occurs once extends `FlagsDone` by it. */
  lemma FlagStepDone(df: Frame, g: Frame, init: seq<string>, c: string, suffix: string, present: bool)
    requires WellFormed(df) && WellFormed(g)
    requires forall x, y :: x in init + [c] && y in init + [c] ==> x != y + suffix
    requires FlagsDone(df, g, init, suffix, present)
    requires Unique(df.columns, c)
    ensures var r := FlagOne(g, c, suffix, present);
      r.Success? && FlagsDone(df, r.value, init + [c], suffix, present)
  {
    FlagMarks(df, g, init, c, suffix, present);
    var marks := NullMarks(GetColumn(g, c).value, present);
    var h := SetColumn(g, c + suffix, marks);
    assert FlagOne(g, c, suffix, present) == Success(h);
    SetColumnKeeps(g, c + suffix, marks, [c + suffix]);
    FlagColumnsStep(df, g, h, init, c, suffix);
    assert forall d :: d in init + [c] ==> FlagReady(df.columns, d, d + suffix);
  }

  /** A pass over a duplicated source that has as many flag columns: the
      column list stays, only the flag columns change, the first of them
      marks the first source column, and every other name reads as before. */
  lemma FlagOneColumns(g: Frame, c: string, suffix: string, present: bool)
    requires WellFormed(g) && c in g.columns && !AtMostOnce(g.columns, c)
    requires Count(g.columns, c) == Count(g.columns, c + suffix)
    ensures var r := FlagOne(g, c, suffix, present);
      && r.Success? && r.value.columns == g.columns && Keeps(g, r.value, [c + suffix])
      && (forall i :: 0 <= i < |g.rows| ==> At(r.value, c + suffix, i) == Mark(At(g, c, i), present))
      && forall n, i :: n != c + suffix && n in g.columns && 0 <= i < |g.rows| ==> At(r.value, n, i) == At(g, n, i)
  {
    var flag := c + suffix;
    CountOnce(g.columns, c);
    CountOnce(g.columns, flag);
    var sub := Select(g, c).value.sub;
    var marks := NullMarksOf(Columns(sub), present).sub;
    var h := SetColumns(g, flag, marks);
    assert FlagOne(g, c, suffix, present) == Success(h);
    SelectCells(g, c);
    SetColumnsCells(g, flag, marks);
    FirstOccurrence(g.columns, c);
    FirstOccurrence(g.columns, flag);
    forall i | 0 <= i < |g.rows|
      ensures At(h, flag, i) == Mark(At(g, c, i), present)
    {
      assert marks.rows[i][0] == Mark(sub.rows[i][0], present);
    }
  }

  /** A pass over a duplicated source writes its sub-frame of marks into as
      many flag columns; the first flag column marks the first source column,
      so `FlagsDone` extends by it. */
  lemma FlagStepColumns(df: Frame, g: Frame, init: seq<string>, c: string, suffix: string, present: bool)
    requires WellFormed(df) && WellFormed(g)
    requires forall x, y :: x in init + [c] && y in init + [c] ==> x != y + suffix
    requires FlagsDone(df, g, init, suffix, present)
    requires FlagReady(df.columns, c, c + suffix) && !AtMostOnce(df.columns, c)
    ensures var r := FlagOne(g, c, suffix, present);
      r.Success? && FlagsDone(df, r.value, init + [c], suffix, present)
  {
    var cols := init + [c];
    assert forall d :: d in init ==> c != d + suffix by {
      forall d | d in init
        ensures c != d + suffix
      {
        assert c in cols && d in cols;
      }
    }
    FlagSource(df, g, init, c, suffix, present);
    FlagOneColumns(g, c, suffix, present);
    var h := FlagOne(g, c, suffix, present).value;
    FlagColumnsStep(df, g, h, init, c, suffix);
    CountOnce(g.columns, c + suffix);
    FlagColumnsMarks(df, g, h, init, c, suffix, present);
    assert forall d :: d in cols ==> FlagReady(df.columns, d, d + suffix);
  }

  /** After a pass that rewrites only the flag columns of `c`, the first of
      them marking `c`, every flag written so far reads as before and the
      flag of `c` marks `c`. */
  lemma FlagColumnsMarks(df: Frame, g: Frame, h: Frame, init: seq<string>, c: string, suffix: string, present: bool)
    requires WellFormed(df) && WellFormed(g) && WellFormed(h)
    requires FlagsDone(df, g, init, suffix, present)
    requires |g.rows| == |df.rows| && |h.rows| == |g.rows| && c in df.columns && !AtMostOnce(df.columns, c)
    requires h.columns == g.columns && c + suffix in g.columns
    requires forall i :: 0 <= i < |g.rows| ==> At(g, c, i) == At(df, c, i)
    requires forall i :: 0 <= i < |g.rows| ==> At(h, c + suffix, i) == Mark(At(g, c, i), present)
    requires forall n, i :: n != c + suffix && n in g.columns && 0 <= i < |g.rows| ==> At(h, n, i) == At(g, n, i)
    ensures forall d :: d in init + [c] ==> d + suffix in h.columns
    ensures forall d, i :: d in init + [c] && 0 <= i < |df.rows| ==>
      At(h, d + suffix, i) == Mark(At(df, d, FlagRow(df, d, suffix, i)), present)
  {
    forall d, i | d in init + [c] && 0 <= i < |df.rows|
      ensures At(h, d + suffix, i) == Mark(At(df, d, FlagRow(df, d, suffix, i)), present)
    {
      if d + suffix == c + suffix {
        AppendCancel(d, c, suffix);
      }
    }
  }

  /** One more pass of the flag loop, over column `c`, keeps `FlagsDone`, and
      fails exactly when `c` is missing, or duplicated without as many flag
      columns to receive its marks. */
  lemma FlagStep(df: Frame, g: Frame, init: seq<string>, c: string, suffix: string, present: bool)
    requires WellFormed(df) && WellFormed(g)
    requires forall x, y :: x in init + [c] && y in init + [c] ==> x != y + suffix
    requires FlagsDone(df, g, init, suffix, present)
    ensures var r := FlagOne(g, c, suffix, present);
      && (r.Success? <==> FlagReady(df.columns, c, c + suffix))
      && (r.Success? ==> FlagsDone(df, r.value, init + [c], suffix, present))
  {
    assert forall d :: d in init ==> c != d + suffix by {
      forall d | d in init
        ensures c != d + suffix
      {
        assert c in init + [c] && d in init + [c];
      }
    }
    FlagSource(df, g, init, c, suffix, present);
    if Unique(df.columns, c) {
      FlagStepDone(df, g, init, c, suffix, present);
    } else if FlagReady(df.columns, c, c + suffix) {
      FlagStepColumns(df, g, init, c, suffix, present);
    } else if c in df.columns {
      CountOnce(g.columns, c);
    }
  }

  /** A flag loop over source columns none of which is itself a flag name
      succeeds exactly when every source column is present and, where it is
      duplicated, its flag name occurs as often; it then assigns the flag
      columns in order, leaves every other cell alone, and sets the first
      column of each flag to the presence (or absence) of the first source
      value in row `FlagRow`. */
  lemma {:induction false} FlaggedSpec(df: Frame, cols: seq<string>, suffix: string, present: bool)
    requires WellFormed(df)
    requires forall c, d :: c in cols && d in cols ==> c != d + suffix
    ensures var r := Flagged(df, cols, suffix, present);
      && (r.Success? <==> forall c :: c in cols ==> FlagReady(df.columns, c, c + suffix))
      && (r.Success? ==> FlagsDone(df, r.value, cols, suffix, present))
    decreases |cols|
  {
    if cols == [] {
      assert Keeps(df, df, []);
      return;
    }
    var n := |cols| - 1;
    var init, c := cols[..n], cols[n];
    assert cols == init + [c];
    assert forall x :: x in init ==> x in cols;
    FlaggedSpec(df, init, suffix, present);
    var prev := Flagged(df, init, suffix, present);
    if prev.Failure? {
      return;
    }
    FlagStep(df, prev.value, init, c, suffix, present);
    assert Flagged(df, cols, suffix, present) == FlagOne(prev.value, c, suffix, present);
  }

  /** One pass of a flag loop on its own: it raises exactly when the source
      is missing, or duplicated without as many flag columns; it assigns the
      flag name and leaves every other cell alone; a source that occurs once
      is marked in every column of the flag name (spread over them when the flag
      name spreads), and the m-th column of a duplicated source is marked in
      the m-th flag column. */
  lemma FlagOnePairs(df: Frame, col: string, suffix: string, present: bool)
    requires WellFormed(df)
    ensures var r := FlagOne(df, col, suffix, present);
      && (r.Success? <==> FlagReady(df.columns, col, col + suffix))
      && (r.Success? ==>
            && r.value.columns == AddName(df.columns, col + suffix)
            && Keeps(df, r.value, [col + suffix])
            && (AtMostOnce(df.columns, col) ==>
                  forall i, j :: 0 <= i < |df.rows| && 0 <= j < |r.value.columns| && r.value.columns[j] == col + suffix ==>
                    r.value.rows[i][j] ==
                    Mark(At(df, col, SeriesRow(df, col + suffix, Rank(r.value.columns, col + suffix, j), i)), present))
            && (!AtMostOnce(df.columns, col) ==>
                  Count(df.columns, col + suffix) == Count(df.columns, col) &&
                  forall i, m :: 0 <= i < |df.rows| && 0 <= m < Count(df.columns, col) ==>
                    r.value.rows[i][Occurrences(df.columns, col + suffix)[m]] ==
                    Mark(df.rows[i][Occurrences(df.columns, col)[m]], present)))
  {
    var r := FlagOne(df, col, suffix, present);
    var flag := col + suffix;
    if col !in df.columns {
      return;
    }
    CountOnce(df.columns, col);
    CountOnce(df.columns, flag);
    if AtMostOnce(df.columns, col) {
      FlagOneSeries(df, col, suffix, present);
    } else if r.Success? {
      var sub := Select(df, col).value.sub;
      var marks := NullMarksOf(Columns(sub), present).sub;
      SelectCells(df, col);
      SetColumnsCells(df, flag, marks);
      assert r == Success(SetColumns(df, flag, marks));
    }
  }

  /** The pass over a source that occurs once assigns the Series of its
      marks: every column of the flag name receives them, by `SeriesRow`. */
  lemma FlagOneSeries(df: Frame, col: string, suffix: string, present: bool)
    requires WellFormed(df) && col in df.columns && AtMostOnce(df.columns, col)
    ensures var r := FlagOne(df, col, suffix, present);
      && r.Success?
      && r.value.columns == AddName(df.columns, col + suffix)
      && Keeps(df, r.value, [col + suffix])
      && forall i, j :: 0 <= i < |df.rows| && 0 <= j < |r.value.columns| && r.value.columns[j] == col + suffix ==>
           r.value.rows[i][j] ==
           Mark(At(df, col, SeriesRow(df, col + suffix, Rank(r.value.columns, col + suffix, j), i)), present)
  {
    var flag := col + suffix;
    CountOnce(df.columns, col);
    var column := GetColumn(df, col).value;
    var marks := NullMarks(column, present);
    var h := SetColumn(df, flag, marks);
    assert FlagOne(df, col, suffix, present) == Success(h);
    SetColumnCells(df, flag, marks);
    SetColumnKeeps(df, flag, marks, [flag]);
    forall i, j | 0 <= i < |df.rows| && 0 <= j < |h.columns| && h.columns[j] == flag
      ensures h.rows[i][j] == Mark(At(df, col, SeriesRow(df, flag, Rank(h.columns, flag, j), i)), present)
    {
      var k := SeriesRow(df, flag, Rank(h.columns, flag, j), i);
      assert h.rows[i][j] == marks[k];
      assert column[k] == At(df, col, k);
    }
  }

  const CancelledFlagNames: seq<string> := ["cancelled_rides_by_driver_flag", "cancelled_rides_by_customer_flag", "incomplete_rides_flag"]

  const MissingFlagNames: seq<string> :=
    ["driver_ratings_missing_flag", "customer_rating_missing_flag", "booking_value_missing_flag", "payment_method_missing_flag"]

  lemma CancelledNamesEqual()
    ensures FlagNames(CancelledColumns, "_flag") == CancelledFlagNames
  {
    var r := FlagNames(CancelledColumns, "_flag");
    assert r[0] == CancelledFlagNames[0];
    assert r[1] == CancelledFlagNames[1];
    assert r[2] == CancelledFlagNames[2];
  }

  lemma CancelledNamesDistinct()
    ensures Distinct(CancelledFlagNames)
  {
  }

  lemma CancelledNamesApart()
    ensures forall c, d :: c in CancelledColumns && d in CancelledColumns ==> c != d + "_flag"
  {
  }

  /** The names `cancelled_to_flag` writes: each source name with the suffix, distinct,
      and none of them a source column. */
  lemma CancelledNames()
    ensures FlagNames(CancelledColumns, "_flag") == CancelledFlagNames
    ensures Distinct(CancelledFlagNames)
    ensures forall c, d :: c in CancelledColumns && d in CancelledColumns ==> c != d + "_flag"
  {
    CancelledNamesEqual();
    CancelledNamesDistinct();
    CancelledNamesApart();
  }

  lemma MissingNamesEqual()
    ensures FlagNames(MissingColumns, "_missing_flag") == MissingFlagNames
  {
    var r := FlagNames(MissingColumns, "_missing_flag");
    assert r[0] == MissingFlagNames[0];
    assert r[1] == MissingFlagNames[1];
    assert r[2] == MissingFlagNames[2];
    assert r[3] == MissingFlagNames[3];
  }

  lemma MissingNamesDistinct()
    ensures Distinct(MissingFlagNames)
  {
  }

  lemma MissingNamesApart()
    ensures forall c, d :: c in MissingColumns && d in MissingColumns ==> c != d + "_missing_flag"
  {
  }

  /** The names `missing_to_flag` writes: each source name with the suffix, distinct,
      and none of them a source column. */
  lemma MissingNames()
    ensures FlagNames(MissingColumns, "_missing_flag") == MissingFlagNames
    ensures Distinct(MissingFlagNames)
    ensures forall c, d :: c in MissingColumns && d in MissingColumns ==> c != d + "_missing_flag"
  {
    MissingNamesEqual();
    MissingNamesDistinct();
    MissingNamesApart();
  }

  /** A flag loop over sources that are not flag names, writing distinct flag
      names: it fails exactly when a source column is missing, or duplicated
      without its flag name occurring as often; otherwise it appends the flag columns (or overwrites those already
      there), exactly the flag columns when none was there, keeps every other
      cell, and flag `k` of row `i` marks source `k` of row `FlagRow`. */
  lemma FlaggedColumns(df: Frame, cols: seq<string>, suffix: string, present: bool, names: seq<string>)
    requires WellFormed(df)
    requires names == FlagNames(cols, suffix)
    requires forall c, d :: c in cols && d in cols ==> c != d + suffix
    requires Distinct(names)
    ensures var r := Flagged(df, cols, suffix, present);
      && (r.Success? <==> forall k :: 0 <= k < |cols| ==> FlagReady(df.columns, cols[k], names[k]))
      && (r.Success? ==>
            && WellFormed(r.value)
            && r.value.columns == AddNames(df.columns, names)
            && ((forall n :: n in names ==> n !in df.columns) ==> r.value.columns == df.columns + names)
            && Keeps(df, r.value, names)
            && (forall k :: 0 <= k < |cols| ==> names[k] in r.value.columns && cols[k] in df.columns)
            && forall k, i :: 0 <= k < |cols| && 0 <= i < |df.rows| ==>
                 At(r.value, names[k], i) == Mark(At(df, cols[k], FlagRow(df, cols[k], suffix, i)), present))
  {
    FlaggedSpec(df, cols, suffix, present);
    var r := Flagged(df, cols, suffix, present);
    assert (forall c :: c in cols ==> FlagReady(df.columns, c, c + suffix)) <==>
           (forall k :: 0 <= k < |cols| ==> FlagReady(df.columns, cols[k], names[k]));
    if r.Success? {
      if forall n :: n in names ==> n !in df.columns {
        AddNamesFresh(df.columns, names);
      }
      forall k | 0 <= k < |cols|
        ensures names[k] in r.value.columns && cols[k] in df.columns
      {
        assert cols[k] in cols;
      }
      forall k, i | 0 <= k < |cols| && 0 <= i < |df.rows|
        ensures At(r.value, names[k], i) == Mark(At(df, cols[k], FlagRow(df, cols[k], suffix, i)), present)
      {
        assert cols[k] in cols;
      }
    }
  }

  /** Flagging by presence, stated cell by cell. */
  lemma PresenceFlags(df: Frame, cols: seq<string>, suffix: string, names: seq<string>)
    requires WellFormed(df)
    requires names == FlagNames(cols, suffix)
    requires forall c, d :: c in cols && d in cols ==> c != d + suffix
    requires Distinct(names)
    ensures var r := Flagged(df, cols, suffix, true);
      && (r.Success? <==> forall k :: 0 <= k < |cols| ==> FlagReady(df.columns, cols[k], names[k]))
      && (r.Success? ==>
            && WellFormed(r.value)
            && r.value.columns == AddNames(df.columns, names)
            && ((forall n :: n in names ==> n !in df.columns) ==> r.value.columns == df.columns + names)
            && Keeps(df, r.value, names)
            && (forall k :: 0 <= k < |cols| ==> names[k] in r.value.columns && cols[k] in df.columns)
            && forall k, i :: 0 <= k < |cols| && 0 <= i < |df.rows| ==>
                 At(r.value, names[k], i) == Some(Bool(At(df, cols[k], FlagRow(df, cols[k], suffix, i)).Some?)))
  {
    FlaggedColumns(df, cols, suffix, true, names);
  }

  /** Flagging by absence, stated cell by cell. */
  lemma AbsenceFlags(df: Frame, cols: seq<string>, suffix: string, names: seq<string>)
    requires WellFormed(df)
    requires names == FlagNames(cols, suffix)
    requires forall c, d :: c in cols && d in cols ==> c != d + suffix
    requires Distinct(names)
    ensures var r := Flagged(df, cols, suffix, false);
      && (r.Success? <==> forall k :: 0 <= k < |cols| ==> FlagReady(df.columns, cols[k], names[k]))
      && (r.Success? ==>
            && WellFormed(r.value)
            && r.value.columns == AddNames(df.columns, names)
            && ((forall n :: n in names ==> n !in df.columns) ==> r.value.columns == df.columns + names)
            && Keeps(df, r.value, names)
            && (forall k :: 0 <= k < |cols| ==> names[k] in r.value.columns && cols[k] in df.columns)
            && forall k, i :: 0 <= k < |cols| && 0 <= i < |df.rows| ==>
                 At(r.value, names[k], i) == Some(Bool(At(df, cols[k], FlagRow(df, cols[k], suffix, i)).None?)))
  {
    FlaggedColumns(df, cols, suffix, false, names);
  }

  /** `cancelled_to_flag` succeeds exactly when each of its three columns is
      present and, where duplicated, its `_flag` name occurs as often; it then
      sets each (first) `_flag` column to whether its source
      value is present, and changes nothing else. */
  lemma CancelledFlags(df: Frame)
    requires WellFormed(df)
    ensures var r := Flagged(df, CancelledColumns, "_flag", true);
      && (r.Success? <==> forall k :: 0 <= k < |CancelledColumns| ==>
            FlagReady(df.columns, CancelledColumns[k], CancelledFlagNames[k]))
      && (r.Success? ==>
            && WellFormed(r.value)
            && r.value.columns == AddNames(df.columns, CancelledFlagNames)
            && ((forall n :: n in CancelledFlagNames ==> n !in df.columns) ==>
                  r.value.columns == df.columns + CancelledFlagNames)
            && Keeps(df, r.value, CancelledFlagNames)
            && (forall k :: 0 <= k < |CancelledColumns| ==> CancelledFlagNames[k] in r.value.columns && CancelledColumns[k] in df.columns)
            && forall k, i :: 0 <= k < |CancelledColumns| && 0 <= i < |df.rows| ==>
                 At(r.value, CancelledFlagNames[k], i) == Some(Bool(At(df, CancelledColumns[k], FlagRow(df, CancelledColumns[k], "_flag", i)).Some?)))
  {
    CancelledNames();
    PresenceFlags(df, CancelledColumns, "_flag", CancelledFlagNames);
  }

  /** `missing_to_flag` succeeds exactly when each of its four columns is
      present and, where duplicated, its `_missing_flag` name occurs as often;
      it then sets each (first) `_missing_flag` column to whether its source
      value is missing, and changes nothing else. */
  lemma MissingFlags(df: Frame)
    requires WellFormed(df)
    ensures var r := Flagged(df, MissingColumns, "_missing_flag", false);
      && (r.Success? <==> forall k :: 0 <= k < |MissingColumns| ==>
            FlagReady(df.columns, MissingColumns[k], MissingFlagNames[k]))
      && (r.Success? ==>
            && WellFormed(r.value)
            && r.value.columns == AddNames(df.columns, MissingFlagNames)
            && ((forall n :: n in MissingFlagNames ==> n !in df.columns) ==>
                  r.value.columns == df.columns + MissingFlagNames)
            && Keeps(df, r.value, MissingFlagNames)
            && (forall k :: 0 <= k < |MissingColumns| ==> MissingFlagNames[k] in r.value.columns && MissingColumns[k] in df.columns)
            && forall k, i :: 0 <= k < |MissingColumns| && 0 <= i < |df.rows| ==>
                 At(r.value, MissingFlagNames[k], i) == Some(Bool(At(df, MissingColumns[k], FlagRow(df, MissingColumns[k], "_missing_flag", i)).None?)))
  {
    MissingNames();
    AbsenceFlags(df, MissingColumns, "_missing_flag", MissingFlagNames);
  }

  /** `cancelled_to_flag`: the loop over the three columns on a copy. */
  method CancelledToFlag(df: Frame) returns (r: Result<Frame, Error>)
    requires WellFormed(df)
    ensures r == Flagged(df, CancelledColumns, "_flag", true)
  {
    var newDf := df;
    var columnsToFlag := CancelledColumns;
    for k := 0 to |columnsToFlag|
      invariant Flagged(df, columnsToFlag[..k], "_flag", true) == Success(newDf)
    {
      var col := columnsToFlag[k];
      var flagCol := col + "_flag";
      FlaggedNext(df, columnsToFlag, k, "_flag", true, newDf);
      FlaggedPrefix(df, columnsToFlag, k + 1, "_flag", true);
      var values :- Select(newDf, col);
      newDf :- Assign(newDf, flagCol, NullMarksOf(values, true));
    }
    assert columnsToFlag[..|columnsToFlag|] == columnsToFlag;
    return Success(newDf);
  }

  /** `missing_to_flag`: the loop over the four columns on a copy. */
  method MissingToFlag(df: Frame) returns (r: Result<Frame, Error>)
    requires WellFormed(df)
    ensures r == Flagged(df, MissingColumns, "_missing_flag", false)
  {
    var newDf := df;
    var columnsToFlag := MissingColumns;
    for k := 0 to |columnsToFlag|
      invariant Flagged(df, columnsToFlag[..k], "_missing_flag", false) == Success(newDf)
    {
      var col := columnsToFlag[k];
      var flagCol := col + "_missing_flag";
      FlaggedNext(df, columnsToFlag, k, "_missing_flag", false, newDf);
      FlaggedPrefix(df, columnsToFlag, k + 1, "_missing_flag", false);
      var values :- Select(newDf, col);
      newDf :- Assign(newDf, flagCol, NullMarksOf(values, false));
    }
    assert columnsToFlag[..|columnsToFlag|] == columnsToFlag;
    return Success(newDf);
  }

  // ---------------------------------------------------------------------
  // transform_to_silver

  /** What the abstract `cast_to_dtypes` step is trusted to do: a successful
      cast keeps the table rectangular and keeps the number of rows. */
  ghost predicate ShapePreserving(cast: Frame -> Result<Frame, Error>) {
    forall f :: WellFormed(f) && cast(f).Success? ==>
      WellFormed(cast(f).value) && |cast(f).value.rows| == |f.rows|
  }

  /** The five steps of `transform_to_silver`, in order; the first failing step
      decides the outcome. */
  function Silver(bronze: Frame, cast: Frame -> Result<Frame, Error>, cal: int -> DateParts): (r: Result<Frame, Error>)
    requires WellFormed(bronze) && ShapePreserving(cast)
    ensures r.Success? ==> WellFormed(r.value) && |r.value.rows| == |bronze.rows|
  {
    var typed :- cast(RenameColumns(bronze));
    var temporal :- ExtractTemporalFeatures(typed, cal);
    var flagged :- Flagged(temporal, CancelledColumns, "_flag", true);
    Flagged(flagged, MissingColumns, "_missing_flag", false)
  }

  /** Every column name the silver steps after the cast may write. */
  const SilverColumns: seq<string> := TemporalColumns + CancelledFlagNames + MissingFlagNames

  /** A successful `transform_to_silver` keeps the rows of the typed table:
      its columns come first and in order, followed by the temporal columns
      and the seven flags (those not already there), and no cell outside the
      columns the silver steps write is changed. */
  lemma SilverShape(bronze: Frame, cast: Frame -> Result<Frame, Error>, cal: int -> DateParts)
    requires WellFormed(bronze) && ShapePreserving(cast)
    ensures var r := Silver(bronze, cast, cal);
      r.Success? ==>
        && cast(RenameColumns(bronze)).Success?
        && var typed := cast(RenameColumns(bronze)).value;
        && WellFormed(typed) && WellFormed(r.value)
        && |r.value.rows| == |bronze.rows|
        && r.value.columns ==
             AddNames(AddNames(AddNames(typed.columns, TemporalColumns), CancelledFlagNames), MissingFlagNames)
        && HasTemporalColumns(r.value.columns)
        && (forall n :: n in CancelledFlagNames + MissingFlagNames ==> n in r.value.columns)
        && Keeps(typed, r.value, SilverColumns)
  {
    var r := Silver(bronze, cast, cal);
    if r.Failure? {
      return;
    }
    var typed := cast(RenameColumns(bronze)).value;
    TemporalFeatures(typed, cal);
    var temporal := ExtractTemporalFeatures(typed, cal).value;
    CancelledFlags(temporal);
    var flagged := Flagged(temporal, CancelledColumns, "_flag", true).value;
    MissingFlags(flagged);
    assert r == Flagged(flagged, MissingColumns, "_missing_flag", false);
    AddNamesMembers(temporal.columns, CancelledFlagNames);
    AddNamesMembers(flagged.columns, MissingFlagNames);
    var all := SilverColumns;
    KeepsWiden(typed, temporal, TemporalColumns, all);
    KeepsWiden(temporal, flagged, CancelledFlagNames, all);
    KeepsWiden(flagged, r.value, MissingFlagNames, all);
    KeepsTransitive(typed, temporal, flagged, all);
    KeepsTransitive(typed, flagged, r.value, all);
  }

  /** `transform_to_silver`: `silver_df` rebound by each step in turn. */
  method TransformToSilver(bronze: Frame, cast: Frame -> Result<Frame, Error>, cal: int -> DateParts)
    returns (r: Result<Frame, Error>)
    requires WellFormed(bronze) && ShapePreserving(cast)
    ensures r == Silver(bronze, cast, cal)
  {
    var silver := RenameColumns(bronze);
    silver :- cast(silver);
    silver :- ExtractTemporalFeatures(silver, cal);
    silver :- CancelledToFlag(silver);
    silver :- MissingToFlag(silver);
    return Success(silver);
  }
}
