/** The time-range read of the raw ride-booking file: a helper `datetime`
    column is built from the `Date` and `Time` columns, the rows are kept when
    their timestamp lies within the optional inclusive bounds, and the helper
    column is dropped again. */
module Dataset {
  import opened Wrappers
  import opened Frames

  // ---------------------------------------------------------------------
  // df["datetime"] = pd.to_datetime(df["Date"] + " " + df["Time"], format=...)

  /** A cell `+ " "` accepts: a string, or a missing value that stays missing. */
  predicate Concatenable(c: Cell) {
    c.None? || c.value.Text?
  }

  /** Every cell of the column is one `+ " "` accepts. */
  predicate AllConcatenable(col: seq<Cell>) {
    forall i :: 0 <= i < |col| ==> Concatenable(col[i])
  }

  /** A `Time` cell the second `+` accepts beside the date cell `d`.  When the
      element-wise add raises, pandas' object `+` retries on the rows where
      both sides are present and leaves the others missing, so only those rows
      need a string. */
  predicate TimeJoins(d: Cell, t: Cell) {
    d.None? || Concatenable(t)
  }

  /** Every row's `Time` cell is one the second `+` accepts. */
  predicate AllTimesJoin(dates: seq<Cell>, times: seq<Cell>)
    requires |dates| == |times|
  {
    forall i :: 0 <= i < |dates| ==> TimeJoins(dates[i], times[i])
  }

  /** One cell of `df["Date"] + " " + df["Time"]`: missing if either part is. */
  function Joined(d: Cell, t: Cell): Option<string>
    requires Concatenable(d) && TimeJoins(d, t)
  {
    if d.None? || t.None? then None else Some(d.value.s + " " + t.value.s)
  }

  /** Every joined string of the two columns matches the format. */
  predicate AllParse(dates: seq<Cell>, times: seq<Cell>, parse: string -> Option<int>)
    requires |dates| == |times| && AllConcatenable(dates) && AllTimesJoin(dates, times)
  {
    forall i :: 0 <= i < |dates| && Joined(dates[i], times[i]).Some? ==> parse(Joined(dates[i], times[i]).value).Some?
  }

  /** The timestamp a row gets: NaT for a missing part, else the parsed time. */
  function StampOf(d: Cell, t: Cell, parse: string -> Option<int>): Cell
    requires Concatenable(d) && TimeJoins(d, t)
    requires Joined(d, t).Some? ==> parse(Joined(d, t).value).Some?
  {
    var j := Joined(d, t);
    if j.None? then None else Some(Stamp(parse(j.value).value))
  }

  /** `pd.to_datetime(joined, format=...)`, which raises on the first string
      that does not match and turns a missing value into NaT. */
  function ParseAll(dates: seq<Cell>, times: seq<Cell>, parse: string -> Option<int>): (r: Result<seq<Cell>, Error>)
    requires |dates| == |times| && AllConcatenable(dates) && AllTimesJoin(dates, times)
    ensures r.Success? <==> AllParse(dates, times, parse)
    ensures r.Failure? ==> r.error == ParseError
    ensures r.Success? ==> |r.value| == |dates| && IsDatetimeColumn(r.value)
    ensures r.Success? ==> forall i :: 0 <= i < |dates| ==> r.value[i] == StampOf(dates[i], times[i], parse)
    decreases |dates|
  {
    if dates == [] then Success([])
    else
      var n := |dates| - 1;
      var init :- ParseAll(dates[..n], times[..n], parse);
      var j := Joined(dates[n], times[n]);
      if j.None? then Success(init + [None])
      else if parse(j.value).None? then Failure(ParseError)
      else Success(init + [Some(Stamp(parse(j.value).value))])
  }

  /** The helper column, in the order Python evaluates the expression: `Date`
      is read and concatenated first, then `Time`, then the result is parsed. */
  function DatetimeColumn(raw: Frame, parse: string -> Option<int>): (r: Result<seq<Cell>, Error>)
    requires WellFormed(raw)
    ensures r.Success? ==> |r.value| == |raw.rows| && IsDatetimeColumn(r.value)
  {
    var dates :- GetColumn(raw, "Date");
    if !AllConcatenable(dates) then Failure(ConcatTypeError)
    else
      var times :- GetColumn(raw, "Time");
      if !AllTimesJoin(dates, times) then Failure(ConcatTypeError)
      else ParseAll(dates, times, parse)
  }

  /** Building the helper column fails exactly when `Date` or `Time` is
      missing or duplicated, `Date` holds a non-string value, `Time` holds one
      on a row whose date is present, or a joined string is one the format
      rejects; otherwise row `i` gets the timestamp of its own date and
      time, NaT when either is missing. */
  lemma DatetimeColumnSpec(raw: Frame, parse: string -> Option<int>)
    requires WellFormed(raw)
    ensures var r := DatetimeColumn(raw, parse);
      && (r.Success? <==>
            && Unique(raw.columns, "Date") && Unique(raw.columns, "Time")
            && AllConcatenable(GetColumn(raw, "Date").value)
            && AllTimesJoin(GetColumn(raw, "Date").value, GetColumn(raw, "Time").value)
            && AllParse(GetColumn(raw, "Date").value, GetColumn(raw, "Time").value, parse))
      && ("Date" !in raw.columns ==> r == Failure(KeyError("Date")))
      && (r.Success? ==> forall i :: 0 <= i < |raw.rows| ==>
            r.value[i] == StampOf(At(raw, "Date", i), At(raw, "Time", i), parse))
  {
    var r := DatetimeColumn(raw, parse);
    if r.Success? {
      var dates := GetColumn(raw, "Date").value;
      var times := GetColumn(raw, "Time").value;
      forall i | 0 <= i < |raw.rows|
        ensures r.value[i] == StampOf(At(raw, "Date", i), At(raw, "Time", i), parse)
      {
        assert dates[i] == At(raw, "Date", i) && times[i] == At(raw, "Time", i);
      }
    }
  }

  /** A number in `Time` beside a missing `Date` is masked by the second `+`:
      both rows get NaT and nothing raises. */
  lemma MaskedTime(parse: string -> Option<int>)
    ensures DatetimeColumn(Frame(["Date", "Time"], [[Some(Text("2024-01-01")), None], [None, Some(Int(5))]]), parse)
      == Success([None, None])
  {
    var raw := Frame(["Date", "Time"], [[Some(Text("2024-01-01")), None], [None, Some(Int(5))]]);
    assert Unique(raw.columns, "Date") && Unique(raw.columns, "Time");
    assert IndexOf(raw.columns, "Date") == 0 && IndexOf(raw.columns, "Time") == 1;
    var dates := GetColumn(raw, "Date").value;
    var times := GetColumn(raw, "Time").value;
    assert dates == [Some(Text("2024-01-01")), None];
    assert times == [None, Some(Int(5))];
    assert AllTimesJoin(dates, times);
    assert Joined(dates[0], times[0]).None? && Joined(dates[1], times[1]).None?;
    assert AllParse(dates, times, parse);
    var r := ParseAll(dates, times, parse);
    assert r.value[0] == StampOf(dates[0], times[0], parse) == None;
    assert r.value[1] == StampOf(dates[1], times[1], parse) == None;
    assert r.value == [None, None];
    assert ParseAll(dates, times, parse) == Success([None, None]);
  }

  // ---------------------------------------------------------------------
  // df = df[df["datetime"] >= start_datetime]; df = df[df["datetime"] <= end_datetime]

  /** The optional bounds of the read; each one that is given is inclusive. */
  datatype Window = Window(start: Option<int>, end: Option<int>)

  /** `stamp >= start` and `stamp <= end` for the bounds given; NaT compares false. */
  predicate InWindow(c: Cell, w: Window) {
    && (w.start.Some? ==> c.Some? && c.value.Stamp? && w.start.value <= c.value.t)
    && (w.end.Some? ==> c.Some? && c.value.Stamp? && c.value.t <= w.end.value)
  }

  /** The positions, in order, at which the boolean mask of `w` is true. */
  function Kept(stamps: seq<Cell>, w: Window): (idx: seq<nat>)
    ensures forall t :: 0 <= t < |idx| ==> idx[t] < |stamps| && InWindow(stamps[idx[t]], w)
    ensures forall t, u :: 0 <= t < u < |idx| ==> idx[t] < idx[u]
    decreases |stamps|
  {
    if stamps == [] then []
    else
      var n := |stamps| - 1;
      Kept(stamps[..n], w) + (if InWindow(stamps[n], w) then [n] else [])
  }

  /** A row survives the filters exactly when its timestamp lies within the bounds. */
  lemma {:induction false} KeptExactly(stamps: seq<Cell>, w: Window, i: nat)
    requires i < |stamps|
    ensures i in Kept(stamps, w) <==> InWindow(stamps[i], w)
    decreases |stamps|
  {
    var idx := Kept(stamps, w);
    if i in idx {
      var t :| 0 <= t < |idx| && idx[t] == i;
    } else {
      var n := |stamps| - 1;
      if i < n {
        KeptExactly(stamps[..n], w, i);
        assert stamps[..n][i] == stamps[i];
      }
    }
  }

  /** With neither bound given, every row is kept, in its place. */
  lemma {:induction false} KeptAll(stamps: seq<Cell>)
    ensures Kept(stamps, Window(None, None)) == seq(|stamps|, i => i)
    decreases |stamps|
  {
    if stamps != [] {
      var n := |stamps| - 1;
      KeptAll(stamps[..n]);
      assert seq(|stamps|, i => i) == seq(n, i => i) + [n];
    }
  }

  /** A start after the end keeps no row. */
  lemma KeptNone(stamps: seq<Cell>, start: int, end: int)
    requires end < start
    ensures Kept(stamps, Window(Some(start), Some(end))) == []
  {
  }

  /** Picking from a longer sequence at positions of its prefix. */
  lemma PickPrefix<T>(xs: seq<T>, x: T, p: seq<nat>)
    requires forall t :: 0 <= t < |p| ==> p[t] < |xs|
    ensures Pick(xs + [x], p) == Pick(xs, p)
  {
  }

  /** Picking one more position appends the element there. */
  lemma PickAppend<T>(xs: seq<T>, p: seq<nat>, k: nat)
    requires forall t :: 0 <= t < |p| ==> p[t] < |xs|
    requires k < |xs|
    ensures Pick(xs, p + [k]) == Pick(xs, p) + [xs[k]]
  {
  }

  /** The filter of a sequence one element longer. */
  lemma KeptSnoc(s': seq<Cell>, x: Cell, w: Window)
    ensures Kept(s' + [x], w) == Kept(s', w) + (if InWindow(x, w) then [|s'|] else [])
  {
    assert (s' + [x])[..|s'|] == s';
  }

  /** Picking, from positions extended by `n`, the positions of a selection
      that may be extended by the new last one. */
  lemma PickExtended(first: seq<nat>, n: nat, inner: seq<nat>, both: seq<nat>, b: bool)
    requires forall t :: 0 <= t < |inner| ==> inner[t] < |first|
    requires Pick(first, inner) == both
    ensures Pick(first + [n], inner + (if b then [|first|] else [])) == both + (if b then [n] else [])
  {
    assert forall t :: 0 <= t < |inner| ==> (first + [n])[inner[t]] == first[inner[t]];
  }

  /** The composition of the two filters for one more row that passes the start bound. */
  lemma ComposeAppend(s': seq<Cell>, x: Cell, start: Option<int>, end: Option<int>)
    requires InWindow(x, Window(start, None))
    requires var first' := Kept(s', Window(start, None));
      Pick(first', Kept(Pick(s', first'), Window(None, end))) == Kept(s', Window(start, end))
    ensures var stamps := s' + [x];
      var first := Kept(stamps, Window(start, None));
      Pick(first, Kept(Pick(stamps, first), Window(None, end))) == Kept(stamps, Window(start, end))
  {
    var stamps := s' + [x];
    var n := |s'|;
    var first' := Kept(s', Window(start, None));
    KeptSnoc(s', x, Window(start, None));
    PickAppend(stamps, first', n);
    PickPrefix(s', x, first');
    var before := Pick(s', first');
    assert Pick(stamps, first' + [n]) == before + [x];
    var inner' := Kept(before, Window(None, end));
    KeptSnoc(before, x, Window(None, end));
    KeptSnoc(s', x, Window(start, end));
    var b := InWindow(x, Window(None, end));
    assert b == InWindow(x, Window(start, end));
    PickExtended(first', n, inner', Kept(s', Window(start, end)), b);
  }

  /** Filtering by the start and then, on the surviving rows, by the end keeps
      the same rows as filtering once by both bounds. */
  lemma {:induction false} KeptCompose(stamps: seq<Cell>, start: Option<int>, end: Option<int>)
    ensures var first := Kept(stamps, Window(start, None));
      Pick(first, Kept(Pick(stamps, first), Window(None, end))) == Kept(stamps, Window(start, end))
    decreases |stamps|
  {
    if stamps == [] {
      return;
    }
    var n := |stamps| - 1;
    var s', x := stamps[..n], stamps[n];
    assert stamps == s' + [x];
    KeptCompose(s', start, end);
    if InWindow(x, Window(start, None)) {
      ComposeAppend(s', x, start, end);
    } else {
      var first' := Kept(s', Window(start, None));
      assert Kept(stamps, Window(start, None)) == first';
      PickPrefix(s', x, first');
      assert Kept(stamps, Window(start, end)) == Kept(s', Window(start, end));
    }
  }

  // ---------------------------------------------------------------------
  // Row selection and the helper column

  /** Selecting rows of rows already selected selects the composed positions. */
  lemma SelectTwice(f: Frame, p: seq<nat>, q: seq<nat>)
    requires forall t :: 0 <= t < |p| ==> p[t] < |f.rows|
    requires forall t :: 0 <= t < |q| ==> q[t] < |p|
    ensures SelectRows(SelectRows(f, p), q) == SelectRows(f, Pick(p, q))
  {
  }

  /** Selecting every position in order leaves the frame as it was. */
  lemma SelectAll(f: Frame)
    ensures SelectRows(f, seq(|f.rows|, i => i)) == f
  {
  }

  /** Selecting rows commutes with assigning a column to a name that occurs
      at most once (a spread depends on the number of rows). */
  lemma SelectAfterSet(g: Frame, name: string, values: seq<Cell>, idx: seq<nat>)
    requires WellFormed(g) && |values| == |g.rows| && AtMostOnce(g.columns, name)
    requires forall t :: 0 <= t < |idx| ==> idx[t] < |g.rows|
    ensures SelectRows(SetColumn(g, name, values), idx) == SetColumn(SelectRows(g, idx), name, Pick(values, idx))
  {
    var a := SelectRows(SetColumn(g, name, values), idx);
    var b := SetColumn(SelectRows(g, idx), name, Pick(values, idx));
    CountOnce(g.columns, name);
    SetColumnCells(g, name, values);
    SetColumnCells(SelectRows(g, idx), name, Pick(values, idx));
    forall t | 0 <= t < |idx|
      ensures a.rows[t] == b.rows[t]
    {
      assert |a.rows[t]| == |b.rows[t]|;
    }
  }

  /** Dropping a column that was just overwritten gives back the frame without it. */
  lemma DropAfterOverwrite(g: Frame, name: string, values: seq<Cell>)
    requires WellFormed(g) && |values| == |g.rows| && name in g.columns
    ensures DropColumn(SetColumn(g, name, values), name) == DropColumn(g, name)
  {
    var s := SetColumn(g, name, values);
    SetColumnCells(g, name, values);
    assert s.columns == g.columns;
    var p := KeptPositions(g.columns, name);
    forall i | 0 <= i < |g.rows|
      ensures Pick(s.rows[i], p) == Pick(g.rows[i], p)
    {
    }
  }

  /** Dropping a column that was just appended gives back the frame. */
  lemma DropAfterAppend(g: Frame, name: string, values: seq<Cell>)
    requires WellFormed(g) && |values| == |g.rows| && name !in g.columns
    ensures DropColumn(SetColumn(g, name, values), name) == g
  {
    var s := SetColumn(g, name, values);
    SetColumnCells(g, name, values);
    assert s.columns == g.columns + [name];
    var n := |g.columns|;
    assert s.columns[..n] == g.columns;
    KeptPositionsAll(g.columns, name);
    assert KeptPositions(s.columns, name) == KeptPositions(g.columns, name) == seq(n, j => j);
    forall i | 0 <= i < |g.rows|
      ensures Pick(s.rows[i], seq(n, j => j)) == g.rows[i]
    {
    }
  }

  /** Dropping a column that was just assigned gives back the frame without it. */
  lemma DropAfterSet(g: Frame, name: string, values: seq<Cell>)
    requires WellFormed(g) && |values| == |g.rows|
    ensures DropColumn(SetColumn(g, name, values), name) == DropColumn(g, name)
  {
    if name in g.columns {
      DropAfterOverwrite(g, name, values);
    } else {
      DropAfterAppend(g, name, values);
    }
  }

  // ---------------------------------------------------------------------
  // read_data_from_file

  /** What the read returns: the rows of the file whose timestamp lies within
      the bounds, in file order, without a `datetime` column. */
  function InRange(raw: Frame, stamps: seq<Cell>, w: Window): (r: Frame)
    requires WellFormed(raw) && |stamps| == |raw.rows|
    ensures WellFormed(r) && |r.rows| == |Kept(stamps, w)|
  {
    DropColumn(SelectRows(raw, Kept(stamps, w)), "datetime")
  }

  /** The file with its helper `datetime` column. */
  function WithStamps(raw: Frame, stamps: seq<Cell>): (r: Frame)
    requires WellFormed(raw) && |stamps| == |raw.rows|
    ensures WellFormed(r) && |r.rows| == |raw.rows|
    ensures Distinct(raw.columns) ==> Unique(r.columns, "datetime")
  {
    SetColumnAt(raw, "datetime", stamps, "datetime");
    SetColumn(raw, "datetime", stamps)
  }

  /** The helper column of a file with distinct column names reads back as the
      timestamps. */
  lemma HelperColumn(raw: Frame, stamps: seq<Cell>)
    requires WellFormed(raw) && Distinct(raw.columns) && |stamps| == |raw.rows|
    ensures GetColumn(WithStamps(raw, stamps), "datetime") == Success(stamps)
  {
    SetColumnAt(raw, "datetime", stamps, "datetime");
    CountOnce(raw.columns, "datetime");
    assert !Spreads(raw, "datetime");
    var col := GetColumn(WithStamps(raw, stamps), "datetime");
    assert col.Success?;
    assert col.value == stamps;
  }

  /** After a row selection a column reads as the selected cells of that column. */
  lemma SelectColumn(f: Frame, name: string, idx: seq<nat>)
    requires WellFormed(f) && Unique(f.columns, name)
    requires forall t :: 0 <= t < |idx| ==> idx[t] < |f.rows|
    ensures GetColumn(SelectRows(f, idx), name) == Success(Pick(GetColumn(f, name).value, idx))
  {
    var col := GetColumn(SelectRows(f, idx), name);
    assert col.Success?;
    assert col.value == Pick(GetColumn(f, name).value, idx);
  }

  /** Dropping the helper column after a row selection gives the selected file rows. */
  lemma DropHelper(raw: Frame, stamps: seq<Cell>, kept: seq<nat>)
    requires WellFormed(raw) && |stamps| == |raw.rows| && AtMostOnce(raw.columns, "datetime")
    requires forall t :: 0 <= t < |kept| ==> kept[t] < |raw.rows|
    ensures DropColumn(SelectRows(WithStamps(raw, stamps), kept), "datetime")
      == DropColumn(SelectRows(raw, kept), "datetime")
  {
    SelectAfterSet(raw, "datetime", stamps, kept);
    DropAfterSet(SelectRows(raw, kept), "datetime", Pick(stamps, kept));
  }

  /** The filtering part of `read_data_from_file`: the frame is rebound through
      each filter whose bound is given, each reading the current `datetime`
      column, and that column is then dropped in place. The result is the rows
      of the input whose timestamp lies within both bounds. */
  method FilterByBounds(df: Frame, start: Option<int>, end: Option<int>) returns (r: Frame)
    requires WellFormed(df) && Unique(df.columns, "datetime")
    ensures r == DropColumn(SelectRows(df, Kept(GetColumn(df, "datetime").value, Window(start, end))), "datetime")
  {
    ghost var stamps := GetColumn(df, "datetime").value;
    ghost var first := Kept(stamps, Window(start, None));
    r := df;
    if start.Some? {
      var col := GetColumn(r, "datetime").value;
      r := SelectRows(r, Kept(col, Window(start, None)));
    } else {
      KeptAll(stamps);
      SelectAll(df);
    }
    SelectColumn(df, "datetime", first);
    if end.Some? {
      var col := GetColumn(r, "datetime").value;
      SelectTwice(df, first, Kept(col, Window(None, end)));
      KeptCompose(stamps, start, end);
      r := SelectRows(r, Kept(col, Window(None, end)));
    }
    r := DropColumn(r, "datetime");
  }

  /** `read_data_from_file` after the CSV read: the timestamps are built, and
      any exception doing so ends the read; otherwise the helper column is
      added, the file is filtered and the helper column is dropped. */
  method ReadDataFromFile(raw: Frame, start: Option<int>, end: Option<int>, parse: string -> Option<int>)
    returns (r: Result<Frame, Error>)
    requires WellFormed(raw) && Distinct(raw.columns)
    ensures r.Success? <==> DatetimeColumn(raw, parse).Success?
    ensures r.Failure? ==> r.error == DatetimeColumn(raw, parse).error
    ensures r.Success? ==> r.value == InRange(raw, DatetimeColumn(raw, parse).value, Window(start, end))
  {
    var stamps :- DatetimeColumn(raw, parse);
    var df := WithStamps(raw, stamps);
    HelperColumn(raw, stamps);
    df := FilterByBounds(df, start, end);
    DropHelper(raw, stamps, Kept(stamps, Window(start, end)));
    return Success(df);
  }

  /** With neither bound the read keeps every row, and gives back the file
      itself when it has no column called `datetime`. */
  lemma NoBoundsKeepsAll(raw: Frame, stamps: seq<Cell>)
    requires WellFormed(raw) && |stamps| == |raw.rows|
    ensures |InRange(raw, stamps, Window(None, None)).rows| == |raw.rows|
    ensures "datetime" !in raw.columns ==> InRange(raw, stamps, Window(None, None)) == raw
  {
    KeptAll(stamps);
    SelectAll(raw);
  }

  /** Row `t` of the result is the `t`-th file row in the window (with its
      `datetime` column, if it had one, removed), and a file row is among the
      results exactly when its timestamp lies within the bounds. */
  lemma InRangeRows(raw: Frame, stamps: seq<Cell>, w: Window)
    requires WellFormed(raw) && |stamps| == |raw.rows| && "datetime" !in raw.columns
    ensures var r := InRange(raw, stamps, w);
      && r.columns == raw.columns
      && (forall t :: 0 <= t < |r.rows| ==> r.rows[t] == raw.rows[Kept(stamps, w)[t]])
      && (forall i :: 0 <= i < |raw.rows| ==> (i in Kept(stamps, w) <==> InWindow(stamps[i], w)))
  {
    forall i | 0 <= i < |raw.rows|
      ensures i in Kept(stamps, w) <==> InWindow(stamps[i], w)
    {
      KeptExactly(stamps, w, i);
    }
  }

  /** Whether or not the file has a `datetime` column of its own (the helper
      overwrites it and the drop removes it), every other column of the
      result holds the cells of the file rows in the window, in order, and is
      duplicated exactly when it was in the file. */
  lemma InRangeCells(raw: Frame, stamps: seq<Cell>, w: Window, n: string)
    requires WellFormed(raw) && |stamps| == |raw.rows| && n in raw.columns && n != "datetime"
    ensures var r := InRange(raw, stamps, w);
      && "datetime" !in r.columns
      && (forall m :: m in r.columns <==> m in raw.columns && m != "datetime")
      && n in r.columns
      && (AtMostOnce(r.columns, n) <==> AtMostOnce(raw.columns, n))
      && forall t :: 0 <= t < |r.rows| ==> At(r, n, t) == At(raw, n, Kept(stamps, w)[t])
  {
    var sel := SelectRows(raw, Kept(stamps, w));
    DropColumnKeeps(sel, "datetime", n);
  }
}
