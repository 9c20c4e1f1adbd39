/** The part of a pandas DataFrame that the ride-booking pipeline relies on:
    an ordered list of column names and, for every row, one cell per column.
    Column names may repeat, as they may in pandas.  The module also holds the
    pandas operations the pipeline steps are built from. */
module Frames {
  import opened Wrappers

  /** A cell value.  Floats, categories and parsed dates that only pass
      through the pipeline are `Other`; `Stamp` is a point in time, counted in
      an abstract unit whose order is the order of time. */
  datatype Value = Bool(b: bool) | Int(i: int) | Text(s: string) | Stamp(t: int) | Other(tag: nat)

  type Cell = Option<Value>

  type Row = seq<Cell>

  datatype Frame = Frame(columns: seq<string>, rows: seq<Row>)

  /** The exceptions pandas raises on the paths modelled here. */
  datatype Error =
    | KeyError(column: string)         // `df[name]` with no column of that name
    | DuplicateColumn(column: string)  // `df[name]` with several columns of that name, used as one column
    | NotDatetime(column: string)      // `.dt` on a column that does not hold datetimes
    | ConcatTypeError                  // `+` between a string and a non-string cell
    | ParseError                       // `pd.to_datetime` with a string that does not match the format
    | ShapeMismatch(column: string)    // assigning a sub-frame to a name that does not carry as many columns
    | AmbiguousTruth(column: string)   // a whole column used as the condition of an `if` inside `apply`

  /** Every row has exactly one cell per column. */
  predicate WellFormed(f: Frame) {
    forall i :: 0 <= i < |f.rows| ==> |f.rows[i]| == |f.columns|
  }

  predicate Distinct(cols: seq<string>) {
    forall j, l :: 0 <= j < l < |cols| ==> cols[j] != cols[l]
  }

  predicate AtMostOnce(cols: seq<string>, name: string) {
    forall j, l :: 0 <= j < l < |cols| && cols[j] == name ==> cols[l] != name
  }

  /** Exactly one column carries `name`. */
  predicate Unique(cols: seq<string>, name: string) {
    name in cols && AtMostOnce(cols, name)
  }

  /** The position of the first column called `name`. */
  function IndexOf(cols: seq<string>, name: string): (k: nat)
    requires name in cols
    ensures k < |cols| && cols[k] == name
    ensures forall j :: 0 <= j < k ==> cols[j] != name
  {
    if cols[0] == name then 0 else 1 + IndexOf(cols[1..], name)
  }

  /** The positions, in order, of the columns called `name`. */
  function Occurrences(cols: seq<string>, name: string): (p: seq<nat>)
    ensures forall t :: 0 <= t < |p| ==> p[t] < |cols| && cols[p[t]] == name
    ensures forall t, u :: 0 <= t < u < |p| ==> p[t] < p[u]
    decreases |cols|
  {
    if cols == [] then []
    else
      var n := |cols| - 1;
      var q := Occurrences(cols[..n], name);
      if cols[n] == name then q + [n] else q
  }

  /** How many columns are called `name`. */
  function Count(cols: seq<string>, name: string): nat {
    |Occurrences(cols, name)|
  }

  /** Every column called `name` has its position listed. */
  lemma {:induction false} OccurrencesComplete(cols: seq<string>, name: string, j: nat)
    requires j < |cols| && cols[j] == name
    ensures j in Occurrences(cols, name)
    decreases |cols|
  {
    var n := |cols| - 1;
    if j < n {
      assert cols[..n][j] == cols[j];
      OccurrencesComplete(cols[..n], name, j);
    }
  }

  /** A column called `name` is listed at the place given by the number of
      columns of that name before it. */
  lemma {:induction false} RankAt(cols: seq<string>, name: string, j: nat)
    requires j < |cols| && cols[j] == name
    ensures |Occurrences(cols[..j], name)| < Count(cols, name)
    ensures Occurrences(cols, name)[|Occurrences(cols[..j], name)|] == j
    decreases |cols|
  {
    var n := |cols| - 1;
    if j < n {
      assert cols[..n][..j] == cols[..j];
      RankAt(cols[..n], name, j);
    } else {
      assert cols[..j] == cols[..n];
    }
  }

  /** Which of the columns called `name`, counting from 0, sits at position `j`. */
  function Rank(cols: seq<string>, name: string, j: nat): (m: nat)
    requires j < |cols| && cols[j] == name
    ensures m < Count(cols, name) && Occurrences(cols, name)[m] == j
  {
    RankAt(cols, name, j);
    |Occurrences(cols[..j], name)|
  }

  /** The m-th column called `name` has rank m. */
  lemma RankOfOccurrence(cols: seq<string>, name: string, m: nat)
    requires m < Count(cols, name)
    ensures Rank(cols, name, Occurrences(cols, name)[m]) == m
  {
    var p := Occurrences(cols, name);
    var k := Rank(cols, name, p[m]);
    assert p[k] == p[m];
  }

  /** The count is zero exactly for an absent name, and at most one exactly
      when the name is not duplicated. */
  lemma CountOnce(cols: seq<string>, name: string)
    ensures Count(cols, name) == 0 <==> name !in cols
    ensures Count(cols, name) <= 1 <==> AtMostOnce(cols, name)
  {
    var p := Occurrences(cols, name);
    if name in cols {
      var j :| 0 <= j < |cols| && cols[j] == name;
      OccurrencesComplete(cols, name, j);
      assert |p| > 0;
    }
    if |p| > 0 {
      assert cols[p[0]] == name;
    }
    if !AtMostOnce(cols, name) {
      var j, l :| 0 <= j < l < |cols| && cols[j] == name && cols[l] == name;
      OccurrencesComplete(cols, name, j);
      OccurrencesComplete(cols, name, l);
      var t :| 0 <= t < |p| && p[t] == j;
      var u :| 0 <= u < |p| && p[u] == l;
      assert t != u;
    }
    assert |p| >= 2 ==> cols[p[0]] == name && cols[p[1]] == name && p[0] < p[1];
  }

  /** The first column called `name` is the one `IndexOf` finds. */
  lemma FirstOccurrence(cols: seq<string>, name: string)
    requires name in cols
    ensures Count(cols, name) > 0 && Occurrences(cols, name)[0] == IndexOf(cols, name)
  {
    var k := IndexOf(cols, name);
    assert name !in cols[..k];
    CountOnce(cols[..k], name);
    RankAt(cols, name, k);
  }

  /** The cell of row `i` under the first column called `name`. */
  function At(f: Frame, name: string, i: nat): Cell
    requires WellFormed(f) && name in f.columns && i < |f.rows|
  {
    f.rows[i][IndexOf(f.columns, name)]
  }

  function ColumnAt(f: Frame, k: nat): (c: seq<Cell>)
    requires WellFormed(f) && k < |f.columns|
    ensures |c| == |f.rows|
    ensures forall i :: 0 <= i < |f.rows| ==> c[i] == f.rows[i][k]
  {
    seq(|f.rows|, i requires 0 <= i < |f.rows| => f.rows[i][k])
  }

  /** Reading `df[name]` where only a single column will do, as before `.dt`
      or `+`: the cells of the one column of that name.  A name that is absent
      raises KeyError; a duplicated name yields a sub-frame, which has no `.dt`
      accessor, and a sub-frame concatenated with strings is no column of
      datetimes either.  `Select` below is the general read. */
  function GetColumn(f: Frame, name: string): (r: Result<seq<Cell>, Error>)
    requires WellFormed(f)
    ensures r.Success? <==> Unique(f.columns, name)
    ensures name !in f.columns ==> r == Failure(KeyError(name))
    ensures r.Success? ==> |r.value| == |f.rows|
    ensures r.Success? ==> forall i :: 0 <= i < |f.rows| ==> r.value[i] == At(f, name, i)
  {
    if name !in f.columns then Failure(KeyError(name))
    else if !AtMostOnce(f.columns, name) then Failure(DuplicateColumn(name))
    else Success(ColumnAt(f, IndexOf(f.columns, name)))
  }

  /** The column list after assigning to `name`. */
  function AddName(cols: seq<string>, name: string): (r: seq<string>)
    ensures cols <= r && name in r
    ensures |r| == |cols| || |r| == |cols| + 1
  {
    if name in cols then cols else cols + [name]
  }

  /** The column list after assigning to each of `names`, in order. */
  function AddNames(cols: seq<string>, names: seq<string>): (r: seq<string>)
    ensures cols <= r
    decreases |names|
  {
    if names == [] then cols
    else AddName(AddNames(cols, names[..|names| - 1]), names[|names| - 1])
  }

  /** The names after the assignments are the old ones and the assigned ones,
      and every appended position holds an assigned name. */
  lemma {:induction false} AddNamesMembers(cols: seq<string>, names: seq<string>)
    ensures forall n :: n in AddNames(cols, names) <==> n in cols || n in names
    ensures forall j :: |cols| <= j < |AddNames(cols, names)| ==> AddNames(cols, names)[j] in names
    decreases |names|
  {
    if names != [] {
      var k := |names| - 1;
      AddNamesMembers(cols, names[..k]);
      assert names == names[..k] + [names[k]];
    }
  }

  /** Assigning to `n` adds a column of that name only when there was none. */
  lemma CountAddName(cols: seq<string>, n: string, m: string)
    ensures Count(AddName(cols, n), m) == if m == n && n !in cols then 1 else Count(cols, m)
  {
    if n !in cols {
      assert (cols + [n])[..|cols|] == cols;
      CountOnce(cols, m);
    }
  }

  /** After the assignments a name occurs as often as before, or once when
      it is new and among the assigned names. */
  lemma {:induction false} CountAddNames(cols: seq<string>, names: seq<string>, m: string)
    ensures Count(AddNames(cols, names), m) ==
      if m in cols then Count(cols, m) else if m in names then 1 else 0
    decreases |names|
  {
    if names == [] {
      CountOnce(cols, m);
    } else {
      var k := |names| - 1;
      CountAddNames(cols, names[..k], m);
      CountAddName(AddNames(cols, names[..k]), names[k], m);
      AddNamesMembers(cols, names[..k]);
      assert names == names[..k] + [names[k]];
    }
  }

  /** Assigning the names of a prefix one longer is one more assignment. */
  lemma AddNamesPrefix(cols: seq<string>, names: seq<string>, k: nat)
    requires k < |names|
    ensures AddNames(cols, names[..k + 1]) == AddName(AddNames(cols, names[..k]), names[k])
  {
    assert names[..k + 1][..k] == names[..k];
  }

  /** pandas' branch for a name carried by as many columns as the table has
      rows, two or more: a Series assigned to it is spread across those
      columns, its m-th value filling the whole m-th column of the name
      (`DataFrame.__setitem__`, pandas issue 39510). */
  predicate Spreads(f: Frame, name: string) {
    name in f.columns && 2 <= Count(f.columns, name) == |f.rows|
  }

  /** Which value of a Series assigned to `name` lands in row `i` of the m-th
      column called `name`: value `i`, or value `m` when the Series is spread. */
  function SeriesRow(f: Frame, name: string, m: nat, i: nat): nat {
    if Spreads(f, name) then m else i
  }

  /** Assigning a Series, `df[name] = values`: the m-th column called `name`
      receives value `SeriesRow(f, name, m, i)` in row `i` (pandas' broadcast
      write, or the spread), and when there is no such column one is
      appended at the end. */
  function SetColumn(f: Frame, name: string, values: seq<Cell>): (r: Frame)
    requires WellFormed(f) && |values| == |f.rows|
    ensures WellFormed(r) && |r.rows| == |f.rows|
    ensures r.columns == AddName(f.columns, name)
  {
    var cols := AddName(f.columns, name);
    Frame(cols, seq(|f.rows|, i requires 0 <= i < |f.rows| =>
      seq(|cols|, j requires 0 <= j < |cols| =>
        if cols[j] == name then values[SeriesRow(f, name, Rank(cols, name, j), i)] else f.rows[i][j])))
  }

  /** What reading `df[name]` gives: a Series when at most one column carries
      the name, otherwise the sub-frame of all the columns that do. */
  datatype Selection = Series(values: seq<Cell>) | Columns(sub: Frame)

  /** The selection has one cell per row of a frame with `n` rows. */
  predicate Fits(v: Selection, n: nat) {
    match v
    case Series(values) => |values| == n
    case Columns(sub) => WellFormed(sub) && |sub.rows| == n
  }

  /** Reading `df[name]`.  An absent name raises KeyError; a name carried by
      several columns yields them all, in order, as a sub-frame. */
  function Select(f: Frame, name: string): (r: Result<Selection, Error>)
    requires WellFormed(f)
    ensures r.Failure? <==> name !in f.columns
    ensures name !in f.columns ==> r == Failure(KeyError(name))
    ensures r.Success? ==> Fits(r.value, |f.rows|) && (r.value.Series? <==> AtMostOnce(f.columns, name))
    ensures Unique(f.columns, name) ==> r == Success(Series(GetColumn(f, name).value))
    ensures r.Success? && r.value.Columns? ==> |r.value.sub.columns| == Count(f.columns, name)
  {
    if name !in f.columns then Failure(KeyError(name))
    else if AtMostOnce(f.columns, name) then Success(Series(ColumnAt(f, IndexOf(f.columns, name))))
    else
      var p := Occurrences(f.columns, name);
      Success(Columns(Frame(Pick(f.columns, p), seq(|f.rows|, i requires 0 <= i < |f.rows| => Pick(f.rows[i], p)))))
  }

  /** The m-th column of the sub-frame `df[name]` is the m-th column called `name`. */
  lemma SelectCells(f: Frame, name: string)
    requires WellFormed(f) && name in f.columns && !AtMostOnce(f.columns, name)
    ensures var sub := Select(f, name).value.sub;
      forall i, m :: 0 <= i < |f.rows| && 0 <= m < Count(f.columns, name) ==>
        sub.rows[i][m] == f.rows[i][Occurrences(f.columns, name)[m]]
  {
  }

  /** Writing a sub-frame into the columns called `name`, as many as it has:
      they are filled by position, the m-th of them from its m-th column. */
  function SetColumns(f: Frame, name: string, sub: Frame): (r: Frame)
    requires WellFormed(f) && WellFormed(sub)
    requires |sub.rows| == |f.rows| && |sub.columns| == Count(f.columns, name)
    ensures WellFormed(r) && r.columns == f.columns && |r.rows| == |f.rows|
  {
    Frame(f.columns, seq(|f.rows|, i requires 0 <= i < |f.rows| =>
      seq(|f.columns|, j requires 0 <= j < |f.columns| =>
        if f.columns[j] == name then sub.rows[i][Rank(f.columns, name, j)] else f.rows[i][j])))
  }

  /** Assigning `df[name] = value`.  A Series goes into every column called
      `name`, or into a new last column, or, when `Spreads`, value by value
      into the columns of the name.  A sub-frame goes column by column
      into the columns called `name`, which must be exactly as many; a new
      name takes only a one-column sub-frame.  Any other shape raises
      ValueError. */
  function Assign(f: Frame, name: string, v: Selection): (r: Result<Frame, Error>)
    requires WellFormed(f) && Fits(v, |f.rows|)
    ensures r.Success? <==>
      v.Series? || (if name in f.columns then |v.sub.columns| == Count(f.columns, name) else |v.sub.columns| == 1)
    ensures r.Failure? ==> r.error == ShapeMismatch(name)
    ensures r.Success? ==> WellFormed(r.value) && |r.value.rows| == |f.rows| && r.value.columns == AddName(f.columns, name)
  {
    match v
    case Series(values) => Success(SetColumn(f, name, values))
    case Columns(sub) =>
      if name in f.columns then
        if |sub.columns| == Count(f.columns, name) then Success(SetColumns(f, name, sub))
        else Failure(ShapeMismatch(name))
      else if |sub.columns| == 1 then Success(SetColumn(f, name, ColumnAt(sub, 0)))
      else Failure(ShapeMismatch(name))
  }

  /** The positions, in order, of the columns not called `name`. */
  function KeptPositions(cols: seq<string>, name: string): (p: seq<nat>)
    ensures forall t :: 0 <= t < |p| ==> p[t] < |cols| && cols[p[t]] != name
    ensures forall t, u :: 0 <= t < u < |p| ==> p[t] < p[u]
    decreases |cols|
  {
    if cols == [] then []
    else
      var n := |cols| - 1;
      var q := KeptPositions(cols[..n], name);
      if cols[n] == name then q else q + [n]
  }

  /** Every column not called `name` has its position kept. */
  lemma {:induction false} KeptPositionsComplete(cols: seq<string>, name: string, j: nat)
    requires j < |cols| && cols[j] != name
    ensures j in KeptPositions(cols, name)
    decreases |cols|
  {
    var n := |cols| - 1;
    if j < n {
      assert cols[..n][j] == cols[j];
      KeptPositionsComplete(cols[..n], name, j);
    }
  }

  /** When no column is called `name`, every position is kept. */
  lemma {:induction false} KeptPositionsAll(cols: seq<string>, name: string)
    requires name !in cols
    ensures KeptPositions(cols, name) == seq(|cols|, j => j)
    decreases |cols|
  {
    if cols != [] {
      var n := |cols| - 1;
      KeptPositionsAll(cols[..n], name);
    }
  }

  /** The elements of `xs` at the positions `p`, in that order. */
  function Pick<T>(xs: seq<T>, p: seq<nat>): (r: seq<T>)
    requires forall t :: 0 <= t < |p| ==> p[t] < |xs|
    ensures |r| == |p|
    ensures forall t :: 0 <= t < |p| ==> r[t] == xs[p[t]]
    ensures p == seq(|xs|, j => j) ==> r == xs
  {
    seq(|p|, t requires 0 <= t < |p| => xs[p[t]])
  }

  /** `df.drop(columns=[name])`: every column called `name` is removed.  pandas
      raises KeyError when there is no such column; the program only drops a
      `datetime` column it has just added, so that case never arises there,
      and the total function here returns the frame unchanged for it.  Only
      the specification function `Dataset.InRange` drops an absent name: it
      describes the program's add-then-drop of the helper column as a drop
      from the file's own columns. */
  function DropColumn(f: Frame, name: string): (r: Frame)
    requires WellFormed(f)
    ensures WellFormed(r) && |r.rows| == |f.rows|
    ensures name !in r.columns
    ensures forall n :: n in r.columns <==> n in f.columns && n != name
    ensures name !in f.columns ==> r == f
  {
    var p := KeptPositions(f.columns, name);
    var r := Frame(Pick(f.columns, p), seq(|f.rows|, i requires 0 <= i < |f.rows| => Pick(f.rows[i], p)));
    assert forall n :: n in f.columns && n != name ==> n in r.columns by {
      forall n | n in f.columns && n != name ensures n in r.columns {
        var j :| 0 <= j < |f.columns| && f.columns[j] == n;
        KeptPositionsComplete(f.columns, name, j);
        var t :| 0 <= t < |p| && p[t] == j;
        assert r.columns[t] == n;
      }
    }
    assert name !in f.columns ==> r == f by {
      if name !in f.columns {
        KeptPositionsAll(f.columns, name);
      }
    }
    r
  }

  /** Boolean indexing keeps the rows at positions `idx`, in that order. */
  function SelectRows(f: Frame, idx: seq<nat>): (r: Frame)
    requires forall t :: 0 <= t < |idx| ==> idx[t] < |f.rows|
    ensures r.columns == f.columns && |r.rows| == |idx|
    ensures forall t :: 0 <= t < |idx| ==> r.rows[t] == f.rows[idx[t]]
  {
    Frame(f.columns, seq(|idx|, t requires 0 <= t < |idx| => f.rows[idx[t]]))
  }

  /** `notnull` (when `present`) or `isnull` of one cell: a boolean that is
      true exactly when the cell's presence is the one asked about. */
  function Mark(c: Cell, present: bool): (r: Cell)
    ensures r.Some? && r.value.Bool?
    ensures r.value.b <==> (c.Some? == present)
  {
    Some(Bool(if present then c.Some? else c.None?))
  }

  /** `Series.notnull()` / `Series.isnull()`: `present` picks which. */
  function NullMarks(values: seq<Cell>, present: bool): (r: seq<Cell>)
    ensures |r| == |values|
    ensures forall i :: 0 <= i < |values| ==> r[i] == Mark(values[i], present)
  {
    seq(|values|, i requires 0 <= i < |values| => Mark(values[i], present))
  }

  /** `isnull` is the negation of `notnull`, cell by cell. */
  lemma NullMarksComplement(values: seq<Cell>)
    ensures forall i :: 0 <= i < |values| ==>
      NullMarks(values, false)[i] == Some(Bool(!NullMarks(values, true)[i].value.b))
  {
  }

  /** The same marks on every row of a sub-frame. */
  function NullMarksOf(v: Selection, present: bool): (r: Selection)
    ensures r.Series? <==> v.Series?
    ensures v.Series? ==> |r.values| == |v.values|
    ensures v.Columns? ==>
      && r.sub.columns == v.sub.columns && |r.sub.rows| == |v.sub.rows|
      && (WellFormed(v.sub) ==> WellFormed(r.sub))
  {
    match v
    case Series(values) => Series(NullMarks(values, present))
    case Columns(sub) =>
      Columns(Frame(sub.columns, seq(|sub.rows|, i requires 0 <= i < |sub.rows| => NullMarks(sub.rows[i], present))))
  }

  /** `Series.str.lower()` on one string, for ASCII letters: no upper-case
      letter is left, each one becomes its lower-case partner, and every
      other character stays. */
  function Lower(s: string): (r: string)
    ensures |r| == |s|
    ensures forall k :: 0 <= k < |s| ==> !('A' <= r[k] <= 'Z')
    ensures forall k :: 0 <= k < |s| && !('A' <= s[k] <= 'Z') ==> r[k] == s[k]
    ensures forall k :: 0 <= k < |s| && 'A' <= s[k] <= 'Z' ==>
      'a' <= r[k] <= 'z' && r[k] as int - 'a' as int == s[k] as int - 'A' as int
  {
    seq(|s|, k requires 0 <= k < |s| => if 'A' <= s[k] <= 'Z' then (s[k] as int + 32) as char else s[k])
  }

  /** Lower-casing twice is lower-casing once. */
  lemma LowerIdempotent(s: string)
    ensures Lower(Lower(s)) == Lower(s)
  {
  }

  /** `Series.str.replace(pattern, replacement)` for one-character patterns:
      no occurrence of the pattern is left when the replacement differs, and
      every other character stays in place. */
  function Replace(s: string, pattern: char, replacement: char): (r: string)
    ensures |r| == |s|
    ensures pattern != replacement ==> pattern !in r
    ensures forall k :: 0 <= k < |s| && s[k] != pattern ==> r[k] == s[k]
    ensures forall k :: 0 <= k < |s| && s[k] == pattern ==> r[k] == replacement
  {
    seq(|s|, k requires 0 <= k < |s| => if s[k] == pattern then replacement else s[k])
  }

  /** The calendar fields `.dt` derives from a timestamp (Monday is weekday 0). */
  datatype DateParts = DateParts(hour: int, day: int, month: int, weekday: int)

  datatype Part = Hour | Day | Month | Weekday

  function PartOf(p: DateParts, which: Part): int {
    match which
    case Hour => p.hour
    case Day => p.day
    case Month => p.month
    case Weekday => p.weekday
  }

  /** The cells a datetime64 column can hold: a timestamp or NaT. */
  predicate IsDatetimeColumn(dt: seq<Cell>) {
    forall i :: 0 <= i < |dt| ==> dt[i].None? || dt[i].value.Stamp?
  }

  /** `Series.dt.hour` and its siblings: NaT gives a missing value. */
  function DtPart(dt: seq<Cell>, cal: int -> DateParts, which: Part): (r: seq<Cell>)
    requires IsDatetimeColumn(dt)
    ensures |r| == |dt|
    ensures forall i :: 0 <= i < |dt| ==> (r[i].None? <==> dt[i].None?)
    ensures forall i :: 0 <= i < |dt| && dt[i].Some? ==> r[i] == Some(Int(PartOf(cal(dt[i].value.t), which)))
  {
    seq(|dt|, i requires 0 <= i < |dt| =>
      if dt[i].None? then None else Some(Int(PartOf(cal(dt[i].value.t), which))))
  }

  /** `Series.isin(choices)` for integer choices: every cell becomes a
      boolean, true exactly for a present integer among the choices; a
      missing cell is never in. */
  function IsIn(values: seq<Cell>, choices: set<int>): (r: seq<Cell>)
    ensures |r| == |values|
    ensures forall i :: 0 <= i < |values| ==> r[i].Some? && r[i].value.Bool?
    ensures forall i :: 0 <= i < |values| && values[i].None? ==> r[i] == Some(Bool(false))
    ensures forall i :: 0 <= i < |values| ==>
      (r[i].value.b <==> values[i].Some? && values[i].value.Int? && values[i].value.i in choices)
  {
    seq(|values|, i requires 0 <= i < |values| =>
      Some(Bool(values[i].Some? && values[i].value.Int? && values[i].value.i in choices)))
  }

  /** `isin` on every row of a sub-frame. */
  function IsInOf(v: Selection, choices: set<int>): (r: Selection)
    ensures r.Series? <==> v.Series?
    ensures v.Series? ==> |r.values| == |v.values|
    ensures v.Columns? ==>
      && r.sub.columns == v.sub.columns && |r.sub.rows| == |v.sub.rows|
      && (WellFormed(v.sub) ==> WellFormed(r.sub))
  {
    match v
    case Series(values) => Series(IsIn(values, choices))
    case Columns(sub) =>
      Columns(Frame(sub.columns, seq(|sub.rows|, i requires 0 <= i < |sub.rows| => IsIn(sub.rows[i], choices))))
  }

  // ---------------------------------------------------------------------
  // Reading by name after the column list has grown

  /** Appending columns never moves the first column of a name already present. */
  lemma IndexOfPrefix(a: seq<string>, b: seq<string>, name: string)
    requires a <= b && name in a
    ensures name in b && IndexOf(b, name) == IndexOf(a, name)
  {
    var ka := IndexOf(a, name);
    assert b[ka] == name;
  }

  /** A name that none of the appended columns carries is read as before. */
  lemma ExtensionKeeps(a: seq<string>, b: seq<string>, name: string)
    requires a <= b
    requires forall j :: |a| <= j < |b| ==> b[j] != name
    ensures name in b <==> name in a
    ensures AtMostOnce(b, name) <==> AtMostOnce(a, name)
    ensures name in a ==> IndexOf(b, name) == IndexOf(a, name)
  {
    if name in b {
      var j :| 0 <= j < |b| && b[j] == name;
      assert a[j] == name;
    }
    if name in a {
      IndexOfPrefix(a, b, name);
    }
    if AtMostOnce(a, name) {
      forall j, l | 0 <= j < l < |b| && b[j] == name
        ensures b[l] != name
      {
        assert a[j] == b[j];
        if l < |a| {
          assert a[l] == b[l];
        }
      }
    }
  }

  /** `df[name] = values` sets every column called `name`, the m-th of them
      to value `SeriesRow(f, name, m, i)` in row `i`, and leaves every other
      cell alone. */
  lemma SetColumnCells(f: Frame, name: string, values: seq<Cell>)
    requires WellFormed(f) && |values| == |f.rows|
    ensures var r := SetColumn(f, name, values);
      && (forall i, j :: 0 <= i < |r.rows| && 0 <= j < |r.columns| && r.columns[j] == name ==>
            r.rows[i][j] == values[SeriesRow(f, name, Rank(r.columns, name, j), i)])
      && (forall i, j :: 0 <= i < |f.rows| && 0 <= j < |f.columns| && f.columns[j] != name ==>
            r.rows[i][j] == f.rows[i][j])
  {
  }

  /** `g` extends `f`: same rows, more columns at the end, and every cell of
      `f` outside the columns `names` unchanged. */
  predicate Keeps(f: Frame, g: Frame, names: seq<string>)
    requires WellFormed(f) && WellFormed(g)
  {
    && |g.rows| == |f.rows|
    && f.columns <= g.columns
    && forall i, j :: 0 <= i < |f.rows| && 0 <= j < |f.columns| && f.columns[j] !in names ==>
         g.rows[i][j] == f.rows[i][j]
  }

  lemma SetColumnKeeps(f: Frame, name: string, values: seq<Cell>, names: seq<string>)
    requires WellFormed(f) && |values| == |f.rows| && name in names
    ensures Keeps(f, SetColumn(f, name, values), names)
  {
    SetColumnCells(f, name, values);
  }

  lemma KeepsTransitive(f: Frame, g: Frame, h: Frame, names: seq<string>)
    requires WellFormed(f) && WellFormed(g) && WellFormed(h)
    requires Keeps(f, g, names) && Keeps(g, h, names)
    ensures Keeps(f, h, names)
  {
    forall i, j | 0 <= i < |f.rows| && 0 <= j < |f.columns| && f.columns[j] !in names
      ensures h.rows[i][j] == f.rows[i][j]
    {
      assert g.columns[j] == f.columns[j];
    }
  }

  /** Excluding more names from the comparison keeps `Keeps`. */
  lemma KeepsWiden(f: Frame, g: Frame, names: seq<string>, more: seq<string>)
    requires WellFormed(f) && WellFormed(g)
    requires Keeps(f, g, names) && forall n :: n in names ==> n in more
    ensures Keeps(f, g, more)
  {
  }

  /** What `df[name] = values` does to the cells read back under any name
      `m`: the first column called `name` shows value `SeriesRow(f, name, 0, i)`
      in row `i`, and every other name reads as before. */
  lemma SetColumnAt(f: Frame, name: string, values: seq<Cell>, m: string)
    requires WellFormed(f) && |values| == |f.rows|
    ensures var r := SetColumn(f, name, values);
      && (m in r.columns <==> m in f.columns || m == name)
      && (AtMostOnce(r.columns, m) <==> AtMostOnce(f.columns, m))
      && (Spreads(r, m) <==> Spreads(f, m))
      && (m == name ==> forall i :: 0 <= i < |f.rows| ==> At(r, m, i) == values[SeriesRow(f, name, 0, i)])
      && (m != name && m in f.columns ==>
            IndexOf(r.columns, m) == IndexOf(f.columns, m) &&
            forall i :: 0 <= i < |f.rows| ==> At(r, m, i) == At(f, m, i))
  {
    var r := SetColumn(f, name, values);
    SetColumnCells(f, name, values);
    CountAddName(f.columns, name, m);
    if m != name {
      ExtensionKeeps(f.columns, r.columns, m);
    } else {
      FirstOccurrence(r.columns, name);
      RankOfOccurrence(r.columns, name, 0);
    }
  }

  /** Dropping the last of distinct names leaves distinct names without it. */
  lemma DistinctInit(names: seq<string>)
    requires Distinct(names) && names != []
    ensures Distinct(names[..|names| - 1]) && names[|names| - 1] !in names[..|names| - 1]
  {
    var k := |names| - 1;
    var init := names[..k];
    forall j, l | 0 <= j < l < |init| ensures init[j] != init[l] {
      assert init[j] == names[j] && init[l] == names[l];
    }
    forall j | 0 <= j < k ensures init[j] != names[k] {
      assert init[j] == names[j];
    }
  }

  /** Assigning names that are all new and distinct appends exactly them, in order. */
  lemma {:induction false} AddNamesFresh(cols: seq<string>, names: seq<string>)
    requires Distinct(names)
    requires forall j :: 0 <= j < |names| ==> names[j] !in cols
    ensures AddNames(cols, names) == cols + names
    decreases |names|
  {
    if names != [] {
      var k := |names| - 1;
      DistinctInit(names);
      AddNamesFresh(cols, names[..k]);
      assert names[k] !in cols;
      assert (cols + names[..k]) + [names[k]] == cols + names;
    }
  }

  // ---------------------------------------------------------------------
  // Assigning to a name several columns carry

  /** Writing a sub-frame fills the m-th column called `name` from its m-th
      column and leaves every other cell alone. */
  lemma SetColumnsCells(f: Frame, name: string, sub: Frame)
    requires WellFormed(f) && WellFormed(sub)
    requires |sub.rows| == |f.rows| && |sub.columns| == Count(f.columns, name)
    ensures var r := SetColumns(f, name, sub);
      && (forall i, m :: 0 <= i < |f.rows| && 0 <= m < |sub.columns| ==>
            r.rows[i][Occurrences(f.columns, name)[m]] == sub.rows[i][m])
      && (forall i, j :: 0 <= i < |f.rows| && 0 <= j < |f.columns| && f.columns[j] != name ==>
            r.rows[i][j] == f.rows[i][j])
  {
    forall m | 0 <= m < |sub.columns|
      ensures Rank(f.columns, name, Occurrences(f.columns, name)[m]) == m
    {
      RankOfOccurrence(f.columns, name, m);
    }
  }

  /** The columns called `name` hold the Series `values` as `df[name] = values`
      leaves them: the m-th of them shows value `SeriesRow(f, name, m, i)` in row `i`. */
  predicate Holds(f: Frame, name: string, values: seq<Cell>)
    requires WellFormed(f)
  {
    && |values| == |f.rows|
    && forall i, j :: 0 <= i < |f.rows| && 0 <= j < |f.columns| && f.columns[j] == name ==>
         f.rows[i][j] == values[SeriesRow(f, name, Rank(f.columns, name, j), i)]
  }

  /** Every column of the sub-frame holds `values`. */
  predicate Uniform(sub: Frame, values: seq<Cell>)
    requires WellFormed(sub)
  {
    && |values| == |sub.rows|
    && forall i, m :: 0 <= i < |sub.rows| && 0 <= m < |sub.columns| ==> sub.rows[i][m] == values[i]
  }

  /** Every row of the sub-frame is `values`: its m-th column holds value m throughout. */
  predicate Spreading(sub: Frame, values: seq<Cell>)
    requires WellFormed(sub)
  {
    && |sub.columns| == |values|
    && forall i :: 0 <= i < |sub.rows| ==> sub.rows[i] == values
  }

  /** Appending columns leaves the rank of an earlier column as it was. */
  lemma RankPrefix(a: seq<string>, b: seq<string>, name: string, j: nat)
    requires a <= b && j < |a| && a[j] == name
    ensures Rank(b, name, j) == Rank(a, name, j)
  {
    assert b[..j] == a[..j];
  }

  /** `df[name] = values` makes the columns called `name` hold `values`, and
      leaves alone what the columns of any other name hold. */
  lemma SetColumnHolds(f: Frame, name: string, values: seq<Cell>, other: string, w: seq<Cell>)
    requires WellFormed(f) && |values| == |f.rows|
    ensures Holds(SetColumn(f, name, values), name, values)
    ensures other != name && Holds(f, other, w) ==> Holds(SetColumn(f, name, values), other, w)
  {
    SetColumnHoldsOwn(f, name, values);
    if other != name && Holds(f, other, w) {
      SetColumnHoldsOther(f, name, values, other, w);
    }
  }

  /** The assigned name holds the assigned values after the assignment. */
  lemma SetColumnHoldsOwn(f: Frame, name: string, values: seq<Cell>)
    requires WellFormed(f) && |values| == |f.rows|
    ensures Holds(SetColumn(f, name, values), name, values)
  {
    CountAddName(f.columns, name, name);
    SetColumnCells(f, name, values);
  }

  /** Another name keeps holding its values: neither its columns, their ranks
      nor its spreading change. */
  lemma SetColumnHoldsOther(f: Frame, name: string, values: seq<Cell>, other: string, w: seq<Cell>)
    requires WellFormed(f) && |values| == |f.rows|
    requires other != name && Holds(f, other, w)
    ensures Holds(SetColumn(f, name, values), other, w)
  {
    var r := SetColumn(f, name, values);
    CountAddName(f.columns, name, other);
    assert Spreads(r, other) == Spreads(f, other);
    forall i, j | 0 <= i < |r.rows| && 0 <= j < |r.columns| && r.columns[j] == other
      ensures r.rows[i][j] == w[SeriesRow(r, other, Rank(r.columns, other, j), i)]
    {
      assert j < |f.columns|;
      RankPrefix(f.columns, r.columns, other, j);
    }
  }

  /** Reading a name whose columns hold `values` gives `values`: as a Series,
      as a sub-frame each of whose columns is `values`, or, when the Series
      was spread, as a sub-frame each of whose rows is `values`. */
  lemma SelectHolds(f: Frame, name: string, values: seq<Cell>)
    requires WellFormed(f) && name in f.columns && Holds(f, name, values)
    ensures Select(f, name).Success?
    ensures Select(f, name).value.Series? ==> Select(f, name).value.values == values
    ensures Select(f, name).value.Columns? && !Spreads(f, name) ==> Uniform(Select(f, name).value.sub, values)
    ensures Select(f, name).value.Columns? && Spreads(f, name) ==> Spreading(Select(f, name).value.sub, values)
  {
    CountOnce(f.columns, name);
    var sel := Select(f, name).value;
    if sel.Columns? {
      SelectCells(f, name);
      var p := Occurrences(f.columns, name);
      forall m | 0 <= m < Count(f.columns, name)
        ensures Rank(f.columns, name, p[m]) == m
      {
        RankOfOccurrence(f.columns, name, m);
      }
      if Spreads(f, name) {
        forall i | 0 <= i < |sel.sub.rows|
          ensures sel.sub.rows[i] == values
        {
          assert |sel.sub.rows[i]| == |values|;
        }
      }
    }
  }

  /** Two columns called `a` on a two-row table: the Series `[x, y]` is
      spread, so the first column holds `x` and the second `y` in each row. */
  lemma SpreadTwoColumns(x: Cell, y: Cell)
    ensures Assign(Frame(["a", "a"], [[None, None], [None, None]]), "a", Series([x, y]))
      == Success(Frame(["a", "a"], [[x, y], [x, y]]))
  {
    var f := Frame(["a", "a"], [[None, None], [None, None]]);
    assert f.columns[..1] == ["a"] && f.columns[..0] == [];
    assert Occurrences(["a"], "a") == [0];
    assert Count(f.columns, "a") == 2;
    assert Rank(f.columns, "a", 0) == 0 && Rank(f.columns, "a", 1) == 1;
    var r := SetColumn(f, "a", [x, y]);
    assert r.rows[0] == [x, y] && r.rows[1] == [x, y];
    assert r == Frame(["a", "a"], [[x, y], [x, y]]);
    assert Assign(f, "a", Series([x, y])) == Success(r);
  }

  /** A sub-frame each of whose columns is `values` assigns like the Series
      `values` when pandas does not spread it. */
  lemma AssignUniform(f: Frame, name: string, sub: Frame, values: seq<Cell>)
    requires WellFormed(f) && WellFormed(sub) && |sub.rows| == |f.rows|
    requires name in f.columns && |sub.columns| == Count(f.columns, name) && !Spreads(f, name)
    requires Uniform(sub, values)
    ensures Assign(f, name, Columns(sub)) == Success(SetColumn(f, name, values))
  {
    var a := SetColumns(f, name, sub);
    var b := SetColumn(f, name, values);
    forall i | 0 <= i < |f.rows|
      ensures a.rows[i] == b.rows[i]
    {
      forall j | 0 <= j < |f.columns|
        ensures a.rows[i][j] == b.rows[i][j]
      {
        if f.columns[j] == name {
          var m := Rank(f.columns, name, j);
          assert a.rows[i][j] == sub.rows[i][m];
        }
      }
    }
    assert a.rows == b.rows;
  }

  /** A sub-frame each of whose rows is `values` assigns like the Series
      `values` when pandas spreads it. */
  lemma AssignSpread(f: Frame, name: string, sub: Frame, values: seq<Cell>)
    requires WellFormed(f) && WellFormed(sub) && |sub.rows| == |f.rows|
    requires name in f.columns && |sub.columns| == Count(f.columns, name) && Spreads(f, name)
    requires Spreading(sub, values)
    ensures Assign(f, name, Columns(sub)) == Success(SetColumn(f, name, values))
  {
    var a := SetColumns(f, name, sub);
    var b := SetColumn(f, name, values);
    forall i | 0 <= i < |f.rows|
      ensures a.rows[i] == b.rows[i]
    {
      forall j | 0 <= j < |f.columns|
        ensures a.rows[i][j] == b.rows[i][j]
      {
        if f.columns[j] == name {
          var m := Rank(f.columns, name, j);
          assert a.rows[i][j] == sub.rows[i][m];
        }
      }
    }
    assert a.rows == b.rows;
  }

  /** `isin` (or `notnull`, `isnull`) of a sub-frame whose columns are all
      `values` has all its columns equal to the marks of `values`. */
  lemma UniformMarks(sub: Frame, values: seq<Cell>, choices: set<int>, present: bool)
    requires WellFormed(sub) && Uniform(sub, values)
    ensures Uniform(IsInOf(Columns(sub), choices).sub, IsIn(values, choices))
    ensures Uniform(NullMarksOf(Columns(sub), present).sub, NullMarks(values, present))
  {
  }

  /** `isin` (or `notnull`, `isnull`) of a sub-frame whose rows are all
      `values` has all its rows equal to the marks of `values`. */
  lemma SpreadingMarks(sub: Frame, values: seq<Cell>, choices: set<int>, present: bool)
    requires WellFormed(sub) && Spreading(sub, values)
    ensures Spreading(IsInOf(Columns(sub), choices).sub, IsIn(values, choices))
    ensures Spreading(NullMarksOf(Columns(sub), present).sub, NullMarks(values, present))
  {
  }

  // ---------------------------------------------------------------------
  // Dropping a column

  /** The drop keeps the columns at the kept positions, in order. */
  lemma DropColumnPick(f: Frame, name: string)
    requires WellFormed(f)
    ensures var p := KeptPositions(f.columns, name);
      && DropColumn(f, name).columns == Pick(f.columns, p)
      && forall i :: 0 <= i < |f.rows| ==> DropColumn(f, name).rows[i] == Pick(f.rows[i], p)
  {
  }

  /** After the drop, the first column of another name is the kept position
      of its first column before. */
  lemma DropColumnFirst(f: Frame, name: string, n: string) returns (t: nat)
    requires WellFormed(f) && n != name && n in f.columns
    ensures var p := KeptPositions(f.columns, name);
      && t < |p| && p[t] == IndexOf(f.columns, n)
      && n in DropColumn(f, name).columns && IndexOf(DropColumn(f, name).columns, n) == t
  {
    var cols := DropColumn(f, name).columns;
    var p := KeptPositions(f.columns, name);
    DropColumnPick(f, name);
    var k := IndexOf(f.columns, n);
    KeptPositionsComplete(f.columns, name, k);
    t :| 0 <= t < |p| && p[t] == k;
    assert cols[t] == n;
    forall u | 0 <= u < t ensures cols[u] != n {
      assert p[u] < k;
    }
  }

  /** A name twice among the columns is still twice among the kept ones. */
  lemma KeptTwice(cols: seq<string>, name: string, n: string, j: nat, l: nat)
    requires n != name && j < l < |cols| && cols[j] == n && cols[l] == n
    ensures !AtMostOnce(Pick(cols, KeptPositions(cols, name)), n)
  {
    var p := KeptPositions(cols, name);
    KeptPositionsComplete(cols, name, j);
    KeptPositionsComplete(cols, name, l);
    var a :| 0 <= a < |p| && p[a] == j;
    var b :| 0 <= b < |p| && p[b] == l;
    assert a < b;
  }

  /** Keeping the positions of the other names neither creates nor removes
      a duplicate of another name. */
  lemma KeptOnce(cols: seq<string>, name: string, n: string)
    requires n != name
    ensures var p := KeptPositions(cols, name);
      AtMostOnce(Pick(cols, p), n) <==> AtMostOnce(cols, n)
  {
    var p := KeptPositions(cols, name);
    var kept := Pick(cols, p);
    if !AtMostOnce(cols, n) {
      var j, l :| 0 <= j < l < |cols| && cols[j] == n && cols[l] == n;
      KeptTwice(cols, name, n, j, l);
    }
    if !AtMostOnce(kept, n) {
      var a, b :| 0 <= a < b < |kept| && kept[a] == n && kept[b] == n;
      assert p[a] < p[b] && cols[p[a]] == n && cols[p[b]] == n;
    }
  }

  /** The drop neither creates nor removes a duplicate of another name. */
  lemma DropColumnOnce(f: Frame, name: string, n: string)
    requires WellFormed(f) && n != name
    ensures AtMostOnce(DropColumn(f, name).columns, n) <==> AtMostOnce(f.columns, n)
  {
    DropColumnPick(f, name);
    KeptOnce(f.columns, name, n);
  }

  /** Dropping `name` removes it and leaves every other name with the cells
      it had, as often duplicated as before. */
  lemma DropColumnKeeps(f: Frame, name: string, n: string)
    requires WellFormed(f) && n != name && n in f.columns
    ensures var r := DropColumn(f, name);
      && name !in r.columns && |r.rows| == |f.rows|
      && (forall m :: m in r.columns <==> m in f.columns && m != name)
      && n in r.columns
      && (AtMostOnce(r.columns, n) <==> AtMostOnce(f.columns, n))
      && (forall i :: 0 <= i < |f.rows| ==> At(r, n, i) == At(f, n, i))
      && (Unique(f.columns, n) ==> GetColumn(r, n) == GetColumn(f, n))
  {
    var r := DropColumn(f, name);
    DropColumnPick(f, name);
    var t := DropColumnFirst(f, name, n);
    DropColumnOnce(f, name, n);
    if Unique(f.columns, n) {
      assert GetColumn(r, n).value == GetColumn(f, n).value;
    }
  }
}
