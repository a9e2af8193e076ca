/** `standardize` (src/microgrid_eda/clean.py): normalise the column names,
    make the `timestamp` column the time axis, sort by it, take hourly
    bucket means and drop every hour with a missing mean. */
module Clean {
  import opened Wrappers
  import opened Text
  import opened Series

  /** The column `standardize` reads the time axis from. */
  const TimestampColumn: string := "timestamp"

  /** A cell of the caller's DataFrame: missing (NaN), a number, a
      timestamp, already parsed, as whole seconds since the epoch, or a
      string that is neither a number nor a timestamp. */
  datatype Cell = Missing | Num(x: real) | Time(seconds: int) | Text(s: string)

  /** The caller's DataFrame: column labels and rows of cells, by position. */
  datatype Frame = Frame(columns: seq<string>, rows: seq<seq<Cell>>)

  /** A DataFrame has exactly one cell per column in every row. */
  predicate Rectangular(f: Frame) {
    forall r :: r in f.rows ==> |r| == |f.columns|
  }

  datatype CleanError =
    | MissingTimestampColumn    // no column is called "timestamp" after renaming
    | DuplicateTimestampColumn  // two are; df["timestamp"] is then a frame
    | UnparseableTimestamp      // a timestamp cell is not a timestamp
    | NonNumericValue           // a value cell holds a timestamp or a string

  /** The cleaned DataFrame: value columns and hourly rows. */
  datatype Cleaned = Cleaned(columns: seq<string>, rows: seq<HourRow>)

  // ---------------------------------------------------------------------
  // Column names (clean.py lines 4-6)

  /** The relabelling of line 4. */
  function NormalizeColumns(cols: seq<string>): (r: seq<string>)
    ensures |r| == |cols|
    ensures forall i :: 0 <= i < |cols| ==> r[i] == Normalize(cols[i])
  {
    seq(|cols|, i requires 0 <= i < |cols| => Normalize(cols[i]))
  }

  function RemoveAt<T>(s: seq<T>, i: nat): (r: seq<T>)
    requires i < |s|
    ensures |r| == |s| - 1
    ensures forall k :: 0 <= k < |r| ==> r[k] == if k < i then s[k] else s[k + 1]
  {
    s[..i] + s[i + 1..]
  }

  function IndexOf(names: seq<string>, x: string): (r: Option<nat>)
    ensures r.None? <==> x !in names
    ensures r.Some? ==> r.value < |names| && names[r.value] == x && x !in names[..r.value]
  {
    if names == [] then None
    else if names[0] == x then Some(0)
    else
      match IndexOf(names[1..], x)
      case None => None
      case Some(i) =>
        assert names[..i + 1] == [names[0]] + names[1..][..i];
        Some(i + 1)
  }

  /** Where `df["timestamp"]` finds its one column: a missing label is a
      KeyError, a repeated one selects a frame that `pd.to_datetime` cannot
      turn into timestamps. */
  function FindTimestamp(names: seq<string>): (r: Result<nat, CleanError>)
    ensures r.Success? ==>
      && r.value < |names| && names[r.value] == TimestampColumn
      && forall i :: 0 <= i < |names| && i != r.value ==> names[i] != TimestampColumn
    ensures r == Failure(MissingTimestampColumn) <==> TimestampColumn !in names
    ensures r == Failure(DuplicateTimestampColumn) <==>
      exists i, j :: 0 <= i < j < |names| && names[i] == TimestampColumn && names[j] == TimestampColumn
    ensures r.Success? || r == Failure(MissingTimestampColumn) || r == Failure(DuplicateTimestampColumn)
  {
    match IndexOf(names, TimestampColumn)
    case None => Failure(MissingTimestampColumn)
    case Some(i) =>
      if TimestampColumn in names[i + 1..] then
        var k :| 0 <= k < |names[i + 1..]| && names[i + 1..][k] == TimestampColumn;
        assert names[i + 1 + k] == TimestampColumn;
        Failure(DuplicateTimestampColumn)
      else
        assert forall k :: 0 <= k < i ==> names[..i][k] == names[k];
        assert forall k :: i < k < |names| ==> names[i + 1..][k - i - 1] == names[k];
        Success(i)
  }

  // ---------------------------------------------------------------------
  // The time axis (clean.py line 5)

  /** Every row holds a timestamp in column `ti`. */
  predicate TimestampsParse(rows: seq<seq<Cell>>, ti: nat) {
    forall r: seq<Cell> :: r in rows ==> ti < |r| && r[ti].Time?
  }

  /** Every value cell is a number or missing. */
  predicate ValuesNumeric(rows: seq<seq<Cell>>, ti: nat) {
    forall r: seq<Cell> :: r in rows ==> forall k :: 0 <= k < |r| && k != ti ==> r[k].Num? || r[k].Missing?
  }

  /** The seconds of a timestamp cell (only read once every timestamp cell
      is known to hold one). */
  function SecondsOf(c: Cell): int {
    if c.Time? then c.seconds else 0
  }

  /** A value cell as a float: NaN, the missing marker, becomes None (a
      timestamp or string cell is never read here once the values are known
      numeric). */
  function ValueOf(c: Cell): Option<real> {
    if c.Num? then Some(c.x) else None
  }

  /** A row after `set_index("timestamp")`: the timestamp leaves the cells.
      Every row of a rectangular frame has a cell at `ti`; a shorter one
      would keep all its cells and read as time 0. */
  function ToRow(cells: seq<Cell>, ti: nat): (r: Row)
    ensures ti < |cells| ==> r.time == SecondsOf(cells[ti]) && |r.values| == |cells| - 1
    ensures ti < |cells| ==> forall k :: 0 <= k < |r.values| ==>
      r.values[k] == ValueOf(if k < ti then cells[k] else cells[k + 1])
  {
    var rest := if ti < |cells| then RemoveAt(cells, ti) else cells;
    Row(if ti < |cells| then SecondsOf(cells[ti]) else 0,
        seq(|rest|, k requires 0 <= k < |rest| => ValueOf(rest[k])))
  }

  /** The rows re-indexed by their timestamps, in input order. */
  function ParseRows(rows: seq<seq<Cell>>, ti: nat): (r: seq<Row>)
    ensures |r| == |rows|
    ensures forall k :: 0 <= k < |rows| ==> r[k] == ToRow(rows[k], ti)
  {
    if rows == [] then [] else [ToRow(rows[0], ti)] + ParseRows(rows[1..], ti)
  }

  // ---------------------------------------------------------------------
  // The pipeline

  /** `standardize(df)`. */
  function Standardize(f: Frame): (r: Result<Cleaned, CleanError>)
    requires Rectangular(f)
    ensures r.Success? <==>
      && FindTimestamp(NormalizeColumns(f.columns)).Success?
      && TimestampsParse(f.rows, FindTimestamp(NormalizeColumns(f.columns)).value)
      && ValuesNumeric(f.rows, FindTimestamp(NormalizeColumns(f.columns)).value)
    ensures r.Success? ==>
      var ti := FindTimestamp(NormalizeColumns(f.columns)).value;
      && r.value.columns == RemoveAt(NormalizeColumns(f.columns), ti)
      && r.value.rows == Hourly(ParseRows(f.rows, ti), |f.columns| - 1)
  {
    var names := NormalizeColumns(f.columns);
    match FindTimestamp(names)
    case Failure(e) => Failure(e)
    case Success(ti) =>
      if !TimestampsParse(f.rows, ti) then Failure(UnparseableTimestamp)
      else if !ValuesNumeric(f.rows, ti) then Failure(NonNumericValue)
      else Success(Cleaned(RemoveAt(names, ti), HourlyFrame(f.rows, ti, |f.columns| - 1)))
  }

  /** Lines 6-13 on the parsed rows: sort, resample, drop incomplete
      hours; the result is the reference definition's, whatever the order
      of the rows. */
  function HourlyFrame(rows: seq<seq<Cell>>, ti: nat, ncols: nat): (r: seq<HourRow>)
    ensures r == Hourly(ParseRows(rows, ti), ncols)
  {
    var parsed := ParseRows(rows, ti);
    var sorted := SortByTime(parsed);
    HourlyOfSorted(parsed, sorted, ncols);
    DropIncomplete(Resample(sorted, ncols))
  }


  // ---------------------------------------------------------------------
  // Properties of the pipeline

  /** The error cases, in the order `standardize` meets them: no column
      renamed to `timestamp`, two of them, a timestamp that does not parse,
      a value that is not numeric. */
  lemma StandardizeErrors(f: Frame)
    requires Rectangular(f)
    ensures var names := NormalizeColumns(f.columns);
      && (Standardize(f) == Failure(MissingTimestampColumn) <==>
            forall c :: c in f.columns ==> Normalize(c) != TimestampColumn)
      && (Standardize(f) == Failure(DuplicateTimestampColumn) <==>
            exists i, j :: 0 <= i < j < |names| && names[i] == TimestampColumn && names[j] == TimestampColumn)
      && (Standardize(f) == Failure(UnparseableTimestamp) <==>
            FindTimestamp(names).Success? && !TimestampsParse(f.rows, FindTimestamp(names).value))
      && (Standardize(f) == Failure(NonNumericValue) <==>
            && FindTimestamp(names).Success?
            && TimestampsParse(f.rows, FindTimestamp(names).value)
            && !ValuesNumeric(f.rows, FindTimestamp(names).value))
  {
    var names := NormalizeColumns(f.columns);
    assert TimestampColumn in names <==> exists c :: c in f.columns && Normalize(c) == TimestampColumn;
  }

  /** The result's columns are the renamed input columns, in their order,
      less `timestamp`, which became the index: as a set, every
      `c.lower().strip()` except `"timestamp"`. */
  lemma StandardizeColumns(f: Frame)
    requires Rectangular(f) && Standardize(f).Success?
    ensures var cols := Standardize(f).value.columns;
      && |cols| == |f.columns| - 1
      && TimestampColumn !in cols
      && (forall c :: c in cols ==> IsNormalized(c))
      && Elements(cols) == (set c | c in f.columns :: Normalize(c)) - {TimestampColumn}
  {
    var names := NormalizeColumns(f.columns);
    RemoveOnly(names, FindTimestamp(names).value, TimestampColumn);
    NormalizedNames(f.columns);
    forall i | 0 <= i < |names| ensures IsNormalized(names[i]) {
      NormalizeIsNormalized(f.columns[i]);
    }
  }

  /** Removing the only occurrence of `x` removes `x` and nothing else. */
  lemma RemoveOnly(s: seq<string>, i: nat, x: string)
    requires i < |s| && s[i] == x
    requires forall k :: 0 <= k < |s| && k != i ==> s[k] != x
    ensures x !in RemoveAt(s, i)
    ensures Elements(RemoveAt(s, i)) == Elements(s) - {x}
  {
    var r := RemoveAt(s, i);
    forall c | c in r ensures c in s && c != x {
      var k :| 0 <= k < |r| && r[k] == c;
      assert c == s[if k < i then k else k + 1];
    }
    forall k | 0 <= k < |s| && k != i ensures s[k] in r {
      assert r[if k < i then k else k - 1] == s[k];
    }
  }

  /** The renamed columns, as a set: every `c.lower().strip()`. */
  lemma NormalizedNames(columns: seq<string>)
    ensures Elements(NormalizeColumns(columns)) == set c | c in columns :: Normalize(c)
  {
    var names := NormalizeColumns(columns);
    forall d | d in columns ensures Normalize(d) in names {
      var i :| 0 <= i < |columns| && columns[i] == d;
      assert names[i] == Normalize(d);
    }
  }

  lemma {:induction false} ParseRowsConcat(a: seq<seq<Cell>>, b: seq<seq<Cell>>, ti: nat)
    ensures ParseRows(a + b, ti) == ParseRows(a, ti) + ParseRows(b, ti)
  {
    if a == [] {
      assert a + b == b;
    } else {
      assert (a + b)[0] == a[0] && (a + b)[1..] == a[1..] + b;
      ParseRowsConcat(a[1..], b, ti);
    }
  }

  lemma {:induction false} ParseRowsPermutation(a: seq<seq<Cell>>, b: seq<seq<Cell>>, ti: nat)
    requires multiset(a) == multiset(b)
    ensures multiset(ParseRows(a, ti)) == multiset(ParseRows(b, ti))
    decreases |a|
  {
    if a == [] {
      assert |b| == |multiset(b)| == 0;
    } else {
      var k := PickFirst(a, b);
      var front, back := b[..k], b[k + 1..];
      ParseRowsPermutation(a[1..], front + back, ti);
      ParseRowsConcat(front, back, ti);
      ParseRowsConcat(front, [b[k]] + back, ti);
      ParseRowsConcat([b[k]], back, ti);
      var pf, pk, pb := ParseRows(front, ti), ParseRows([b[k]], ti), ParseRows(back, ti);
      assert [b[k]][1..] == [];
      assert pk == [ToRow(a[0], ti)];
      assert ParseRows(b, ti) == pf + (pk + pb);
      assert ParseRows(a, ti) == pk + ParseRows(a[1..], ti);
      MultisetSwap(pf, pk, pb);
    }
  }

  /** `standardize` does not depend on the order of the input rows: the
      sort and the order-independent mean absorb it. */
  lemma StandardizePermutation(f: Frame, g: Frame)
    requires Rectangular(f)
    requires g.columns == f.columns && multiset(g.rows) == multiset(f.rows)
    ensures Rectangular(g)
    ensures Standardize(g) == Standardize(f)
  {
    forall r | r in g.rows ensures r in f.rows { assert r in multiset(g.rows); }
    var names := NormalizeColumns(f.columns);
    if FindTimestamp(names).Success? {
      var ti := FindTimestamp(names).value;
      SameRowsSameChecks(f.rows, g.rows, ti);
      if !TimestampsParse(f.rows, ti) {
        assert Standardize(f) == Failure(UnparseableTimestamp) == Standardize(g);
      } else if !ValuesNumeric(f.rows, ti) {
        assert Standardize(f) == Failure(NonNumericValue) == Standardize(g);
      } else {
        ParseRowsPermutation(f.rows, g.rows, ti);
        HourlyPermutation(ParseRows(f.rows, ti), ParseRows(g.rows, ti), |f.columns| - 1);
      }
    } else {
      assert Standardize(f) == Failure(FindTimestamp(names).error) == Standardize(g);
    }
  }

  /** The parse checks look at the rows only as a multiset. */
  lemma SameRowsSameChecks(a: seq<seq<Cell>>, b: seq<seq<Cell>>, ti: nat)
    requires multiset(a) == multiset(b)
    ensures TimestampsParse(a, ti) == TimestampsParse(b, ti)
    ensures ValuesNumeric(a, ti) == ValuesNumeric(b, ti)
  {
    forall r | r in a ensures r in b { assert r in multiset(a); }
    forall r | r in b ensures r in a { assert r in multiset(b); }
  }

  /** Two labels that normalise alike are not an error: both survive, as
      two columns of the same name (`"Consumption "` and `"consumption"`,
      say), each at its place among the labels other than `timestamp`. */
  lemma NoCollisionError(f: Frame, i: nat, j: nat)
    requires Rectangular(f) && FindTimestamp(NormalizeColumns(f.columns)).Success?
    requires TimestampsParse(f.rows, FindTimestamp(NormalizeColumns(f.columns)).value)
    requires ValuesNumeric(f.rows, FindTimestamp(NormalizeColumns(f.columns)).value)
    requires i < j < |f.columns|
    requires Normalize(f.columns[i]) == Normalize(f.columns[j]) != TimestampColumn
    ensures Standardize(f).Success?
    ensures var ti := FindTimestamp(NormalizeColumns(f.columns)).value;
      var cols := Standardize(f).value.columns;
      var i', j' := if i < ti then i else i - 1, if j < ti then j else j - 1;
      && i' < j' < |cols|
      && cols[i'] == cols[j'] == Normalize(f.columns[i])
  {
    var names := NormalizeColumns(f.columns);
    var ti := FindTimestamp(names).value;
    assert names[i] == Normalize(f.columns[i]) && names[j] == Normalize(f.columns[j]);
    assert i != ti && j != ti;
    var cols := RemoveAt(names, ti);
    assert Standardize(f).Success? && Standardize(f).value.columns == cols;
    RemoveAtKeeps(names, ti, i);
    RemoveAtKeeps(names, ti, j);
  }

  /** Removing position `t` moves every later element one place down. */
  lemma RemoveAtKeeps<T>(s: seq<T>, t: nat, k: nat)
    requires t < |s| && k < |s| && k != t
    ensures (if k < t then k else k - 1) < |RemoveAt(s, t)|
    ensures RemoveAt(s, t)[if k < t then k else k - 1] == s[k]
  {
  }

  lemma RemoveFirst(a: string, b: string, c: string)
    ensures RemoveAt([a, b, c], 0) == [b, c]
  {
  }

  lemma CollidingNames()
    ensures Normalize("Consumption ") == Normalize("consumption") == "consumption"
  {
    NormalizeConsumption();
    NormalizeFixesNormalized("consumption");
  }

  // ---------------------------------------------------------------------
  // The frame of tests/test_clean.py

  /** 2023-01-01 12:00:00 UTC, in seconds since the epoch. */
  const Noon: int := 1672574400

  const SampleColumns: seq<string> := ["TimeStamp", "Consumption ", "SOLAR"]

  /** Four half-hourly readings over two hours, one solar reading missing. */
  function SampleFrame(): Frame {
    Frame(SampleColumns,
          [[Time(Noon), Num(10.5), Num(5.0)],
           [Time(Noon + 1800), Num(11.0), Num(5.5)],
           [Time(Noon + 3600), Num(12.5), Num(6.0)],
           [Time(Noon + 5400), Num(13.0), Missing]])
  }

  /** The renamed columns of the sample frame. */
  lemma SampleNames()
    ensures NormalizeColumns(SampleColumns) == ["timestamp", "consumption", "solar"]
  {
    NormalizeThree("TimeStamp", "Consumption ", "SOLAR");
    NormalizeTimeStamp();
    NormalizeConsumption();
    NormalizeSolar();
  }

  lemma NormalizeThree(a: string, b: string, c: string)
    ensures NormalizeColumns([a, b, c]) == [Normalize(a), Normalize(b), Normalize(c)]
  {
  }

  lemma NormalizeTimeStamp()
    ensures Normalize("TimeStamp") == "timestamp"
  {
    assert Lower("TimeStamp") == "timestamp";
    NormalizeFixesNormalized("timestamp");
  }

  lemma NormalizeConsumption()
    ensures Normalize("Consumption ") == "consumption"
  {
    assert Lower("Consumption ") == "consumption ";
    assert TrimStart("consumption ") == "consumption ";
    TrimConsumption();
  }

  lemma TrimConsumption()
    ensures TrimEnd("consumption ") == "consumption"
  {
    assert "consumption "[..11] == "consumption";
  }

  lemma NormalizeSolar()
    ensures Normalize("SOLAR") == "solar"
  {
    assert Lower("SOLAR") == "solar";
    NormalizeFixesNormalized("solar");
  }

  /** The sample rows once `timestamp` is the index, one per half hour. */
  const Reading1200 := Row(Noon, [Some(10.5), Some(5.0)])
  const Reading1230 := Row(Noon + 1800, [Some(11.0), Some(5.5)])
  const Reading1300 := Row(Noon + 3600, [Some(12.5), Some(6.0)])
  const Reading1330 := Row(Noon + 5400, [Some(13.0), None])
  const SampleRows: seq<Row> := [Reading1200, Reading1230, Reading1300, Reading1330]

  lemma ToRowThree(t: int, x: Cell, y: Cell)
    ensures ToRow([Time(t), x, y], 0) == Row(t, [ValueOf(x), ValueOf(y)])
  {
    assert RemoveAt([Time(t), x, y], 0) == [x, y];
  }

  lemma ParseRowsFour(a: seq<Cell>, b: seq<Cell>, c: seq<Cell>, d: seq<Cell>, ti: nat)
    ensures ParseRows([a, b, c, d], ti) == [ToRow(a, ti), ToRow(b, ti), ToRow(c, ti), ToRow(d, ti)]
  {
    assert [a, b, c, d][1..] == [b, c, d];
    assert [b, c, d][1..] == [c, d];
    assert [c, d][1..] == [d];
    assert ParseRows([d], ti) == [ToRow(d, ti)];
    assert ParseRows([c, d], ti) == [ToRow(c, ti), ToRow(d, ti)];
    assert ParseRows([b, c, d], ti) == [ToRow(b, ti), ToRow(c, ti), ToRow(d, ti)];
  }

  lemma SampleParsed()
    ensures ParseRows(SampleFrame().rows, 0) == SampleRows
  {
    ParseRowsFour([Time(Noon), Num(10.5), Num(5.0)], [Time(Noon + 1800), Num(11.0), Num(5.5)],
                  [Time(Noon + 3600), Num(12.5), Num(6.0)], [Time(Noon + 5400), Num(13.0), Missing], 0);
    ToRowThree(Noon, Num(10.5), Num(5.0));
    ToRowThree(Noon + 1800, Num(11.0), Num(5.5));
    ToRowThree(Noon + 3600, Num(12.5), Num(6.0));
    ToRowThree(Noon + 5400, Num(13.0), Missing);
  }

  lemma InHourTwo(r: Row, s: Row, h: int)
    ensures InHour([r, s], h) ==
      (if HourOf(r.time) == h then [r] else []) + (if HourOf(s.time) == h then [s] else [])
  {
    assert [r, s][1..] == [s];
    assert [s][1..] == [];
    assert InHour([s], h) == (if HourOf(s.time) == h then [s] else []);
  }

  lemma InHourFour(a: Row, b: Row, c: Row, d: Row, h: int)
    ensures InHour([a, b, c, d], h) ==
      (if HourOf(a.time) == h then [a] else []) + (if HourOf(b.time) == h then [b] else []) +
      ((if HourOf(c.time) == h then [c] else []) + (if HourOf(d.time) == h then [d] else []))
  {
    assert [a, b, c, d] == [a, b] + [c, d];
    InHourConcat([a, b], [c, d], h);
    InHourTwo(a, b, h);
    InHourTwo(c, d, h);
  }

  /** 12:00 and 12:30 fall in the noon hour, 13:00 and 13:30 in the next. */
  lemma SampleHours()
    ensures HourOf(Noon) == Noon && HourOf(Noon + 1800) == Noon
    ensures HourOf(Noon + 3600) == HourAfter(Noon, 1) && HourOf(Noon + 5400) == HourAfter(Noon, 1)
    ensures HourAfter(Noon, 0) == Noon
  {
  }

  /** The sample rows fall in two hours, two rows each. */
  lemma SampleBuckets()
    ensures InHour(SampleRows, HourAfter(Noon, 0)) == [Reading1200, Reading1230]
    ensures InHour(SampleRows, HourAfter(Noon, 1)) == [Reading1300, Reading1330]
  {
    SampleHours();
    InHourFour(Reading1200, Reading1230, Reading1300, Reading1330, HourAfter(Noon, 0));
    InHourFour(Reading1200, Reading1230, Reading1300, Reading1330, HourAfter(Noon, 1));
  }

  lemma PresentTwo(r: Row, s: Row, j: nat)
    ensures Present([r, s], j) == PresentIn(r, j) + PresentIn(s, j)
  {
    assert [r, s][1..] == [s];
    assert [s][1..] == [];
    assert Present([s], j) == PresentIn(s, j);
  }

  lemma MeansTwo(r: Row, s: Row)
    ensures Means([r, s], 2) == [Mean(PresentIn(r, 0) + PresentIn(s, 0)), Mean(PresentIn(r, 1) + PresentIn(s, 1))]
  {
    PresentTwo(r, s, 0);
    PresentTwo(r, s, 1);
  }

  lemma SampleMeans()
    ensures Means([Reading1200, Reading1230], 2) == [Some(10.75), Some(5.25)]
    ensures Means([Reading1300, Reading1330], 2) == [Some(12.75), Some(6.0)]
  {
    MeansTwo(Reading1200, Reading1230);
    MeansTwo(Reading1300, Reading1330);
    assert Sum([10.5, 11.0]) == 21.5;
    assert Sum([5.0, 5.5]) == 10.5;
    assert Sum([12.5, 13.0]) == 25.5;
    assert Sum([6.0]) == 6.0;
  }

  lemma SampleSpan()
    ensures MinTime(SampleRows) == Noon && MaxTime(SampleRows) == Noon + 5400
  {
    assert SampleRows[0].time == Noon && SampleRows[3].time == Noon + 5400;
  }

  /** A frame whose readings span two adjacent hours resamples to their two bins. */
  lemma HourlyMeansTwoHours(rows: seq<Row>, ncols: nat, h: int)
    requires rows != [] && HourOf(MinTime(rows)) == h && HourOf(MaxTime(rows)) == HourAfter(h, 1)
    ensures HourlyMeans(rows, ncols) == [BinAt(rows, HourAfter(h, 0), ncols), BinAt(rows, HourAfter(h, 1), ncols)]
  {
    HourlyMeansShape(rows, ncols);
    var hm := HourlyMeans(rows, ncols);
    assert BinCount(h, HourAfter(h, 1)) == 2;
    assert hm == [hm[0], hm[1]];
  }

  lemma SampleBins()
    ensures HourlyMeans(SampleRows, 2) ==
      [Bin(Noon, [Some(10.75), Some(5.25)]), Bin(Noon + 3600, [Some(12.75), Some(6.0)])]
  {
    SampleSpan();
    SampleHours();
    HourlyMeansTwoHours(SampleRows, 2, Noon);
    SampleBuckets();
    SampleMeans();
    assert HourAfter(Noon, 1) == Noon + 3600;
  }

  lemma UnwrapTwo(x: real, y: real)
    ensures Unwrap([Some(x), Some(y)]) == [x, y]
  {
  }

  lemma DropIncompleteTwo(s: int, x0: real, x1: real, t: int, y0: real, y1: real)
    ensures DropIncomplete([Bin(s, [Some(x0), Some(x1)]), Bin(t, [Some(y0), Some(y1)])]) ==
      [HourRow(s, [x0, x1]), HourRow(t, [y0, y1])]
  {
    var a, b := Bin(s, [Some(x0), Some(x1)]), Bin(t, [Some(y0), Some(y1)]);
    assert Complete(a) && Complete(b);
    UnwrapTwo(x0, x1);
    UnwrapTwo(y0, y1);
    assert [a, b][1..] == [b];
    assert [b][1..] == [];
    assert DropIncomplete([b]) == [HourRow(t, [y0, y1])];
  }

  /** Two hours, 12:00 and 13:00, both complete. */
  lemma SampleHourly()
    ensures Hourly(SampleRows, 2) == [HourRow(Noon, [10.75, 5.25]), HourRow(Noon + 3600, [12.75, 6.0])]
  {
    SampleBins();
    DropIncompleteTwo(Noon, 10.75, 5.25, Noon + 3600, 12.75, 6.0);
  }

  /** The two hourly means the tests expect, and no hour dropped: the
      missing solar reading at 13:30 leaves the mean of the other one. */
  lemma SampleStandardized()
    ensures Standardize(SampleFrame()) ==
      Success(Cleaned(["consumption", "solar"],
                      [HourRow(Noon, [10.75, 5.25]), HourRow(Noon + 3600, [12.75, 6.0])]))
  {
    var f := SampleFrame();
    SampleNames();
    SampleChecks();
    SampleParsed();
    SampleHourly();
    RemoveFirst("timestamp", "consumption", "solar");
  }

  /** The renamed frame has one `timestamp` column, first, holding only
      timestamps; the other cells are numbers or missing. */
  lemma SampleChecks()
    ensures FindTimestamp(["timestamp", "consumption", "solar"]) == Success(0)
    ensures TimestampsParse(SampleFrame().rows, 0) && ValuesNumeric(SampleFrame().rows, 0)
  {
    var names: seq<string> := ["timestamp", "consumption", "solar"];
    assert names[0] == TimestampColumn;
    assert names[1] != TimestampColumn by { assert names[1][0] != TimestampColumn[0]; }
    assert names[2] != TimestampColumn by { assert names[2][0] != TimestampColumn[0]; }
  }
}
