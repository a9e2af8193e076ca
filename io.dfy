/** The decisions of src/microgrid_eda/io.py around its file effects:
    `validate_schema`, what `load_raw_data` does with the table `read_csv`
    returned, and the two checks `save_processed_data` makes before it
    writes.  A table is seen only through its column labels, whether its
    index is a DatetimeIndex, and which columns hold a missing cell. */
module Io {
  import opened Wrappers
  import opened Text

  /** The measurement columns every raw file must carry (io.py line 13). */
  const ExpectedMeasurementColumns: seq<string> := ["Consumption", "Solar", "Wind"]

  /** A DataFrame as the checks see it. */
  datatype Table = Table(columns: seq<string>, datetimeIndex: bool, missingIn: set<string>)

  datatype SchemaError =
    | MissingColumns(names: seq<string>)  // the required names absent, sorted
    | TimestampNotFound(column: string)   // no such column and no DatetimeIndex

  // ---------------------------------------------------------------------
  // validate_schema (io.py lines 21-38)

  /** The required names that are not column labels, compared exactly. */
  function MissingNames(required: seq<string>, columns: seq<string>): (r: seq<string>)
    ensures forall x :: x in r <==> x in required && x !in columns
  {
    if required == [] then []
    else (if required[0] in columns then [] else [required[0]]) + MissingNames(required[1..], columns)
  }

  /** `validate_schema(df, required, timestamp_col)`. */
  function ValidateSchema(t: Table, required: seq<string>, timestampCol: string): (r: Outcome<SchemaError>)
    ensures (r.Fail? && r.error.MissingColumns?) <==> exists x :: x in required && x !in t.columns
    ensures r.Fail? && r.error.MissingColumns? ==>
      && StrictlySorted(r.error.names)
      && Elements(r.error.names) == Elements(required) - Elements(t.columns)
    ensures (forall x :: x in required ==> x in t.columns) ==>
      && (r == Pass <==> timestampCol in t.columns || t.datetimeIndex)
      && (r != Pass ==> r == Fail(TimestampNotFound(timestampCol)))
  {
    var missing := SortedDistinct(MissingNames(required, t.columns));
    if missing != [] then
      Fail(MissingColumns(missing))
    else
      assert forall x :: x in required ==> x in Elements(missing) || x in t.columns;
      if timestampCol !in t.columns && !t.datetimeIndex then Fail(TimestampNotFound(timestampCol))
      else Pass
  }

  /** The check sees the required names only as a set: order and
      repetition do not change the verdict or the message. */
  lemma ValidateSchemaSetOnly(t: Table, a: seq<string>, b: seq<string>, timestampCol: string)
    requires Elements(a) == Elements(b)
    ensures ValidateSchema(t, a, timestampCol) == ValidateSchema(t, b, timestampCol)
  {
    var ma := SortedDistinct(MissingNames(a, t.columns));
    var mb := SortedDistinct(MissingNames(b, t.columns));
    assert Elements(ma) == Elements(mb) by {
      forall x ensures x in Elements(ma) <==> x in Elements(mb) {
        assert x in Elements(a) <==> x in Elements(b);
      }
    }
    StrictlySortedUnique(ma, mb);
  }

  // ---------------------------------------------------------------------
  // load_raw_data (io.py lines 68-105)

  /** What `read_csv` returned: the header, in file order, and the columns
      with an empty or NaN cell.  `read_csv` renames repeated header labels,
      so the labels are distinct. */
  datatype Csv = Csv(columns: seq<string>, missingIn: set<string>)

  datatype LoadError =
    | FileNotFound
    | ReadFailed                          // `read_csv` raised; re-raised
    | TimestampNotDatetime(column: string)
    | InvalidSchema(error: SchemaError)

  /** The labels other than `x`, in their order. */
  function Without(s: seq<string>, x: string): (r: seq<string>)
    ensures forall y :: y in r <==> y in s && y != x
    ensures |r| <= |s|
  {
    if s == [] then []
    else (if s[0] == x then [] else [s[0]]) + Without(s[1..], x)
  }

  /** Lines 88-100: a timestamp column moves into the index, parsed with
      `errors="coerce"`, which always yields datetimes; unparsed, the
      labels `read_csv` produced are strings or numbers, never datetimes.
      Without such a column the index stays the RangeIndex of `read_csv`. */
  function SetTimestampIndex(csv: Csv, timestampCol: string, parseDates: bool): (r: Result<Table, LoadError>)
    ensures r.Failure? <==> timestampCol in csv.columns && !parseDates
    ensures r.Failure? ==> r.error == TimestampNotDatetime(timestampCol)
    ensures r.Success? ==>
      && timestampCol !in r.value.columns
      && (forall y :: y in r.value.columns <==> y in csv.columns && y != timestampCol)
      && (r.value.datetimeIndex <==> timestampCol in csv.columns)
      && (forall y :: y in r.value.missingIn <==> y in csv.missingIn && (y != timestampCol || timestampCol !in csv.columns))
    ensures timestampCol !in csv.columns ==> r.Success? && r.value.columns == csv.columns
  {
    if timestampCol in csv.columns then
      if parseDates then Success(Table(Without(csv.columns, timestampCol), true, csv.missingIn - {timestampCol}))
      else Failure(TimestampNotDatetime(timestampCol))
    else
      Success(Table(csv.columns, false, csv.missingIn))
  }

  /** The required names `load_raw_data` checks: the three expected ones
      when the caller passes none (lines 72-73). */
  function RequiredOrDefault(required: Option<seq<string>>): (r: seq<string>)
    ensures required.None? ==> r == ExpectedMeasurementColumns
    ensures required.Some? ==> r == required.value
  {
    if required.None? then ExpectedMeasurementColumns else required.value
  }

  /** `load_raw_data(filepath, timestamp_col, required_measurements,
      parse_dates)`: whether the file exists and what reading it gave are
      parameters; `None` for `read` is a read that raised.  A load succeeds
      exactly when the file was found and read, the timestamp column was
      there and parsed into a DatetimeIndex, and every required name is
      among the other columns, which keep their file order.  Each other
      outcome is the error of its first failing step: without the
      timestamp column the RangeIndex of `read_csv` fails the schema. */
  function LoadRawData(fileExists: bool, read: Option<Csv>, timestampCol: string,
                       required: Option<seq<string>>, parseDates: bool): (r: Result<Table, LoadError>)
    ensures !fileExists ==> r == Failure(FileNotFound)
    ensures fileExists && read.None? ==> r == Failure(ReadFailed)
    ensures r.Success? ==>
      && fileExists && read.Some? && parseDates && timestampCol in read.value.columns
      && r.value.columns == Without(read.value.columns, timestampCol)
      && r.value.datetimeIndex
      && timestampCol !in r.value.columns
      && r.value.missingIn == read.value.missingIn - {timestampCol}
      && forall x :: x in RequiredOrDefault(required) ==> x in r.value.columns
    ensures (&& fileExists && read.Some? && parseDates && timestampCol in read.value.columns
             && forall x :: x in RequiredOrDefault(required) ==> x in Without(read.value.columns, timestampCol))
            ==> r.Success?
    ensures (fileExists && read.Some? && timestampCol in read.value.columns && !parseDates)
            ==> r == Failure(TimestampNotDatetime(timestampCol))
    ensures (&& fileExists && read.Some? && (timestampCol in read.value.columns ==> parseDates)
             && exists x :: x in RequiredOrDefault(required) && x !in Without(read.value.columns, timestampCol))
            ==> (&& r.Failure? && r.error.InvalidSchema? && r.error.error.MissingColumns?
                 && Elements(r.error.error.names) ==
                    Elements(RequiredOrDefault(required)) - Elements(Without(read.value.columns, timestampCol)))
    ensures (&& fileExists && read.Some? && timestampCol !in read.value.columns
             && forall x :: x in RequiredOrDefault(required) ==> x in read.value.columns)
            ==> r == Failure(InvalidSchema(TimestampNotFound(timestampCol)))
  {
    if !fileExists then Failure(FileNotFound)
    else
      var req := RequiredOrDefault(required);
      match read
      case None => Failure(ReadFailed)
      case Some(csv) =>
        match SetTimestampIndex(csv, timestampCol, parseDates)
        case Failure(e) => Failure(e)
        case Success(t) =>
          match ValidateSchema(t, req, timestampCol)
          case Fail(e) => Failure(InvalidSchema(e))
          case Pass => Success(t)
  }

  /** Omitting the required names means the three expected ones. */
  lemma LoadDefaultRequired(fileExists: bool, read: Option<Csv>, timestampCol: string, parseDates: bool)
    ensures LoadRawData(fileExists, read, timestampCol, None, parseDates)
         == LoadRawData(fileExists, read, timestampCol, Some(ExpectedMeasurementColumns), parseDates)
  {
  }

  /** Removing the one occurrence of the timestamp label keeps the other
      labels exactly, in their order. */
  lemma {:induction false} WithoutOne(s: seq<string>, i: nat)
    requires i < |s|
    requires forall k :: 0 <= k < |s| && k != i ==> s[k] != s[i]
    ensures Without(s, s[i]) == s[..i] + s[i + 1..]
  {
    if i == 0 {
      WithoutNone(s[1..], s[0]);
    } else {
      assert s[1..][i - 1] == s[i];
      WithoutOne(s[1..], i - 1);
      assert s[1..][..i - 1] + s[1..][i..] == s[1..i] + s[i + 1..];
      assert s[..i] == [s[0]] + s[1..i];
    }
  }

  lemma {:induction false} WithoutNone(s: seq<string>, x: string)
    requires x !in s
    ensures Without(s, x) == s
  {
    if s != [] {
      WithoutNone(s[1..], x);
      assert s == [s[0]] + s[1..];
    }
  }

  // ---------------------------------------------------------------------
  // save_processed_data (io.py lines 124-140)

  predicate HasMissing(t: Table) {
    exists c :: c in t.columns && c in t.missingIn
  }

  datatype Format = CsvFormat | ParquetFormat

  datatype SaveError =
    | MissingValues              // `fail_on_missing` and a missing cell
    | UnsupportedFormat(fmt: string)

  /** The checks before the write: the missing-value guard, then the
      format, compared lower-cased.  The result names the writer called. */
  function SaveProcessedData(t: Table, fmt: string, failOnMissing: bool): (r: Result<Format, SaveError>)
    ensures r == Failure(MissingValues) <==> failOnMissing && HasMissing(t)
    ensures r.Failure? && r.error.UnsupportedFormat? ==> r.error.fmt == fmt
  {
    if failOnMissing && HasMissing(t) then Failure(MissingValues)
    else if Lower(fmt) == "csv" then Success(CsvFormat)
    else if Lower(fmt) == "parquet" || Lower(fmt) == "pq" then Success(ParquetFormat)
    else Failure(UnsupportedFormat(fmt))
  }

  /** `fmt` spells the lower-case word `w` in any mix of cases. */
  predicate SpelledAs(fmt: string, w: string) {
    |fmt| == |w| && forall i :: 0 <= i < |w| ==> fmt[i] == w[i] || fmt[i] as int == w[i] as int - 32
  }

  predicate LowerWord(w: string) {
    forall i :: 0 <= i < |w| ==> 'a' <= w[i] <= 'z'
  }

  /** Lower-casing matches a lower-case word exactly when the string spells
      that word letter by letter, each letter in either case. */
  lemma LowerMatches(fmt: string, w: string)
    requires LowerWord(w)
    ensures Lower(fmt) == w <==> SpelledAs(fmt, w)
  {
    if Lower(fmt) == w {
      forall i | 0 <= i < |w| ensures fmt[i] == w[i] || fmt[i] as int == w[i] as int - 32 {
        assert LowerChar(fmt[i]) == w[i];
      }
    }
    if SpelledAs(fmt, w) {
      forall i | 0 <= i < |w| ensures Lower(fmt)[i] == w[i] {
        assert LowerChar(fmt[i]) == w[i];
      }
    }
  }

  /** The guard comes first and fires only when asked to; with the guard
      passed, the format alone decides, in any case of its letters. */
  lemma SaveDecision(t: Table, fmt: string, failOnMissing: bool)
    ensures failOnMissing && HasMissing(t) ==> SaveProcessedData(t, fmt, failOnMissing) == Failure(MissingValues)
    ensures !failOnMissing ==> SaveProcessedData(t, fmt, failOnMissing) != Failure(MissingValues)
    ensures !(failOnMissing && HasMissing(t)) ==>
      && (SaveProcessedData(t, fmt, failOnMissing) == Success(CsvFormat) <==> SpelledAs(fmt, "csv"))
      && (SaveProcessedData(t, fmt, failOnMissing) == Success(ParquetFormat) <==>
            SpelledAs(fmt, "parquet") || SpelledAs(fmt, "pq"))
      && (SaveProcessedData(t, fmt, failOnMissing) == Failure(UnsupportedFormat(fmt)) <==>
            !SpelledAs(fmt, "csv") && !SpelledAs(fmt, "parquet") && !SpelledAs(fmt, "pq"))
  {
    LowerMatches(fmt, "csv");
    LowerMatches(fmt, "parquet");
    LowerMatches(fmt, "pq");
  }

  // ---------------------------------------------------------------------
  // The round trip of tests/test_io.py

  const SampleCsv: Csv := Csv(["index", "Consumption", "Solar", "Wind"], {})

  const SampleTable: Table := Table(["Consumption", "Solar", "Wind"], true, {})

  /** The file with an `index` column of timestamps loads with a
      DatetimeIndex and the three measurement columns, and saves as CSV. */
  lemma SampleLoad()
    ensures LoadRawData(true, Some(SampleCsv), "index", None, true) == Success(SampleTable)
  {
    SampleIndexed();
    SampleValid();
  }

  lemma SampleSave()
    ensures SaveProcessedData(SampleTable, "csv", false) == Success(CsvFormat)
  {
    assert Lower("csv") == "csv";
  }

  lemma SampleIndexed()
    ensures SetTimestampIndex(SampleCsv, "index", true) == Success(SampleTable)
  {
    var cols := SampleCsv.columns;
    assert cols[1] != "index" && cols[2] != "index" && cols[3] != "index";
    assert cols[0] == "index";
    WithoutOne(cols, 0);
    assert cols[..0] + cols[1..] == ["Consumption", "Solar", "Wind"];
    assert SampleCsv.missingIn - {"index"} == {};
  }

  lemma SampleValid()
    ensures ValidateSchema(SampleTable, ExpectedMeasurementColumns, "index") == Pass
  {
    assert forall x :: x in ExpectedMeasurementColumns ==> x in SampleTable.columns;
  }

  // ---------------------------------------------------------------------
  // Exact matching

  /** When none of a sorted, repetition-free list of required names is a
      column, the message lists exactly that list. */
  lemma NoneMatch(t: Table, required: seq<string>, timestampCol: string)
    requires required != [] && StrictlySorted(required)
    requires forall x :: x in required ==> x !in t.columns
    ensures ValidateSchema(t, required, timestampCol) == Fail(MissingColumns(required))
  {
    var r := ValidateSchema(t, required, timestampCol);
    assert required[0] in required;
    StrictlySortedUnique(r.error.names, required);
  }

  lemma ExpectedSorted()
    ensures StrictlySorted(ExpectedMeasurementColumns)
  {
    var e := ExpectedMeasurementColumns;
    assert Less(e[0], e[1]) && Less(e[1], e[2]) && Less(e[0], e[2]);
  }

  /** Lower-case labels do not satisfy the capitalised required names:
      all three are reported, in sorted order, even though the index is a
      DatetimeIndex. */
  lemma CaseSensitiveSchema()
    ensures ValidateSchema(Table(["consumption", "solar", "wind"], true, {}), ExpectedMeasurementColumns, "index")
         == Fail(MissingColumns(["Consumption", "Solar", "Wind"]))
  {
    var cols: seq<string> := ["consumption", "solar", "wind"];
    ExpectedSorted();
    assert forall x :: x in ExpectedMeasurementColumns ==> x !in cols by {
      assert "Consumption"[0] != "consumption"[0];
      assert "Solar"[0] != "solar"[0] && "Wind"[0] != "wind"[0];
    }
    NoneMatch(Table(cols, true, {}), ExpectedMeasurementColumns, "index");
  }

  /** One required name absent: the message names it alone, whatever the
      timestamp check would say. */
  lemma OneMissing(t: Table, required: seq<string>, x: string, timestampCol: string)
    requires x in required && x !in t.columns
    requires forall y :: y in required && y != x ==> y in t.columns
    ensures ValidateSchema(t, required, timestampCol) == Fail(MissingColumns([x]))
  {
    var r := ValidateSchema(t, required, timestampCol);
    assert Elements(required) - Elements(t.columns) == {x};
    StrictlySortedUnique(r.error.names, [x]);
  }

  /** With both checks failing, the missing columns are reported: a
      table without the timestamp column and without a DatetimeIndex, but
      also short of a required name, fails on the required name. */
  lemma MissingColumnsFirst(t: Table, required: seq<string>, timestampCol: string)
    requires exists x :: x in required && x !in t.columns
    requires timestampCol !in t.columns && !t.datetimeIndex
    ensures ValidateSchema(t, required, timestampCol).Fail?
    ensures ValidateSchema(t, required, timestampCol).error.MissingColumns?
    ensures ValidateSchema(t, required, timestampCol) != Fail(TimestampNotFound(timestampCol))
  {
  }
}
