/**
 * The module-level load block of src/app.py: every cached file's rows are concatenated,
 * sorted by (year, month), cleared of the -9999 sentinel in every column, given a day of 1
 * and a date, and the two hemisphere codes are relabelled in place.
 */
module Loader {
  import opened Wrappers

  /** The value the archive files use for an unrecorded cell. */
  const Sentinel: int := -9999

  /** The region codes as read from the files: six spaces, then the hemisphere letter. */
  const SouthCode: string := "      S"
  const NorthCode: string := "      N"

  /** A row as read_csv returns it: year, month (column " mo"), region, extent and area. */
  datatype RawRow = RawRow(year: int, month: int, region: string, extent: real, area: real)

  /** A row after the sentinel was replaced by pandas' missing marker in every column. */
  datatype Record = Record(year: Option<int>, month: Option<int>, region: string,
                           extent: Option<real>, area: Option<real>)

  /** A calendar date (a pandas Timestamp at midnight). */
  datatype Date = Date(year: int, month: int, day: int)

  /** A row of the loaded table, with the day column and the Date column. */
  datatype Row = Row(year: Option<int>, month: Option<int>, region: string,
                     extent: Option<real>, area: Option<real>, day: int, date: Option<Date>)

  /**
   * Why the load block aborts: pd.concat refuses an empty list of files (the directory
   * exists but holds none), or to_datetime refuses a year/month pair that is not a date.
   */
  datatype LoadError = NoFiles | InvalidDate(year: int, month: int)

  // ---------------------------------------------------------------- concatenation

  /** pd.concat of the per-file row sequences, in listing order. */
  function Concat(files: seq<seq<RawRow>>): (rows: seq<RawRow>)
    ensures forall i, j :: 0 <= i < |files| && 0 <= j < |files[i]| ==> files[i][j] in rows
    ensures forall r :: r in rows ==> exists i :: 0 <= i < |files| && r in files[i]
  {
    if files == [] then [] else files[0] + Concat(files[1..])
  }

  /**
   * Concatenation keeps every row once and in file order: a single file is itself,
   * and concatenating two runs of files appends their concatenations.
   */
  lemma {:induction false} ConcatAppend(a: seq<seq<RawRow>>, b: seq<seq<RawRow>>)
    ensures Concat(a + b) == Concat(a) + Concat(b)
    ensures |a| == 1 ==> Concat(a) == a[0]
  {
    if a == [] {
      assert a + b == b;
    } else {
      assert (a + b)[1..] == a[1..] + b;
      ConcatAppend(a[1..], b);
      assert a[0] + (Concat(a[1..]) + Concat(b)) == (a[0] + Concat(a[1..])) + Concat(b);
      if |a| == 1 {
        assert a[1..] == [];
      }
    }
  }

  // ---------------------------------------------------------------- sorting

  /** The sort key of sort_values(['year', ' mo']). */
  function Key(r: RawRow): (int, int) {
    (r.year, r.month)
  }

  /** Lexicographic order on (year, month). */
  predicate Before(a: (int, int), b: (int, int)) {
    a.0 < b.0 || (a.0 == b.0 && a.1 <= b.1)
  }

  predicate SortedRaw(rows: seq<RawRow>) {
    forall i, j :: 0 <= i < j < |rows| ==> Before(Key(rows[i]), Key(rows[j]))
  }

  function Insert(x: RawRow, rows: seq<RawRow>): (r: seq<RawRow>)
    requires SortedRaw(rows)
    ensures SortedRaw(r)
    ensures multiset(r) == multiset(rows) + multiset{x}
  {
    if rows == [] || Before(Key(x), Key(rows[0])) then [x] + rows
    else
      SortedTail(rows);
      var rest := Insert(x, rows[1..]);
      BelowAll(rows[0], x, rows[1..], rest);
      ConsSortedRaw(rows[0], rest);
      assert rows == [rows[0]] + rows[1..];
      [rows[0]] + rest
  }

  /** The tail of a sorted sequence is sorted, and its head is not after any of it. */
  lemma SortedTail(rows: seq<RawRow>)
    requires SortedRaw(rows) && rows != []
    ensures SortedRaw(rows[1..])
    ensures forall k :: 0 <= k < |rows[1..]| ==> Before(Key(rows[0]), Key(rows[1..][k]))
  {
    forall k | 0 <= k < |rows[1..]| ensures Before(Key(rows[0]), Key(rows[1..][k])) {
      assert rows[1..][k] == rows[k + 1];
    }
  }

  /** A row not after any row of a sorted sequence can be put in front of it. */
  lemma ConsSortedRaw(y: RawRow, rest: seq<RawRow>)
    requires SortedRaw(rest)
    requires forall k :: 0 <= k < |rest| ==> Before(Key(y), Key(rest[k]))
    ensures SortedRaw([y] + rest)
  {
    var r := [y] + rest;
    forall i, j | 0 <= i < j < |r| ensures Before(Key(r[i]), Key(r[j])) {
      assert r[j] == rest[j - 1];
      if i > 0 {
        assert r[i] == rest[i - 1];
      }
    }
  }

  /** A row not after `x` nor after any of `rows` is not after anything in a permutation of both. */
  lemma BelowAll(y: RawRow, x: RawRow, rows: seq<RawRow>, rest: seq<RawRow>)
    requires multiset(rest) == multiset(rows) + multiset{x}
    requires Before(Key(y), Key(x))
    requires forall k :: 0 <= k < |rows| ==> Before(Key(y), Key(rows[k]))
    ensures forall k :: 0 <= k < |rest| ==> Before(Key(y), Key(rest[k]))
  {
    forall k | 0 <= k < |rest| ensures Before(Key(y), Key(rest[k])) {
      assert rest[k] in multiset(rest);
      if rest[k] != x {
        assert rest[k] in multiset(rows);
      }
    }
  }

  /**
   * sort_values(['year', ' mo']): a permutation of the input, non-decreasing by
   * (year, month). The files come in listdir's arbitrary order and the north and south
   * files share every (year, month), so nothing is claimed about the
   * order of rows with equal keys.
   */
  function SortByYearMonth(rows: seq<RawRow>): (r: seq<RawRow>)
    ensures SortedRaw(r)
    ensures multiset(r) == multiset(rows)
  {
    if rows == [] then []
    else
      assert rows == [rows[0]] + rows[1..];
      Insert(rows[0], SortByYearMonth(rows[1..]))
  }

  // ---------------------------------------------------------------- missing values

  /** replace(-9999, pd.NA) on an integer cell. */
  function IntCell(v: int): (c: Option<int>)
    ensures c != Some(Sentinel)
    ensures c.None? <==> v == Sentinel
    ensures c.Some? ==> c.value == v
  {
    if v == Sentinel then None else Some(v)
  }

  /** replace(-9999, pd.NA) on a floating-point cell. */
  function RealCell(v: real): (c: Option<real>)
    ensures c != Some(Sentinel as real)
    ensures c.None? <==> v == Sentinel as real
    ensures c.Some? ==> c.value == v
  {
    if v == Sentinel as real then None else Some(v)
  }

  /** replace(-9999, pd.NA) on a row: every numeric column; the region string never equals it. */
  function Replace(r: RawRow): Record {
    Record(IntCell(r.year), IntCell(r.month), r.region, RealCell(r.extent), RealCell(r.area))
  }

  function ReplaceAll(rows: seq<RawRow>): (recs: seq<Record>)
    ensures |recs| == |rows|
    ensures forall i :: 0 <= i < |rows| ==> recs[i] == Replace(rows[i])
  {
    seq(|rows|, i requires 0 <= i < |rows| => Replace(rows[i]))
  }

  // ---------------------------------------------------------------- day and date

  /** to_datetime of (year, month, day): NaT when a part is missing, an error when it is no date. */
  function ToDatetime(year: Option<int>, month: Option<int>, day: int): Result<Option<Date>, LoadError> {
    if year.None? || month.None? then Success(None)
    else if 1 <= month.value <= 12 then Success(Some(Date(year.value, month.value, day)))
    else Failure(InvalidDate(year.value, month.value))
  }

  /** A record whose year and month are both present but whose month is no month of the year. */
  predicate BadDate(rec: Record) {
    rec.year.Some? && rec.month.Some? && !(1 <= rec.month.value <= 12)
  }

  /** The row a record becomes once the day column (1) and the Date column are added. */
  function Dated(rec: Record, date: Option<Date>): Row {
    Row(rec.year, rec.month, rec.region, rec.extent, rec.area, 1, date)
  }

  /**
   * data['day'] = 1, the rename of " mo" to "month" (the model already calls it month) and
   * data['Date'] = pd.to_datetime(...): fails iff some record is no date; otherwise every
   * row keeps its cells, gets day 1, and is dated (year, month, 1) exactly when both are present.
   */
  function WithDates(recs: seq<Record>): (r: Result<seq<Row>, LoadError>)
    ensures r.Failure? <==> exists i :: 0 <= i < |recs| && BadDate(recs[i])
    ensures r.Success? ==> |r.value| == |recs|
    ensures r.Success? ==> forall i :: 0 <= i < |recs| ==>
              && r.value[i].day == 1
              && r.value[i] == Dated(recs[i], r.value[i].date)
              && (r.value[i].date.Some? <==> recs[i].year.Some? && recs[i].month.Some?)
              && (r.value[i].date.Some? ==>
                    r.value[i].date.value == Date(recs[i].year.value, recs[i].month.value, 1))
  {
    if recs == [] then Success([])
    else
      var rec := recs[0];
      match ToDatetime(rec.year, rec.month, 1)
      case Failure(e) => Failure(e)
      case Success(date) =>
        match WithDates(recs[1..])
        case Failure(e) => Failure(e)
        case Success(rest) => Success([Dated(rec, date)] + rest)
  }

  // ---------------------------------------------------------------- region labels

  /** One data.loc[...] assignment: the region cells equal to `code` become `name`. */
  function RelabelRow(row: Row, code: string, name: string): Row {
    if row.region == code then row.(region := name) else row
  }

  function Relabel(rows: seq<Row>, code: string, name: string): (r: seq<Row>)
    ensures |r| == |rows|
    ensures forall i :: 0 <= i < |rows| ==> r[i] == RelabelRow(rows[i], code, name)
  {
    seq(|rows|, i requires 0 <= i < |rows| => RelabelRow(rows[i], code, name))
  }

  /** The label a region code ends up with after both assignments: exact matches only. */
  function RegionLabel(code: string): string {
    if code == SouthCode then "Antarctica" else if code == NorthCode then "Arctic" else code
  }

  /** Lines 64 and 65 in order: south first, then north. */
  function RelabelRegions(rows: seq<Row>): seq<Row> {
    Relabel(Relabel(rows, SouthCode, "Antarctica"), NorthCode, "Arctic")
  }

  /** Relabelling changes only the region, and changes it to RegionLabel of the code. */
  lemma RelabelRegionsSpec(rows: seq<Row>)
    ensures |RelabelRegions(rows)| == |rows|
    ensures forall i :: 0 <= i < |rows| ==>
              RelabelRegions(rows)[i] == rows[i].(region := RegionLabel(rows[i].region))
  {
  }

  /** Only the exact codes are mapped; a trimmed "S" or any other string passes through. */
  lemma RegionLabelExact(code: string)
    ensures code == SouthCode <==> RegionLabel(code) == "Antarctica" && code != "Antarctica"
    ensures code == NorthCode <==> RegionLabel(code) == "Arctic" && code != "Arctic"
    ensures code != SouthCode && code != NorthCode ==> RegionLabel(code) == code
    ensures RegionLabel("S") == "S" && RegionLabel("N") == "N"
  {
  }

  /** Relabelling a relabelled table changes nothing. */
  lemma RelabelRegionsIdempotent(rows: seq<Row>)
    ensures RelabelRegions(RelabelRegions(rows)) == RelabelRegions(rows)
  {
    RelabelRegionsSpec(rows);
    RelabelRegionsSpec(RelabelRegions(rows));
  }

  // ---------------------------------------------------------------- the whole block

  /** The loaded table as the load block computes it, step by step. */
  function Normalised(files: seq<seq<RawRow>>): Result<seq<Row>, LoadError> {
    if files == [] then Failure(NoFiles)
    else match WithDates(ReplaceAll(SortByYearMonth(Concat(files))))
      case Failure(e) => Failure(e)
      case Success(rows) => Success(RelabelRegions(rows))
  }

  /**
   * What the load block does to one row, stated from the raw values: each -9999 cell is
   * missing, every other cell is kept, the region is relabelled, the day is 1, and the row
   * is dated (year, month, 1) unless its year or month is missing.
   */
  function NormaliseRow(raw: RawRow): Row {
    Row(if raw.year == Sentinel then None else Some(raw.year),
        if raw.month == Sentinel then None else Some(raw.month),
        RegionLabel(raw.region),
        if raw.extent == Sentinel as real then None else Some(raw.extent),
        if raw.area == Sentinel as real then None else Some(raw.area),
        1,
        if raw.year == Sentinel || raw.month == Sentinel then None
        else Some(Date(raw.year, raw.month, 1)))
  }

  /** A row to_datetime refuses: year and month recorded, the month not in 1..12. */
  predicate Undatable(raw: RawRow) {
    raw.year != Sentinel && raw.month != Sentinel && !(1 <= raw.month <= 12)
  }

  function NormaliseAll(rows: seq<RawRow>): (r: seq<Row>)
    ensures |r| == |rows|
    ensures forall i :: 0 <= i < |rows| ==> r[i] == NormaliseRow(rows[i])
  {
    if rows == [] then [] else [NormaliseRow(rows[0])] + NormaliseAll(rows[1..])
  }

  /** Dating and relabelling the sorted rows, against the row-wise description. */
  lemma DatedSpec(sorted: seq<RawRow>)
    ensures WithDates(ReplaceAll(sorted)).Failure? <==> exists i :: 0 <= i < |sorted| && Undatable(sorted[i])
    ensures WithDates(ReplaceAll(sorted)).Success? ==>
              RelabelRegions(WithDates(ReplaceAll(sorted)).value) == NormaliseAll(sorted)
  {
    var recs := ReplaceAll(sorted);
    assert forall i :: 0 <= i < |sorted| ==> (BadDate(recs[i]) <==> Undatable(sorted[i]));
    match WithDates(recs)
    case Failure(_) =>
    case Success(rows) =>
      RelabelRegionsSpec(rows);
      var out, ref := RelabelRegions(rows), NormaliseAll(sorted);
      forall i | 0 <= i < |out| ensures out[i] == ref[i] {
        assert rows[i] == Dated(recs[i], rows[i].date);
      }
  }

  /**
   * The step-by-step block agrees with the row-wise description: it fails exactly when a
   * row of some file cannot be dated, and otherwise yields the sorted rows, each normalised.
   */
  lemma NormalisedSpec(files: seq<seq<RawRow>>)
    ensures Normalised(files).Failure? <==> files == [] || exists r :: r in Concat(files) && Undatable(r)
    ensures files == [] ==> Normalised(files) == Failure(NoFiles)
    ensures Normalised(files).Success? ==>
              Normalised(files).value == NormaliseAll(SortByYearMonth(Concat(files)))
  {
    var sorted := SortByYearMonth(Concat(files));
    DatedSpec(sorted);
    if exists r :: r in Concat(files) && Undatable(r) {
      var r :| r in Concat(files) && Undatable(r);
      assert r in multiset(Concat(files));
      assert r in sorted;
    }
    if exists i :: 0 <= i < |sorted| && Undatable(sorted[i]) {
      var i :| 0 <= i < |sorted| && Undatable(sorted[i]);
      assert sorted[i] in multiset(sorted);
      assert sorted[i] in Concat(files);
    }
  }

  /** The cells of a row that could be dated, after normalisation. */
  lemma NormaliseRowCells(raw: RawRow)
    requires !Undatable(raw)
    ensures var row := NormaliseRow(raw);
            && row.year != Some(Sentinel) && row.month != Some(Sentinel)
            && row.extent != Some(Sentinel as real) && row.area != Some(Sentinel as real)
            && row.day == 1
            && (row.date.Some? <==> row.year.Some? && row.month.Some?)
            && (row.date.Some? ==> row.date.value == Date(row.year.value, row.month.value, 1)
                                   && 1 <= row.month.value <= 12)
            && row.region != SouthCode && row.region != NorthCode
  {
    assert "Antarctica" != SouthCode && "Antarctica" != NorthCode;
    assert "Arctic" != SouthCode && "Arctic" != NorthCode;
  }

  /** The sort key a loaded row still carries: a missing year or month was -9999. */
  function RowKey(row: Row): (int, int) {
    (row.year.GetOr(Sentinel), row.month.GetOr(Sentinel))
  }

  predicate SortedRows(rows: seq<Row>) {
    forall i, j :: 0 <= i < j < |rows| ==> Before(RowKey(rows[i]), RowKey(rows[j]))
  }

  /** The loaded table is sorted non-decreasing by (year, month). */
  lemma LoadedSorted(files: seq<seq<RawRow>>)
    requires Normalised(files).Success?
    ensures SortedRows(Normalised(files).value)
  {
    NormalisedSpec(files);
    var sorted := SortByYearMonth(Concat(files));
    assert forall i :: 0 <= i < |sorted| ==> RowKey(NormaliseRow(sorted[i])) == Key(sorted[i]);
  }

  lemma {:induction false} NormaliseInsert(x: RawRow, rows: seq<RawRow>)
    requires SortedRaw(rows)
    ensures multiset(NormaliseAll(Insert(x, rows))) == multiset(NormaliseAll(rows)) + multiset{NormaliseRow(x)}
  {
    if rows == [] || Before(Key(x), Key(rows[0])) {
      assert ([x] + rows)[1..] == rows;
    } else {
      NormaliseInsert(x, rows[1..]);
      assert ([rows[0]] + Insert(x, rows[1..]))[1..] == Insert(x, rows[1..]);
    }
  }

  lemma {:induction false} NormaliseSort(rows: seq<RawRow>)
    ensures multiset(NormaliseAll(SortByYearMonth(rows))) == multiset(NormaliseAll(rows))
  {
    if rows != [] {
      NormaliseSort(rows[1..]);
      NormaliseInsert(rows[0], SortByYearMonth(rows[1..]));
    }
  }

  /** The loaded table is a permutation of the normalised concatenation of all files' rows. */
  lemma LoadedPermutation(files: seq<seq<RawRow>>)
    requires Normalised(files).Success?
    ensures multiset(Normalised(files).value) == multiset(NormaliseAll(Concat(files)))
  {
    NormalisedSpec(files);
    NormaliseSort(Concat(files));
  }

  /**
   * No loaded cell holds -9999 any more, day is 1, the date is (year, month, 1) when both are
   * recorded, and the region carries its label.
   */
  lemma LoadedCells(files: seq<seq<RawRow>>, i: int)
    requires Normalised(files).Success? && 0 <= i < |Normalised(files).value|
    ensures var row := Normalised(files).value[i];
            && row.year != Some(Sentinel) && row.month != Some(Sentinel)
            && row.extent != Some(Sentinel as real) && row.area != Some(Sentinel as real)
            && row.day == 1
            && (row.date.Some? <==> row.year.Some? && row.month.Some?)
            && (row.date.Some? ==> row.date.value == Date(row.year.value, row.month.value, 1)
                                   && 1 <= row.month.value <= 12)
            && row.region != SouthCode && row.region != NorthCode
  {
    NormalisedSpec(files);
    var sorted := SortByYearMonth(Concat(files));
    assert sorted[i] in multiset(Concat(files));
    NormaliseRowCells(sorted[i]);
  }

  /** The loaded DataFrame, whose region column lines 64 and 65 overwrite in place. */
  class Frame {
    var rows: seq<Row>

    constructor (rows: seq<Row>)
      ensures this.rows == rows
    {
      this.rows := rows;
    }

    /** data.loc[data[data[' region'] == code].index, ' region'] = name */
    method RelabelRegion(code: string, name: string)
      modifies this
      ensures rows == Relabel(old(rows), code, name)
    {
      var i := 0;
      while i < |rows|
        invariant 0 <= i <= |rows| == |old(rows)|
        invariant forall k :: 0 <= k < i ==> rows[k] == RelabelRow(old(rows)[k], code, name)
        invariant forall k :: i <= k < |rows| ==> rows[k] == old(rows)[k]
      {
        if rows[i].region == code {
          rows := rows[i := rows[i].(region := name)];
        }
        i := i + 1;
      }
    }
  }

  /** The load block: read rows of every cached file in, the loaded frame (or to_datetime's error) out. */
  method Load(files: seq<seq<RawRow>>) returns (r: Result<Frame, LoadError>)
    ensures r.Success? <==> Normalised(files).Success?
    ensures r.Success? ==> fresh(r.value) && r.value.rows == Normalised(files).value
    ensures r.Failure? ==> r.error == Normalised(files).error
  {
    if files == [] {
      return Failure(NoFiles);
    }
    var merged := ReplaceAll(SortByYearMonth(Concat(files)));
    var dated := WithDates(merged);
    if dated.Failure? {
      return Failure(dated.error);
    }
    var frame := new Frame(dated.value);
    frame.RelabelRegion(SouthCode, "Antarctica");
    frame.RelabelRegion(NorthCode, "Arctic");
    return Success(frame);
  }
}
