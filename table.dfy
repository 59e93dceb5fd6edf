/** The Current revision's `CSV` class: `load`, `process_line` and
    `calculate_total_duration`, which overwrites the total cell of every stored row. */
module Table {
  import opened Str
  import opened Rules
  import opened Splitter

  const FooName: string := "fooduration"
  const BarName: string := "barduration"
  const TotalName: string := "totalduration"

  /** The header positions of the foo, bar and total duration columns. */
  datatype Columns = Columns(foo: nat, bar: nat, total: nat)

  /** `map(lambda h: h.lower(), headers)`. */
  function LowerAll(headers: seq<string>): seq<string> {
    seq(|headers|, k requires 0 <= k < |headers| => Lower(headers[k]))
  }

  /** The three `headers_lower.index` calls of `calculate_total_duration`: the first
      position of each duration column, or the ValueError of the first one missing. */
  function DurationColumns(headers: seq<string>): Result<Columns> {
    var names := LowerAll(headers);
    match IndexOf(names, FooName)
    case None => Err(MissingDurationColumn(FooName))
    case Some(foo) =>
      match IndexOf(names, BarName)
      case None => Err(MissingDurationColumn(BarName))
      case Some(bar) =>
        match IndexOf(names, TotalName)
        case None => Err(MissingDurationColumn(TotalName))
        case Some(total) => Ok(Columns(foo, bar, total))
  }

  /** The columns are found exactly when all three lower-cased names occur, each at its
      first occurrence; otherwise the error names the first one missing, in the order
      foo, bar, total. */
  lemma DurationColumnsShape(headers: seq<string>)
    ensures var r := DurationColumns(headers);
      && (r.Ok? <==> FooName in LowerAll(headers) && BarName in LowerAll(headers) && TotalName in LowerAll(headers))
      && (r.Ok? ==>
            && r.value.foo < |headers| && Lower(headers[r.value.foo]) == FooName
            && r.value.bar < |headers| && Lower(headers[r.value.bar]) == BarName
            && r.value.total < |headers| && Lower(headers[r.value.total]) == TotalName
            && FooName !in LowerAll(headers)[..r.value.foo]
            && BarName !in LowerAll(headers)[..r.value.bar]
            && TotalName !in LowerAll(headers)[..r.value.total])
      && (r.Err? ==> r.error == MissingDurationColumn(
            if FooName !in LowerAll(headers) then FooName
            else if BarName !in LowerAll(headers) then BarName
            else TotalName))
  {
  }

  /** A row as `process_line` builds it: one cell per header, of the header's class, and
      seconds in every foo/bar duration cell. */
  predicate RowFits(headers: seq<string>, row: seq<Cell>) {
    && |row| == |headers|
    && forall k :: 0 <= k < |row| ==>
         && Lookup(headers[k]) == Some(row[k].kind)
         && (row[k].kind == FooBarDuration ==> row[k].normalized.Seconds?)
  }

  /** The three columns are distinct positions of the row, and the two durations hold seconds. */
  predicate Ready(c: Columns, row: seq<Cell>) {
    && c.foo < |row| && c.bar < |row| && c.total < |row|
    && c.total != c.foo && c.total != c.bar
    && row[c.foo].normalized.Seconds? && row[c.bar].normalized.Seconds?
  }

  /** Every row `process_line` builds fits the headers. */
  lemma RowFitsHeaders(stamp: Stamp, headers: seq<string>, line: string)
    requires Row(Current, stamp, headers, line).Ok?
    ensures RowFits(headers, Row(Current, stamp, headers, line).value)
  {
    RowShape(Current, stamp, headers, line);
  }

  /** The cells under the duration columns are of the duration classes. */
  lemma ColumnKinds(headers: seq<string>, c: Columns, row: seq<Cell>)
    requires DurationColumns(headers) == Ok(c) && RowFits(headers, row)
    ensures Ready(c, row)
    ensures row[c.foo].kind == FooBarDuration && row[c.bar].kind == FooBarDuration
    ensures row[c.total].kind == TotalDuration
  {
    DurationColumnsShape(headers);
    LookupByName(headers[c.foo]);
    LookupByName(headers[c.bar]);
    LookupByName(headers[c.total]);
  }

  /** A row's total holds the sum of its foo and bar durations. */
  predicate Totalled(c: Columns, row: seq<Cell>) {
    && Ready(c, row)
    && row[c.total].normalized == Seconds(row[c.foo].normalized.seconds + row[c.bar].normalized.seconds)
  }

  /** `row[total].add_foo_bar(row[foo].normalized_text, row[bar].normalized_text)`:
      only the total cell's value changes, and it becomes the sum. Every row the class
      stores is ready once the columns are found (`BuiltReady`); any other row is left
      as it is. */
  function TotalRow(c: Columns, row: seq<Cell>): (r: seq<Cell>)
    ensures |r| == |row|
    ensures Ready(c, row) ==> Totalled(c, r)
    ensures forall k :: 0 <= k < |row| && k != c.total ==> r[k] == row[k]
    ensures c.total < |row| ==> r[c.total].kind == row[c.total].kind && r[c.total].original == row[c.total].original
  {
    if Ready(c, row) then
      var sum := row[c.foo].normalized.seconds + row[c.bar].normalized.seconds;
      row[c.total := row[c.total].(normalized := Seconds(sum))]
    else row
  }

  /** Totalling a row twice is totalling it once. */
  lemma TotalRowIdempotent(c: Columns, row: seq<Cell>)
    ensures TotalRow(c, TotalRow(c, row)) == TotalRow(c, row)
  {
    if Ready(c, row) {
      var once := TotalRow(c, row);
      assert TotalRow(c, once)[c.total] == once[c.total];
    }
  }

  /** A row already totalled is left as it is. */
  lemma TotalRowKeepsTotalled(c: Columns, row: seq<Cell>)
    requires Totalled(c, row)
    ensures TotalRow(c, row) == row
  {
    assert TotalRow(c, row)[c.total] == row[c.total];
  }

  /** The loop of `calculate_total_duration` over the stored rows. */
  function TotalPass(c: Columns, rows: seq<seq<Cell>>): (r: seq<seq<Cell>>)
    ensures |r| == |rows|
    ensures forall k :: 0 <= k < |rows| ==> |r[k]| == |rows[k]|
    ensures forall k :: 0 <= k < |rows| && Ready(c, rows[k]) ==> Totalled(c, r[k])
    ensures forall k, j :: 0 <= k < |rows| && 0 <= j < |rows[k]| && j != c.total ==> r[k][j] == rows[k][j]
  {
    seq(|rows|, k requires 0 <= k < |rows| => TotalRow(c, rows[k]))
  }

  /** `calculate_total_duration`: the ValueError of a missing duration column, or the
      stored rows with every total replaced by foo + bar. */
  function TotalStep(headers: seq<string>, rows: seq<seq<Cell>>): (r: (Outcome, seq<seq<Cell>>))
    ensures |r.1| == |rows|
    ensures r.0.Pass? <==> DurationColumns(headers).Ok?
    ensures r.0.Fail? ==> r.0.error == DurationColumns(headers).error && r.1 == rows
    ensures r.0.Pass? ==> r.1 == TotalPass(DurationColumns(headers).value, rows)
  {
    match DurationColumns(headers)
    case Err(e) => (Fail(e), rows)
    case Ok(c) => (Pass, TotalPass(c, rows))
  }

  /** `process_line`, given the cells its cursor loop built (or the exception it raised):
      those cells and the stored rows after the total pass; the first exception otherwise,
      with the rows untouched. */
  function LineStep(headers: seq<string>, rows: seq<seq<Cell>>, built: Result<seq<Cell>>)
    : (Result<seq<Cell>>, seq<seq<Cell>>)
  {
    match built
    case Err(e) => (Err(e), rows)
    case Ok(cols) =>
      match TotalStep(headers, rows)
      case (Fail(e), kept) => (Err(e), kept)
      case (Pass, totalled) => (Ok(cols), totalled)
  }

  /** `process_line` returns its cells exactly when the line splits cleanly and the three
      duration columns exist; the rows stored before then go through the total pass. */
  lemma LineStepShape(headers: seq<string>, rows: seq<seq<Cell>>, built: Result<seq<Cell>>)
    ensures var s := LineStep(headers, rows, built);
      && (s.0.Ok? <==> built.Ok? && DurationColumns(headers).Ok?)
      && (s.0.Ok? ==> s.0 == built && s.1 == TotalPass(DurationColumns(headers).value, rows))
      && (s.0.Err? ==> s.0.error == (if built.Err? then built.error else DurationColumns(headers).error))
      && (s.0.Err? && built.Err? ==> s.1 == rows)
  {
  }

  predicate AllReady(c: Columns, rows: seq<seq<Cell>>) {
    forall k :: 0 <= k < |rows| ==> Ready(c, rows[k])
  }

  predicate BuiltReady(c: Columns, built: seq<Result<seq<Cell>>>) {
    forall k :: 0 <= k < |built| && built[k].Ok? ==> Ready(c, built[k].value)
  }

  /** Once the duration columns are found, every row `process_line` builds is ready for
      the total pass. */
  lemma RowsReady(stamp: Stamp, headers: seq<string>, lines: seq<string>, c: Columns)
    requires DurationColumns(headers) == Ok(c)
    ensures BuiltReady(c, Built(Current, stamp, headers, lines))
  {
    var built := Built(Current, stamp, headers, lines);
    forall k | 0 <= k < |built| && built[k].Ok?
      ensures Ready(c, built[k].value)
    {
      RowFitsHeaders(stamp, headers, Strip(lines[k]));
      ColumnKinds(headers, c, built[k].value);
    }
  }

  /** `load` after the header line: each line's cells are appended after its
      `process_line` call, until the first exception. */
  function LoadFrom(headers: seq<string>, rows: seq<seq<Cell>>, built: seq<Result<seq<Cell>>>)
    : (Outcome, seq<seq<Cell>>)
    decreases |built|
  {
    if |built| == 0 then (Pass, rows)
    else
      var step := LineStep(headers, rows, built[0]);
      match step.0
      case Err(e) => (Fail(e), step.1)
      case Ok(cols) => LoadFrom(headers, step.1 + [cols], built[1..])
  }

  /** One step of `load`: the first line's `process_line`, then the rest or its exception. */
  lemma LoadNext(headers: seq<string>, rows: seq<seq<Cell>>, built: seq<Result<seq<Cell>>>)
    requires |built| > 0
    ensures var step := LineStep(headers, rows, built[0]);
      LoadFrom(headers, rows, built) ==
        if step.0.Err? then (Fail(step.0.error), step.1) else LoadFrom(headers, step.1 + [step.0.value], built[1..])
  {
  }

  /** `load` on the data lines. */
  function Loaded(stamp: Stamp, headers: seq<string>, lines: seq<string>): (Outcome, seq<seq<Cell>>) {
    LoadFrom(headers, [], Built(Current, stamp, headers, lines))
  }

  // ---------------------------------------------------------------------------
  // Properties of loading

  /** A freshly built row's total is still its original text. */
  lemma FreshTotalIsText(stamp: Stamp, headers: seq<string>, line: string, c: Columns)
    requires DurationColumns(headers) == Ok(c)
    requires Row(Current, stamp, headers, line).Ok?
    ensures var row := Row(Current, stamp, headers, line).value;
      && Ready(c, row)
      && row[c.total].normalized == Text(row[c.total].original)
      && !Totalled(c, row)
  {
    var row := Row(Current, stamp, headers, line).value;
    RowFitsHeaders(stamp, headers, line);
    ColumnKinds(headers, c, row);
    RowCell(Current, stamp, headers, line, c.total);
  }

  /** A load over at least one line passes only if the duration columns exist. */
  lemma LoadNeedsColumns(headers: seq<string>, rows: seq<seq<Cell>>, built: seq<Result<seq<Cell>>>)
    requires |built| >= 1 && LoadFrom(headers, rows, built).0.Pass?
    ensures DurationColumns(headers).Ok?
  {
    LoadNext(headers, rows, built);
    LineStepShape(headers, rows, built[0]);
  }

  /** A load that passes stores one row per line, its last row the last line's cells. */
  lemma {:induction false} LoadLength(headers: seq<string>, rows: seq<seq<Cell>>, built: seq<Result<seq<Cell>>>)
    requires |built| >= 1
    ensures var r := LoadFrom(headers, rows, built);
      r.0.Pass? ==> |r.1| == |rows| + |built| && built[|built| - 1] == Ok(r.1[|r.1| - 1])
    decreases |built|
  {
    var step := LineStep(headers, rows, built[0]);
    LoadNext(headers, rows, built);
    LineStepShape(headers, rows, built[0]);
    if step.0.Ok? {
      var next := step.1 + [step.0.value];
      if |built| > 1 {
        LoadLength(headers, next, built[1..]);
        assert built[1..][|built[1..]| - 1] == built[|built| - 1];
      } else {
        assert LoadFrom(headers, next, built[1..]) == (Pass, next);
      }
    }
  }

  /** A load that passes leaves every row but the last totalled. */
  lemma {:induction false} LoadTotals(headers: seq<string>, c: Columns, rows: seq<seq<Cell>>,
                                      built: seq<Result<seq<Cell>>>)
    requires DurationColumns(headers) == Ok(c) && |built| >= 1
    requires AllReady(c, rows) && BuiltReady(c, built)
    ensures var r := LoadFrom(headers, rows, built);
      r.0.Pass? ==> forall k :: 0 <= k < |rows| + |built| - 1 && k < |r.1| ==> Totalled(c, r.1[k])
    decreases |built|
  {
    var step := LineStep(headers, rows, built[0]);
    LoadNext(headers, rows, built);
    LineStepShape(headers, rows, built[0]);
    if step.0.Ok? {
      var next := step.1 + [step.0.value];
      assert Ready(c, next[|rows|]);
      if |built| > 1 {
        assert BuiltReady(c, built[1..]) by {
          forall k | 0 <= k < |built[1..]| && built[1..][k].Ok?
            ensures Ready(c, built[1..][k].value)
          {
            assert built[1..][k] == built[k + 1];
          }
        }
        LoadTotals(headers, c, next, built[1..]);
      } else {
        assert LoadFrom(headers, next, built[1..]) == (Pass, next);
        assert forall k :: 0 <= k < |rows| ==> next[k] == step.1[k];
      }
    }
  }

  /** As written, `load` never totals the last row: `calculate_total_duration` runs inside
      `process_line` before its row is appended, so every row but the last is totalled and
      the last keeps the text of its total column. */
  lemma LastRowNeverTotalled(stamp: Stamp, headers: seq<string>, lines: seq<string>)
    requires |lines| >= 1
    ensures var r := Loaded(stamp, headers, lines);
      r.0.Pass? ==>
        && DurationColumns(headers).Ok?
        && |r.1| == |lines|
        && (forall k :: 0 <= k < |r.1| - 1 ==> Totalled(DurationColumns(headers).value, r.1[k]))
        && Row(Current, stamp, headers, Strip(lines[|lines| - 1])) == Ok(r.1[|r.1| - 1])
        && Ready(DurationColumns(headers).value, r.1[|r.1| - 1])
        && !Totalled(DurationColumns(headers).value, r.1[|r.1| - 1])
  {
    var built := Built(Current, stamp, headers, lines);
    var r := LoadFrom(headers, [], built);
    if r.0.Pass? {
      LoadNeedsColumns(headers, [], built);
      var c := DurationColumns(headers).value;
      RowsReady(stamp, headers, lines, c);
      LoadLength(headers, [], built);
      LoadTotals(headers, c, [], built);
      BuiltIs(Current, stamp, headers, lines, |lines| - 1);
      FreshTotalIsText(stamp, headers, Strip(lines[|lines| - 1]), c);
    }
  }

  /** The evidently intended load: one more `calculate_total_duration` once the last row
      is stored. */
  function TotalledLoad(stamp: Stamp, headers: seq<string>, lines: seq<string>): (Outcome, seq<seq<Cell>>) {
    var loaded := Loaded(stamp, headers, lines);
    if loaded.0.Pass? && |loaded.1| > 0 then TotalStep(headers, loaded.1) else loaded
  }

  /** A total pass over ready rows, all but the last already totalled, totals the last
      one too and leaves the others as they are. */
  lemma FinalPass(c: Columns, rows: seq<seq<Cell>>)
    requires |rows| > 0 && Ready(c, rows[|rows| - 1])
    requires forall k :: 0 <= k < |rows| - 1 ==> Totalled(c, rows[k])
    ensures var r := TotalPass(c, rows);
      && (forall k :: 0 <= k < |r| ==> Totalled(c, r[k]))
      && r[..|rows| - 1] == rows[..|rows| - 1]
  {
    var r := TotalPass(c, rows);
    forall k | 0 <= k < |rows| - 1
      ensures r[k] == rows[k]
    {
      TotalRowKeepsTotalled(c, rows[k]);
    }
  }

  /** With the final pass every row is totalled, and the rows differ from the loaded ones
      only in the last row's total cell. */
  lemma AllRowsTotalled(stamp: Stamp, headers: seq<string>, lines: seq<string>)
    ensures var r, loaded := TotalledLoad(stamp, headers, lines), Loaded(stamp, headers, lines);
      && r.0 == loaded.0
      && (r.0.Pass? && |lines| > 0 ==>
            && DurationColumns(headers).Ok?
            && |r.1| == |lines| == |loaded.1|
            && (forall k :: 0 <= k < |r.1| ==> Totalled(DurationColumns(headers).value, r.1[k]))
            && r.1[..|r.1| - 1] == loaded.1[..|r.1| - 1])
  {
    var loaded := Loaded(stamp, headers, lines);
    if loaded.0.Pass? && |lines| > 0 {
      LastRowNeverTotalled(stamp, headers, lines);
      var c := DurationColumns(headers).value;
      FinalPass(c, loaded.1);
      assert TotalledLoad(stamp, headers, lines) == (Pass, TotalPass(c, loaded.1));
    }
  }

  /** Without all three duration columns, loading fails at the first data line and stores
      nothing, even though there is no row to total yet. */
  lemma MissingDurationColumnFailsFirstLine(stamp: Stamp, headers: seq<string>, lines: seq<string>)
    requires DurationColumns(headers).Err? && |lines| >= 1
    ensures var r := Loaded(stamp, headers, lines);
      && r.0.Fail? && r.1 == []
      && (Row(Current, stamp, headers, Strip(lines[0])).Ok? ==> r.0.error == DurationColumns(headers).error)
  {
    var built := Built(Current, stamp, headers, lines);
    assert built[0] == Row(Current, stamp, headers, Strip(lines[0]));
  }

  // ---------------------------------------------------------------------------
  // The class

  class CSV {
    /** The timestamp conversion, fixed for the object's lifetime. */
    const stamp: Stamp
    var headers: seq<string>
    var rows: seq<seq<Cell>>

    constructor (stamp: Stamp)
      ensures this.stamp == stamp && headers == [] && rows == []
    {
      this.stamp := stamp;
      headers := [];
      rows := [];
    }

    /** `load`: the stripped header line gives the headers; every data line is stripped
        and processed, and its cells appended to `rows`; an exception ends loading. */
    method Load(headerLine: string, lines: seq<string>) returns (outcome: Outcome)
      requires rows == []
      modifies this
      ensures headers == ProcessHeaders(Strip(headerLine))
      ensures (outcome, rows) == Loaded(stamp, headers, lines)
    {
      headers := ProcessHeaders(Strip(headerLine));
      ghost var built := Built(Current, stamp, headers, lines);
      assert built[0..] == built;
      var n := 0;
      while n < |lines|
        invariant 0 <= n <= |lines|
        invariant headers == ProcessHeaders(Strip(headerLine))
        invariant Loaded(stamp, headers, lines) == LoadFrom(headers, rows, built[n..])
      {
        BuiltIs(Current, stamp, headers, lines, n);
        LoadNext(headers, rows, built[n..]);
        assert built[n..][0] == built[n] && built[n..][1..] == built[n + 1..];
        var cols := ProcessLine(Strip(lines[n]));
        if cols.Err? {
          return Fail(cols.error);
        }
        rows := rows + [cols.value];
        n := n + 1;
      }
      return Pass;
    }

    /** `process_line`: the cursor loop over the headers, then the total pass over the
        rows already stored. */
    method ProcessLine(line: string) returns (r: Result<seq<Cell>>)
      modifies this`rows
      ensures (r, rows) == LineStep(headers, old(rows), Row(Current, stamp, headers, line))
    {
      r := SplitLine(line);
      if r.Err? {
        return;
      }
      var outcome := CalculateTotalDuration();
      if outcome.Fail? {
        return Err(outcome.error);
      }
    }

    /** The cursor loop of `process_line`: the cells of every column, or the first
        exception raised. */
    method SplitLine(line: string) returns (r: Result<seq<Cell>>)
      ensures r == Row(Current, stamp, headers, line)
    {
      var start: nat := 0;
      var cols: seq<Cell> := [];
      var i := 0;
      PrependNothing(Row(Current, stamp, headers, line));
      while i < |headers|
        invariant 0 <= i <= |headers|
        invariant Splitting(Current, stamp, headers, line, cols, i, start)
      {
        var end := SeekEnd(line, i, start);
        if end.Err? {
          SplitEndFails(Current, stamp, headers, line, cols, i, start);
          return Err(end.error);
        }
        SplitCell(Current, stamp, headers, line, cols, i, start, end.value);
        var cell := MakeCell(Current, stamp, headers[i], Slice(line, start, end.value));
        if cell.Err? {
          return Err(cell.error);
        }
        cols := cols + [cell.value];
        start := end.value + 1;
        i := i + 1;
      }
      SplitDone(Current, stamp, headers, line, cols, i, start);
      return Ok(cols);
    }

    /** `end_seek_index` of column `i`: the end of the line for the last column, otherwise
        the next comma (`line.index` raises without one), or just past the closing quote
        of a quoted address. */
    method SeekEnd(line: string, i: nat, start: nat) returns (end: Result<nat>)
      requires i < |headers|
      ensures end == FieldEnd(Current, headers, line, i, start)
    {
      if i == |headers| - 1 {
        return Ok(|line|);
      }
      var comma := Find(line, ',', start);
      if comma < 0 {
        return Err(MissingComma(i));
      }
      end := Ok(comma);
      if Lower(headers[i]) == "address" {
        if line[start] == '"' {
          end := Ok(Find(line, '"', start + 1) + 1);
        }
      }
    }

    /** `calculate_total_duration`. */
    method CalculateTotalDuration() returns (outcome: Outcome)
      modifies this`rows
      ensures (outcome, rows) == TotalStep(headers, old(rows))
    {
      var names := LowerAll(headers);
      var foo := IndexOf(names, FooName);
      if foo.None? {
        return Fail(MissingDurationColumn(FooName));
      }
      var bar := IndexOf(names, BarName);
      if bar.None? {
        return Fail(MissingDurationColumn(BarName));
      }
      var total := IndexOf(names, TotalName);
      if total.None? {
        return Fail(MissingDurationColumn(TotalName));
      }
      var c := Columns(foo.value, bar.value, total.value);
      assert DurationColumns(headers) == Ok(c);
      var k := 0;
      while k < |rows|
        invariant 0 <= k <= |rows| == |old(rows)|
        invariant forall j :: 0 <= j < k ==> rows[j] == TotalRow(c, old(rows)[j])
        invariant forall j :: k <= j < |rows| ==> rows[j] == old(rows)[j]
      {
        rows := rows[k := TotalRow(c, rows[k])];
        k := k + 1;
      }
      assert rows == TotalPass(c, old(rows));
      return Pass;
    }

    /** The evidently intended loading: `load` followed by one more total pass once rows
        are stored. */
    method LoadTotalled(headerLine: string, lines: seq<string>) returns (outcome: Outcome)
      requires rows == []
      modifies this
      ensures headers == ProcessHeaders(Strip(headerLine))
      ensures (outcome, rows) == TotalledLoad(stamp, headers, lines)
    {
      outcome := Load(headerLine, lines);
      if outcome.Pass? && |rows| > 0 {
        outcome := CalculateTotalDuration();
      }
    }
  }
}
