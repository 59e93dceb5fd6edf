/** The Earlier revision's `CSV` class (the top-level `normalize_csv.py`): `load` keeps the
    cells of every line, and `process_line` walks the first `len(headers) - 1` columns only.
    There is no total-duration pass. */
module EarlyRevision {
  import opened Str
  import opened Rules
  import opened Splitter

  /** `ADDRESS`: the one header whose column may hold a quoted address, compared as is. */
  const AddressName: string := "Address"

  /** The rows `load` appends, given each line's cells or exception: every line's cells
      until the first exception. */
  function Stored(built: seq<Result<seq<Cell>>>): (r: (Outcome, seq<seq<Cell>>))
    ensures |r.1| <= |built|
    ensures forall k :: 0 <= k < |r.1| ==> built[k] == Ok(r.1[k])
  {
    if |built| == 0 then (Pass, [])
    else match built[0]
      case Err(e) => (Fail(e), [])
      case Ok(cells) =>
        var rest := Stored(built[1..]);
        (rest.0, [cells] + rest.1)
  }

  /** One step of `load`: the first line's cells in front of the rest, or its exception. */
  lemma StoredNext(built: seq<Result<seq<Cell>>>)
    requires |built| > 0
    ensures Stored(built) ==
      if built[0].Err? then (Fail(built[0].error), []) else After([built[0].value], Stored(built[1..]))
  {
  }

  lemma {:induction false} StoredRows(built: seq<Result<seq<Cell>>>)
    ensures var r := Stored(built);
      && (forall k :: 0 <= k < |r.1| ==> built[k] == Ok(r.1[k]))
      && (r.0.Pass? <==> |r.1| == |built|)
      && (r.0.Fail? ==> built[|r.1|] == Err(r.0.error))
  {
    if |built| > 0 && built[0].Ok? {
      var rest := Stored(built[1..]);
      StoredRows(built[1..]);
      var r := Stored(built);
      assert r.1 == [built[0].value] + rest.1;
      forall k | 0 <= k < |r.1|
        ensures built[k] == Ok(r.1[k])
      {
        if k > 0 {
          assert built[k] == built[1..][k - 1];
        }
      }
      if r.0.Fail? {
        assert built[|r.1|] == built[1..][|rest.1|];
      }
    }
  }

  /** `load` after the header line. */
  function Loaded(stamp: Stamp, headers: seq<string>, lines: seq<string>): (r: (Outcome, seq<seq<Cell>>))
    ensures |r.1| <= |lines|
  {
    Stored(Built(Earlier, stamp, headers, lines))
  }

  /** Loading stores one row per line, each the cells `process_line` builds from it, and
      stops exactly at the first line that raises, with that line's exception. */
  lemma LoadedRows(stamp: Stamp, headers: seq<string>, lines: seq<string>)
    ensures var r := Loaded(stamp, headers, lines);
      && (forall k :: 0 <= k < |r.1| ==> Row(Earlier, stamp, headers, Strip(lines[k])) == Ok(r.1[k]))
      && (r.0.Pass? <==> |r.1| == |lines|)
      && (r.0.Fail? ==> Row(Earlier, stamp, headers, Strip(lines[|r.1|])) == Err(r.0.error))
  {
    var built := Built(Earlier, stamp, headers, lines);
    StoredRows(built);
    var r := Stored(built);
    forall k | 0 <= k < |r.1|
      ensures Row(Earlier, stamp, headers, Strip(lines[k])) == Ok(r.1[k])
    {
      assert built[k] == Row(Earlier, stamp, headers, Strip(lines[k]));
    }
    if r.0.Fail? {
      assert built[|r.1|] == Row(Earlier, stamp, headers, Strip(lines[|r.1|]));
    }
  }

  /** Every stored row has `len(headers) - 1` cells: the last column is never read. */
  lemma LoadedRowsLoseLastColumn(stamp: Stamp, headers: seq<string>, lines: seq<string>)
    requires |headers| >= 1
    ensures var r := Loaded(stamp, headers, lines);
      forall k :: 0 <= k < |r.1| ==> |r.1[k]| == |headers| - 1
  {
    var r := Loaded(stamp, headers, lines);
    LoadedRows(stamp, headers, lines);
    forall k | 0 <= k < |r.1|
      ensures |r.1[k]| == |headers| - 1
    {
      RowShape(Earlier, stamp, headers, Strip(lines[k]));
    }
  }

  /** The outcome of loading the remaining lines, with `rows` stored before them. */
  function After(rows: seq<seq<Cell>>, rest: (Outcome, seq<seq<Cell>>)): (Outcome, seq<seq<Cell>>) {
    (rest.0, rows + rest.1)
  }

  lemma AfterAfter(rows: seq<seq<Cell>>, row: seq<Cell>, rest: (Outcome, seq<seq<Cell>>))
    ensures After(rows, (rest.0, [row] + rest.1)) == After(rows + [row], rest)
  {
    assert rows + ([row] + rest.1) == (rows + [row]) + rest.1;
  }

  class CSV {
    /** The timestamp conversion, fixed for the object's lifetime. */
    const stamp: Stamp
    var headers: seq<string>
    var rows: seq<seq<Cell>>

    constructor (stamp: Stamp)
      ensures this.stamp == stamp && headers == [] && rows == []
    {
      this.stamp := stamp;
      headers := [];
      rows := [];
    }

    /** `load`: the stripped header line gives the headers; every data line is stripped
        and processed, and its cells appended to `rows`; an exception ends loading. */
    method Load(headerLine: string, lines: seq<string>) returns (outcome: Outcome)
      requires rows == []
      modifies this
      ensures headers == ProcessHeaders(Strip(headerLine))
      ensures (outcome, rows) == Loaded(stamp, headers, lines)
    {
      headers := ProcessHeaders(Strip(headerLine));
      ghost var built := Built(Earlier, stamp, headers, lines);
      assert built[0..] == built;
      assert rows + Stored(built).1 == Stored(built).1;
      var n := 0;
      while n < |lines|
        invariant 0 <= n <= |lines|
        invariant headers == ProcessHeaders(Strip(headerLine))
        invariant Loaded(stamp, headers, lines) == After(rows, Stored(built[n..]))
      {
        BuiltIs(Earlier, stamp, headers, lines, n);
        StoredNext(built[n..]);
        assert built[n..][0] == built[n] && built[n..][1..] == built[n + 1..];
        var cols := ProcessLine(Strip(lines[n]));
        if cols.Err? {
          assert rows + [] == rows;
          return Fail(cols.error);
        }
        AfterAfter(rows, cols.value, Stored(built[n + 1..]));
        rows := rows + [cols.value];
        n := n + 1;
      }
      assert rows + [] == rows;
      return Pass;
    }

    /** `process_line`: the cursor loop over every column but the last. */
    method ProcessLine(line: string) returns (r: Result<seq<Cell>>)
      ensures r == Row(Earlier, stamp, headers, line)
    {
      var start: nat := 0;
      var cols: seq<Cell> := [];
      var i := 0;
      PrependNothing(Row(Earlier, stamp, headers, line));
      while i < |headers| - 1
        invariant 0 <= i <= FieldCount(Earlier, headers)
        invariant Splitting(Earlier, stamp, headers, line, cols, i, start)
      {
        var end := SeekEnd(line, i, start);
        if end.Err? {
          SplitEndFails(Earlier, stamp, headers, line, cols, i, start);
          return Err(end.error);
        }
        SplitCell(Earlier, stamp, headers, line, cols, i, start, end.value);
        var cell := MakeCell(Earlier, stamp, headers[i], Slice(line, start, end.value));
        if cell.Err? {
          return Err(cell.error);
        }
        cols := cols + [cell.value];
        start := end.value + 1;
        i := i + 1;
      }
      SplitDone(Earlier, stamp, headers, line, cols, i, start);
      return Ok(cols);
    }

    /** `end_seek_index` of column `i`: the next comma (`line.index` raises without one),
        or just past the closing quote of a quoted address. */
    method SeekEnd(line: string, i: nat, start: nat) returns (end: Result<nat>)
      requires i < |headers| - 1
      ensures end == FieldEnd(Earlier, headers, line, i, start)
    {
      var comma := Find(line, ',', start);
      if comma < 0 {
        return Err(MissingComma(i));
      }
      end := Ok(comma);
      if headers[i] == AddressName {
        if line[start] == '"' {
          end := Ok(Find(line, '"', start + 1) + 1);
        }
      }
    }
  }
}
