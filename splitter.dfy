/** `process_headers` and the line splitter of `CSV.process_line`, for both revisions,
    as functions of the header list and the line. The loops that compute them live in
    the `CSV` classes (modules Table and EarlyRevision). */
module Splitter {
  import opened Str
  import opened Rules

  /** A cell object: its class, `original_text` and `normalized_text`. */
  datatype Cell = Cell(kind: Kind, original: string, normalized: Value)

  /** `process_headers`: the header line split on ','. */
  function ProcessHeaders(headerLine: string): (headers: seq<string>)
    ensures |headers| >= 1
    ensures forall k :: 0 <= k < |headers| ==> ',' !in headers[k]
    ensures Join(headers, ',') == headerLine
  {
    JoinSplit(headerLine, ',');
    Split(headerLine, ',')
  }

  /** Headers joined with `",".join(headers)` are read back unchanged. */
  lemma HeadersRoundTrip(headers: seq<string>)
    requires |headers| >= 1
    requires forall k :: 0 <= k < |headers| ==> ',' !in headers[k]
    ensures ProcessHeaders(Join(headers, ',')) == headers
  {
    SplitJoin(headers, ',');
  }

  // ---------------------------------------------------------------------------
  // The splitter

  /** How many cells `process_line` builds: one per header in the Current revision,
      `len(headers) - 1` in the Earlier one. */
  function FieldCount(rev: Revision, headers: seq<string>): nat {
    if rev == Current then |headers| else if |headers| == 0 then 0 else |headers| - 1
  }

  /** Column `i` runs to the end of the line instead of to the next comma. */
  predicate RunsToEnd(rev: Revision, headers: seq<string>, i: nat) {
    rev == Current && i == |headers| - 1
  }

  /** The column's field may be a quoted address: the Current revision compares the
      lower-cased header with 'address', the Earlier one the header itself with 'Address'. */
  predicate QuotesAddress(rev: Revision, header: string) {
    if rev == Current then Lower(header) == "address" else header == "Address"
  }

  /** `end_seek_index` for column `i` when the cursor is at `start`. */
  function FieldEnd(rev: Revision, headers: seq<string>, line: string, i: nat, start: nat): (r: Result<nat>)
    requires i < |headers|
    ensures r.Ok? ==> r.value <= |line|
  {
    if RunsToEnd(rev, headers, i) then Ok(|line|)
    else
      var comma := Find(line, ',', start);
      if comma < 0 then Err(MissingComma(i))
      else if QuotesAddress(rev, headers[i]) && line[start] == '"' then Ok(Find(line, '"', start + 1) + 1)
      else Ok(comma)
  }

  /** Python's `line[a:b]` for `0 <= a` and `b <= len(line)`. */
  function Slice(line: string, a: nat, b: nat): string
    requires b <= |line|
  {
    if a < b then line[a..b] else ""
  }

  /** `col_lookups[header.lower()](raw)`: look the class up, then build and normalise the cell. */
  function MakeCell(rev: Revision, stamp: Stamp, header: string, raw: string): Result<Cell> {
    match Lookup(header)
    case None => Err(UnknownColumn(header))
    case Some(kind) =>
      match Normalize(rev, stamp, kind, raw)
      case Err(e) => Err(e)
      case Ok(value) => Ok(Cell(kind, raw, value))
  }

  /** Builds the cell of a column from its header and its text. */
  type Builder = (string, string) -> Result<Cell>

  /** The builder `process_line` uses: `MakeCell` of the revision. */
  function Factory(rev: Revision, stamp: Stamp): Builder {
    (header, raw) => MakeCell(rev, stamp, header, raw)
  }

  /** The cells of columns `i` onwards, the cursor being at `start`; the first exception
      raised, in column order, otherwise. */
  function RowFrom(rev: Revision, build: Builder, headers: seq<string>, line: string, i: nat, start: nat): Result<seq<Cell>>
    decreases FieldCount(rev, headers) - i
  {
    if i >= FieldCount(rev, headers) then Ok([])
    else match FieldEnd(rev, headers, line, i, start)
      case Err(e) => Err(e)
      case Ok(end) =>
        match build(headers[i], Slice(line, start, end))
        case Err(e) => Err(e)
        case Ok(cell) => Prepend([cell], RowFrom(rev, build, headers, line, i + 1, end + 1))
  }

  /** One step of the splitter: column `i` ends at `end` and its cell is `cell`. */
  lemma RowStep(rev: Revision, build: Builder, headers: seq<string>, line: string, i: nat, start: nat,
                end: nat, cell: Cell, rest: seq<Cell>)
    requires i < FieldCount(rev, headers)
    requires FieldEnd(rev, headers, line, i, start) == Ok(end)
    requires build(headers[i], Slice(line, start, end)) == Ok(cell)
    requires RowFrom(rev, build, headers, line, i + 1, end + 1) == Ok(rest)
    ensures RowFrom(rev, build, headers, line, i, start) == Ok([cell] + rest)
  {
  }

  /** The converse step: a successful split from column `i` starts with the cell of
      column `i`'s text and goes on with the split from just past its end. */
  lemma RowUnfold(rev: Revision, build: Builder, headers: seq<string>, line: string, i: nat, start: nat,
                  cells: seq<Cell>)
    requires i < FieldCount(rev, headers)
    requires RowFrom(rev, build, headers, line, i, start) == Ok(cells)
    ensures FieldEnd(rev, headers, line, i, start).Ok?
    ensures var end := FieldEnd(rev, headers, line, i, start).value;
      && |cells| > 0
      && build(headers[i], Slice(line, start, end)) == Ok(cells[0])
      && RowFrom(rev, build, headers, line, i + 1, end + 1) == Ok(cells[1..])
  {
  }

  /** The splitter state after the columns before `i`: the cells built so far in front
      of what columns `i` onwards give, from cursor `start`. */
  predicate Splitting(rev: Revision, stamp: Stamp, headers: seq<string>, line: string,
                      cols: seq<Cell>, i: nat, start: nat) {
    Row(rev, stamp, headers, line) == Prepend(cols, RowFrom(rev, Factory(rev, stamp), headers, line, i, start))
  }

  /** A column whose end cannot be found ends the line with that error. */
  lemma SplitEndFails(rev: Revision, stamp: Stamp, headers: seq<string>, line: string,
                      cols: seq<Cell>, i: nat, start: nat)
    requires Splitting(rev, stamp, headers, line, cols, i, start)
    requires i < FieldCount(rev, headers) && FieldEnd(rev, headers, line, i, start).Err?
    ensures Row(rev, stamp, headers, line) == Err(FieldEnd(rev, headers, line, i, start).error)
  {
  }

  /** A column whose cell raises ends the line with that exception; otherwise the cell is
      appended and the cursor moves past the field's end. */
  lemma SplitCell(rev: Revision, stamp: Stamp, headers: seq<string>, line: string,
                  cols: seq<Cell>, i: nat, start: nat, end: nat)
    requires Splitting(rev, stamp, headers, line, cols, i, start)
    requires i < FieldCount(rev, headers) && FieldEnd(rev, headers, line, i, start) == Ok(end)
    ensures var cell := MakeCell(rev, stamp, headers[i], Slice(line, start, end));
      && (cell.Err? ==> Row(rev, stamp, headers, line) == Err(cell.error))
      && (cell.Ok? ==> Splitting(rev, stamp, headers, line, cols + [cell.value], i + 1, end + 1))
  {
    var cell := MakeCell(rev, stamp, headers[i], Slice(line, start, end));
    var rest := RowFrom(rev, Factory(rev, stamp), headers, line, i + 1, end + 1);
    assert RowFrom(rev, Factory(rev, stamp), headers, line, i, start) ==
      if cell.Err? then Err(cell.error) else Prepend([cell.value], rest);
    if cell.Ok? {
      PrependAssoc(cols, cell.value, rest);
    }
  }

  /** Past the last column the splitter's result is the cells built. */
  lemma SplitDone(rev: Revision, stamp: Stamp, headers: seq<string>, line: string,
                  cols: seq<Cell>, i: nat, start: nat)
    requires Splitting(rev, stamp, headers, line, cols, i, start) && i >= FieldCount(rev, headers)
    ensures Row(rev, stamp, headers, line) == Ok(cols)
  {
    assert cols + [] == cols;
  }

  /** What `process_line` builds from a line, before the total-duration pass. */
  function Row(rev: Revision, stamp: Stamp, headers: seq<string>, line: string): Result<seq<Cell>> {
    RowFrom(rev, Factory(rev, stamp), headers, line, 0, 0)
  }

  /** The cursor loop's result for every stripped data line. It does not depend on the
      rows stored before, so `load` can be read as computing it up front. */
  function Built(rev: Revision, stamp: Stamp, headers: seq<string>, lines: seq<string>): (built: seq<Result<seq<Cell>>>)
    ensures |built| == |lines|
  {
    seq(|lines|, k requires 0 <= k < |lines| => Row(rev, stamp, headers, Strip(lines[k])))
  }

  lemma BuiltIs(rev: Revision, stamp: Stamp, headers: seq<string>, lines: seq<string>, k: nat)
    requires k < |lines|
    ensures Built(rev, stamp, headers, lines)[k] == Row(rev, stamp, headers, Strip(lines[k]))
  {
  }

  /** `cells` in front of a successful result; an error is passed on. */
  function Prepend(cells: seq<Cell>, r: Result<seq<Cell>>): Result<seq<Cell>> {
    match r
    case Err(e) => Err(e)
    case Ok(rest) => Ok(cells + rest)
  }

  lemma PrependNothing(r: Result<seq<Cell>>)
    ensures Prepend([], r) == r
  {
    if r.Ok? {
      assert [] + r.value == r.value;
    }
  }

  lemma PrependAssoc(cells: seq<Cell>, cell: Cell, r: Result<seq<Cell>>)
    ensures Prepend(cells, Prepend([cell], r)) == Prepend(cells + [cell], r)
  {
    if r.Ok? {
      assert cells + ([cell] + r.value) == (cells + [cell]) + r.value;
    }
  }

  function Originals(cells: seq<Cell>): (texts: seq<string>)
    ensures |texts| == |cells|
  {
    seq(|cells|, k requires 0 <= k < |cells| => cells[k].original)
  }

  // ---------------------------------------------------------------------------
  // One cell per header, in header order

  /** The builder keeps each cell's text as its `original_text`. */
  ghost predicate KeepsText(build: Builder) {
    forall header, raw :: build(header, raw).Ok? ==> build(header, raw).value.original == raw
  }

  lemma FactoryKeepsText(rev: Revision, stamp: Stamp)
    ensures KeepsText(Factory(rev, stamp))
  {
  }

  /** Each of `cells` is what `build` gives for the text it keeps, under the headers
      from `i` on. */
  ghost predicate BuiltFrom(build: Builder, headers: seq<string>, i: nat, cells: seq<Cell>)
    decreases |cells|
  {
    |cells| == 0 ||
      (i < |headers| && build(headers[i], cells[0].original) == Ok(cells[0])
       && BuiltFrom(build, headers, i + 1, cells[1..]))
  }

  lemma {:induction false} BuiltFromAll(build: Builder, headers: seq<string>, i: nat, cells: seq<Cell>)
    requires BuiltFrom(build, headers, i, cells)
    ensures |cells| > 0 ==> i + |cells| <= |headers|
    ensures forall k :: i <= k < i + |cells| ==> build(headers[k], cells[k - i].original) == Ok(cells[k - i])
    decreases |cells|
  {
    if |cells| > 0 {
      BuiltFromAll(build, headers, i + 1, cells[1..]);
      forall k | i < k < i + |cells|
        ensures build(headers[k], cells[k - i].original) == Ok(cells[k - i])
      {
        assert cells[k - i] == cells[1..][k - (i + 1)];
      }
    }
  }

  lemma {:induction false} RowShapeFrom(rev: Revision, build: Builder, headers: seq<string>, line: string,
                                        i: nat, start: nat, cells: seq<Cell>)
    requires KeepsText(build)
    requires i <= FieldCount(rev, headers)
    requires RowFrom(rev, build, headers, line, i, start) == Ok(cells)
    ensures |cells| == FieldCount(rev, headers) - i
    ensures BuiltFrom(build, headers, i, cells)
    decreases FieldCount(rev, headers) - i
  {
    if i < FieldCount(rev, headers) {
      RowUnfold(rev, build, headers, line, i, start, cells);
      var end := FieldEnd(rev, headers, line, i, start).value;
      RowShapeFrom(rev, build, headers, line, i + 1, end + 1, cells[1..]);
    }
  }

  /** A successful line gives one cell per produced column, in header order; the i-th
      cell is built by the class `col_lookups[headers[i].lower()]` from its own text. */
  lemma RowShape(rev: Revision, stamp: Stamp, headers: seq<string>, line: string)
    requires Row(rev, stamp, headers, line).Ok?
    ensures var cells := Row(rev, stamp, headers, line).value;
      && |cells| == FieldCount(rev, headers)
      && forall k :: 0 <= k < |cells| ==>
           && Lookup(headers[k]) == Some(cells[k].kind)
           && Normalize(rev, stamp, cells[k].kind, cells[k].original) == Ok(cells[k].normalized)
  {
    var cells := Row(rev, stamp, headers, line).value;
    FactoryKeepsText(rev, stamp);
    RowShapeFrom(rev, Factory(rev, stamp), headers, line, 0, 0, cells);
    BuiltFromAll(Factory(rev, stamp), headers, 0, cells);
    forall k | 0 <= k < |cells|
      ensures Lookup(headers[k]) == Some(cells[k].kind)
      ensures Normalize(rev, stamp, cells[k].kind, cells[k].original) == Ok(cells[k].normalized)
    {
      assert MakeCell(rev, stamp, headers[k], cells[k - 0].original) == Ok(cells[k - 0]);
    }
  }

  /** Cell `k` of a successful line, on its own. */
  lemma RowCell(rev: Revision, stamp: Stamp, headers: seq<string>, line: string, k: nat)
    requires Row(rev, stamp, headers, line).Ok? && k < |Row(rev, stamp, headers, line).value|
    ensures var cell := Row(rev, stamp, headers, line).value[k];
      && k < |headers|
      && Lookup(headers[k]) == Some(cell.kind)
      && Normalize(rev, stamp, cell.kind, cell.original) == Ok(cell.normalized)
  {
    RowShape(rev, stamp, headers, line);
  }

  // ---------------------------------------------------------------------------
  // Field boundaries

  /** A double-quoted text with no quote inside. */
  predicate Quoted(raw: string) {
    |raw| >= 2 && raw[0] == '"' && raw[|raw| - 1] == '"' && '"' !in raw[1..|raw| - 1]
  }

  /** The text of a column that ends at a comma: a quoted address if the column may hold
      one and the text starts with a quote, otherwise comma-free. */
  predicate FieldFits(rev: Revision, header: string, raw: string) {
    if QuotesAddress(rev, header) && |raw| > 0 && raw[0] == '"' then Quoted(raw) else ',' !in raw
  }

  predicate IsSuffix(a: string, s: string) {
    |a| <= |s| && a == s[|s| - |a|..]
  }

  lemma FieldEndFits(rev: Revision, headers: seq<string>, line: string, i: nat, start: nat)
    requires i < |headers| && !RunsToEnd(rev, headers, i)
    requires FieldEnd(rev, headers, line, i, start).Ok?
    ensures FieldFits(rev, headers[i], Slice(line, start, FieldEnd(rev, headers, line, i, start).value))
  {
    var comma := Find(line, ',', start);
    var end := FieldEnd(rev, headers, line, i, start).value;
    var raw := Slice(line, start, end);
    FindFirst(line, ',', start);
    if QuotesAddress(rev, headers[i]) && line[start] == '"' {
      var q := Find(line, '"', start + 1);
      FindFirst(line, '"', start + 1);
      if q >= 0 {
        assert raw == line[start..q + 1];
        SliceOfSlice(line, start, q + 1, 1, q - start);
      }
    } else {
      assert end == comma;
      if start < end {
        assert raw[0] == line[start];
        assert forall j :: 0 <= j < |raw| ==> raw[j] == line[start + j];
      }
    }
  }

  /** Each of `cells` but one whose column runs to the end of the line keeps a text
      that fits its column, under the headers from `i` on. */
  predicate FitFrom(rev: Revision, headers: seq<string>, i: nat, cells: seq<Cell>)
    decreases |cells|
  {
    |cells| == 0 ||
      (i < |headers| && (!RunsToEnd(rev, headers, i) ==> FieldFits(rev, headers[i], cells[0].original))
       && FitFrom(rev, headers, i + 1, cells[1..]))
  }

  lemma {:induction false} FitFromAll(rev: Revision, headers: seq<string>, i: nat, cells: seq<Cell>)
    requires FitFrom(rev, headers, i, cells)
    ensures |cells| > 0 ==> i + |cells| <= |headers|
    ensures forall k :: i <= k < i + |cells| && !RunsToEnd(rev, headers, k) ==>
      FieldFits(rev, headers[k], cells[k - i].original)
    decreases |cells|
  {
    if |cells| > 0 {
      FitFromAll(rev, headers, i + 1, cells[1..]);
      forall k | i < k < i + |cells| && !RunsToEnd(rev, headers, k)
        ensures FieldFits(rev, headers[k], cells[k - i].original)
      {
        assert cells[k - i] == cells[1..][k - (i + 1)];
      }
    }
  }

  lemma {:induction false} FieldsFitFrom(rev: Revision, build: Builder, headers: seq<string>, line: string,
                                         i: nat, start: nat, cells: seq<Cell>)
    requires KeepsText(build)
    requires i <= FieldCount(rev, headers)
    requires RowFrom(rev, build, headers, line, i, start) == Ok(cells)
    ensures |cells| == FieldCount(rev, headers) - i
    ensures FitFrom(rev, headers, i, cells)
    decreases FieldCount(rev, headers) - i
  {
    if i < FieldCount(rev, headers) {
      RowUnfold(rev, build, headers, line, i, start, cells);
      var end := FieldEnd(rev, headers, line, i, start).value;
      FieldsFitFrom(rev, build, headers, line, i + 1, end + 1, cells[1..]);
      assert cells[0].original == Slice(line, start, end);
      if !RunsToEnd(rev, headers, i) {
        FieldEndFits(rev, headers, line, i, start);
      }
    }
  }

  lemma {:induction false} LastFieldFrom(build: Builder, headers: seq<string>, line: string,
                                         i: nat, start: nat, cells: seq<Cell>)
    requires KeepsText(build)
    requires i < |headers|
    requires RowFrom(Current, build, headers, line, i, start) == Ok(cells)
    ensures |cells| > 0 && IsSuffix(cells[|cells| - 1].original, line)
    decreases |headers| - i
  {
    RowUnfold(Current, build, headers, line, i, start, cells);
    var end := FieldEnd(Current, headers, line, i, start).value;
    if i == |headers| - 1 {
      assert cells[1..] == [];
      assert cells[0].original == Slice(line, start, |line|);
    } else {
      LastFieldFrom(build, headers, line, i + 1, end + 1, cells[1..]);
      assert cells[|cells| - 1] == cells[1..][|cells| - 2];
    }
  }

  /** Field boundaries: every column that ends at a comma holds comma-free text, except a
      quoted address, which runs from its opening quote through the next quote and may hold
      commas; the last column of the Current revision is the rest of the line. */
  lemma FieldBoundaries(rev: Revision, stamp: Stamp, headers: seq<string>, line: string)
    requires Row(rev, stamp, headers, line).Ok?
    ensures var cells := Row(rev, stamp, headers, line).value;
      && |cells| == FieldCount(rev, headers)
      && (forall k :: 0 <= k < |cells| && !RunsToEnd(rev, headers, k) ==>
            FieldFits(rev, headers[k], cells[k].original))
      && (rev == Current && |cells| > 0 ==> IsSuffix(cells[|cells| - 1].original, line))
  {
    var cells := Row(rev, stamp, headers, line).value;
    FactoryKeepsText(rev, stamp);
    FieldsFitFrom(rev, Factory(rev, stamp), headers, line, 0, 0, cells);
    FitFromAll(rev, headers, 0, cells);
    if rev == Current && |cells| > 0 {
      LastFieldFrom(Factory(rev, stamp), headers, line, 0, 0, cells);
    }
    assert forall k :: 0 <= k < |cells| ==> cells[k - 0] == cells[k];
  }

  /** A quoted address with no closing quote raises nothing: `find` gives -1, the field
      ends at index 0, so the address text is empty and the cursor goes back to index 1. */
  lemma UnclosedQuote(rev: Revision, headers: seq<string>, line: string, i: nat, start: nat)
    requires i < |headers| && !RunsToEnd(rev, headers, i)
    requires QuotesAddress(rev, headers[i])
    requires start < |line| && line[start] == '"'
    requires ',' in line[start..] && '"' !in line[start + 1..]
    ensures FieldEnd(rev, headers, line, i, start) == Ok(0)
    ensures Slice(line, start, 0) == ""
  {
    var j :| 0 <= j < |line[start..]| && line[start..][j] == ',';
    assert line[start + j] == ',';
    FindFirst(line, ',', start);
    forall k | start + 1 <= k < |line|
      ensures line[k] != '"'
    {
      assert line[k] == line[start + 1..][k - start - 1];
    }
    FindIs(line, '"', start + 1, -1);
  }

  /** A line without a comma fails at the first column when there are two headers or
      more, in both revisions (`line.index` raises before anything else is looked at). */
  lemma MissingCommaFails(rev: Revision, stamp: Stamp, headers: seq<string>, line: string)
    requires |headers| >= 2 && ',' !in line
    ensures Row(rev, stamp, headers, line) == Err(MissingComma(0))
  {
    FindIs(line, ',', 0, -1);
  }

  // ---------------------------------------------------------------------------
  // Split and join

  /** Where field `i` of `Join(fields, ',')` starts. */
  function Offset(fields: seq<string>, i: nat): nat
    requires i <= |fields|
  {
    if i == 0 then 0 else |fields[0]| + 1 + Offset(fields[1..], i - 1)
  }

  lemma {:induction false} OffsetNext(fields: seq<string>, i: nat)
    requires i < |fields|
    ensures Offset(fields, i + 1) == Offset(fields, i) + |fields[i]| + 1
  {
    if i > 0 {
      OffsetNext(fields[1..], i - 1);
    }
  }

  /** Field `i` sits at `Offset(fields, i)` in `line`, followed by ',' unless it is the
      last, which ends the line. */
  predicate FieldLaidOut(fields: seq<string>, line: string, i: nat)
    requires i < |fields|
  {
    var o := Offset(fields, i);
    && o + |fields[i]| <= |line|
    && line[o..o + |fields[i]|] == fields[i]
    && (i < |fields| - 1 ==> o + |fields[i]| < |line| && line[o + |fields[i]|] == ',')
    && (i == |fields| - 1 ==> o + |fields[i]| == |line|)
  }

  /** `line` holds `fields` separated by ','. */
  predicate Layout(fields: seq<string>, line: string) {
    forall i :: 0 <= i < |fields| ==> FieldLaidOut(fields, line, i)
  }

  /** The first field sits at the start of `line`, followed by ',' and the rest. */
  lemma LaidOutFirst(fields: seq<string>, line: string, rest: string)
    requires |fields| > 1 && line == fields[0] + [','] + rest
    ensures FieldLaidOut(fields, line, 0)
  {
    assert line[0..|fields[0]|] == fields[0];
  }

  /** A field laid out in `rest` is laid out, one field further on, in `fields[0] + ","
      + rest`. */
  lemma LaidOutShift(fields: seq<string>, line: string, rest: string, i: nat)
    requires |fields| > 1 && 0 < i < |fields| && line == fields[0] + [','] + rest
    requires FieldLaidOut(fields[1..], rest, i - 1)
    ensures FieldLaidOut(fields, line, i)
  {
    var p, o, f := |fields[0]| + 1, Offset(fields[1..], i - 1), fields[i];
    assert fields[1..][i - 1] == f;
    assert Offset(fields, i) == p + o;
    AppendSlice(fields[0] + [','], rest, o, o + |f|);
    if i < |fields| - 1 {
      assert line[p + o + |f|] == rest[o + |f|];
    }
  }

  lemma {:induction false} JoinLayout(fields: seq<string>, i: nat)
    requires i < |fields|
    ensures FieldLaidOut(fields, Join(fields, ','), i)
  {
    var line := Join(fields, ',');
    if |fields| == 1 {
      assert line[0..|fields[0]|] == fields[0];
    } else {
      var rest := Join(fields[1..], ',');
      assert line == fields[0] + [','] + rest;
      if i == 0 {
        LaidOutFirst(fields, line, rest);
      } else {
        JoinLayout(fields[1..], i - 1);
        LaidOutShift(fields, line, rest, i);
      }
    }
  }

  /** A list of field texts that `process_line` reads back as they are: one per header,
      each but the last fitting its column. */
  predicate WellFormedFields(rev: Revision, headers: seq<string>, fields: seq<string>) {
    && |fields| == |headers| >= 1
    && forall k :: 0 <= k < |fields| - 1 ==> FieldFits(rev, headers[k], fields[k])
  }

  /** Every produced column's class exists and accepts its text. */
  predicate Buildable(rev: Revision, stamp: Stamp, headers: seq<string>, fields: seq<string>)
    requires |fields| == |headers|
  {
    forall k :: 0 <= k < FieldCount(rev, headers) ==> MakeCell(rev, stamp, headers[k], fields[k]).Ok?
  }

  /** A quoted text followed by ',' ends at its closing quote. */
  lemma QuotedFieldEnd(line: string, s: nat, f: string)
    requires Quoted(f)
    requires s + |f| < |line| && line[s..s + |f|] == f && line[s + |f|] == ','
    ensures Find(line, ',', s) >= 0
    ensures Find(line, '"', s + 1) == s + |f| - 1
  {
    var e := s + |f|;
    assert forall j :: s <= j < e ==> line[j] == f[j - s];
    assert forall j :: s + 1 <= j < e - 1 ==> line[j] == f[1..|f| - 1][j - s - 1];
    FindIs(line, '"', s + 1, e - 1);
    FindFirst(line, ',', s);
  }

  /** A comma-free text followed by ',' ends at that comma. */
  lemma PlainFieldEnd(line: string, s: nat, f: string)
    requires ',' !in f
    requires s + |f| < |line| && line[s..s + |f|] == f && line[s + |f|] == ','
    ensures Find(line, ',', s) == s + |f|
    ensures |f| > 0 ==> line[s] == f[0]
    ensures |f| == 0 ==> line[s] == ','
  {
    assert forall j :: s <= j < s + |f| ==> line[j] == f[j - s];
    FindIs(line, ',', s, s + |f|);
  }

  /** A field `f` sitting at `s` ends where the splitter says it does. */
  lemma FieldEndAt(rev: Revision, headers: seq<string>, line: string, i: nat, s: nat, f: string)
    requires i < |headers|
    requires s + |f| <= |line| && line[s..s + |f|] == f
    requires RunsToEnd(rev, headers, i) ==> s + |f| == |line|
    requires !RunsToEnd(rev, headers, i) ==>
      s + |f| < |line| && line[s + |f|] == ',' && FieldFits(rev, headers[i], f)
    ensures FieldEnd(rev, headers, line, i, s) == Ok(s + |f|)
    ensures Slice(line, s, s + |f|) == f
  {
    if !RunsToEnd(rev, headers, i) {
      if QuotesAddress(rev, headers[i]) && |f| > 0 && f[0] == '"' {
        QuotedFieldEnd(line, s, f);
        assert line[s] == f[0];
      } else {
        PlainFieldEnd(line, s, f);
      }
    }
  }

  /** Field `i` of well-formed fields, laid out in `line` as `Join` lays it out, ends
      where the splitter says it does. */
  lemma FieldEndInLayout(rev: Revision, headers: seq<string>, fields: seq<string>, line: string, i: nat, s: nat)
    requires WellFormedFields(rev, headers, fields)
    requires i < FieldCount(rev, headers)
    requires s + |fields[i]| <= |line| && line[s..s + |fields[i]|] == fields[i]
    requires i < |fields| - 1 ==> s + |fields[i]| < |line| && line[s + |fields[i]|] == ','
    requires i == |fields| - 1 ==> s + |fields[i]| == |line|
    ensures FieldEnd(rev, headers, line, i, s) == Ok(s + |fields[i]|)
    ensures Slice(line, s, s + |fields[i]|) == fields[i]
  {
    if RunsToEnd(rev, headers, i) {
      assert i == |fields| - 1;
    } else {
      assert i < |fields| - 1;
      assert FieldFits(rev, headers[i], fields[i]);
    }
    FieldEndAt(rev, headers, line, i, s, fields[i]);
  }

  /** The splitter reads `fields[k]` as column `k`'s text, the column starting at
      `Offset(fields, k)`. */
  predicate FieldAt(rev: Revision, headers: seq<string>, line: string, fields: seq<string>, k: nat)
    requires k < |headers| && |fields| == |headers|
  {
    && FieldEnd(rev, headers, line, k, Offset(fields, k)) == Ok(Offset(fields, k) + |fields[k]|)
    && Slice(line, Offset(fields, k), Offset(fields, k) + |fields[k]|) == fields[k]
  }

  /** The splitter reads every produced column's text where `Join` put it. */
  predicate SplitsAs(rev: Revision, headers: seq<string>, line: string, fields: seq<string>) {
    && |fields| == |headers|
    && forall k :: 0 <= k < FieldCount(rev, headers) ==> FieldAt(rev, headers, line, fields, k)
  }

  lemma OriginalsPrepend(cell: Cell, rest: seq<Cell>)
    ensures Originals([cell] + rest) == [cell.original] + Originals(rest)
  {
  }

  /** The texts of a cell keeping `texts[i]` in front of cells keeping `texts[i + 1..n]`. */
  lemma OriginalsCons(cell: Cell, rest: seq<Cell>, texts: seq<string>, i: nat, n: nat)
    requires i < n <= |texts|
    requires cell.original == texts[i] && Originals(rest) == texts[i + 1..n]
    ensures Originals([cell] + rest) == texts[i..n]
  {
    OriginalsPrepend(cell, rest);
    assert texts[i..n] == [texts[i]] + texts[i + 1..n];
  }

  /** Column `i` of a line the splitter reads as `fields` gives the cell of `fields[i]`
      in front of the cells of the later columns. */
  lemma FieldsStep(rev: Revision, build: Builder, headers: seq<string>, line: string,
                   fields: seq<string>, i: nat, rest: seq<Cell>)
    requires SplitsAs(rev, headers, line, fields) && i < FieldCount(rev, headers)
    requires build(headers[i], fields[i]).Ok?
    requires RowFrom(rev, build, headers, line, i + 1, Offset(fields, i + 1)) == Ok(rest)
    ensures RowFrom(rev, build, headers, line, i, Offset(fields, i)) == Ok([build(headers[i], fields[i]).value] + rest)
  {
    assert FieldAt(rev, headers, line, fields, i);
    OffsetNext(fields, i);
    RowStep(rev, build, headers, line, i, Offset(fields, i), Offset(fields, i) + |fields[i]|,
            build(headers[i], fields[i]).value, rest);
  }

  lemma {:induction false} RowOfFieldsFrom(rev: Revision, build: Builder, headers: seq<string>, line: string,
                                           fields: seq<string>, i: nat)
    requires KeepsText(build)
    requires SplitsAs(rev, headers, line, fields)
    requires forall k :: 0 <= k < FieldCount(rev, headers) ==> build(headers[k], fields[k]).Ok?
    requires i <= FieldCount(rev, headers)
    ensures var r := RowFrom(rev, build, headers, line, i, Offset(fields, i));
      r.Ok? && Originals(r.value) == fields[i..FieldCount(rev, headers)]
    decreases FieldCount(rev, headers) - i
  {
    var n := FieldCount(rev, headers);
    if i < n {
      RowOfFieldsFrom(rev, build, headers, line, fields, i + 1);
      var rest := RowFrom(rev, build, headers, line, i + 1, Offset(fields, i + 1)).value;
      var cell := build(headers[i], fields[i]).value;
      FieldsStep(rev, build, headers, line, fields, i, rest);
      OriginalsCons(cell, rest, fields, i, n);
    }
  }

  lemma JoinLaysOut(fields: seq<string>)
    ensures Layout(fields, Join(fields, ','))
  {
    forall i | 0 <= i < |fields|
      ensures FieldLaidOut(fields, Join(fields, ','), i)
    {
      JoinLayout(fields, i);
    }
  }

  /** The splitter reads well-formed fields back at their offsets from a line that lays
      them out. */
  lemma LayoutSplitsAs(rev: Revision, headers: seq<string>, fields: seq<string>, line: string)
    requires WellFormedFields(rev, headers, fields) && Layout(fields, line)
    ensures SplitsAs(rev, headers, line, fields)
  {
    forall k | 0 <= k < FieldCount(rev, headers)
      ensures FieldAt(rev, headers, line, fields, k)
    {
      assert FieldLaidOut(fields, line, k);
      FieldEndInLayout(rev, headers, fields, line, k, Offset(fields, k));
    }
  }

  lemma RowOfJoin(rev: Revision, stamp: Stamp, headers: seq<string>, fields: seq<string>)
    requires WellFormedFields(rev, headers, fields) && Buildable(rev, stamp, headers, fields)
    ensures var r := Row(rev, stamp, headers, Join(fields, ','));
      r.Ok? && Originals(r.value) == fields[..FieldCount(rev, headers)]
  {
    JoinLaysOut(fields);
    LayoutSplitsAs(rev, headers, fields, Join(fields, ','));
    FactoryKeepsText(rev, stamp);
    RowOfFieldsFrom(rev, Factory(rev, stamp), headers, Join(fields, ','), fields, 0);
    assert fields[0..FieldCount(rev, headers)] == fields[..FieldCount(rev, headers)];
  }

  /** Split after join: joining one well-formed text per header with ',' and splitting
      the result gives every text back, one cell each. */
  lemma JoinRoundTrip(stamp: Stamp, headers: seq<string>, fields: seq<string>)
    requires WellFormedFields(Current, headers, fields) && Buildable(Current, stamp, headers, fields)
    ensures var r := Row(Current, stamp, headers, Join(fields, ','));
      r.Ok? && Originals(r.value) == fields
  {
    RowOfJoin(Current, stamp, headers, fields);
    assert fields[..|fields|] == fields;
  }

  /** The Earlier revision reads the same joined line but never produces the last text. */
  lemma EarlierLosesLastField(stamp: Stamp, headers: seq<string>, fields: seq<string>)
    requires WellFormedFields(Earlier, headers, fields) && Buildable(Earlier, stamp, headers, fields)
    ensures var r := Row(Earlier, stamp, headers, Join(fields, ','));
      r.Ok? && Originals(r.value) == fields[..|fields| - 1]
  {
    RowOfJoin(Earlier, stamp, headers, fields);
  }

  /** No column before the last may start a quoted address: either no such column is an
      address column, or the line holds no quote. */
  predicate Unquoted(headers: seq<string>, line: string) {
    '"' !in line || forall k :: 0 <= k < |headers| - 1 ==> !QuotesAddress(Current, headers[k])
  }

  /** Before the last column of an unquoted line, every field ends at a comma. */
  lemma CommaFieldEnd(headers: seq<string>, line: string, i: nat, start: nat)
    requires i < |headers| - 1 && Unquoted(headers, line)
    requires FieldEnd(Current, headers, line, i, start).Ok?
    ensures var end := FieldEnd(Current, headers, line, i, start).value;
      start <= end < |line| && line[end] == ','
  {
    if start < |line| {
      assert line[start] in line;
    }
  }

  /** A field followed by ',' in front of the joined rest of the line. */
  lemma JoinCons(line: string, start: nat, end: nat, rest: seq<string>)
    requires start <= end < |line| && line[end] == ',' && |rest| > 0
    requires Join(rest, ',') == line[end + 1..]
    ensures Join([Slice(line, start, end)] + rest, ',') == line[start..]
  {
    JoinFront(line[start..end], rest, ',');
    SliceAround(line, start, end);
  }

  /** From column `i` on, with the cursor at `start`, every field before the last ends just
      before a ','. A quoted address is followed by whatever character comes after its closing
      quote, and the cursor skips it, so this is what rebuilding the line needs. */
  predicate CommaEnds(headers: seq<string>, line: string, i: nat, start: nat)
    decreases |headers| - i
  {
    i + 1 >= |headers| ||
    match FieldEnd(Current, headers, line, i, start)
    case Err(_) => true
    case Ok(end) => start <= end < |line| && line[end] == ',' && CommaEnds(headers, line, i + 1, end + 1)
  }

  /** An unquoted line ends every field before the last at a comma. */
  lemma {:induction false} UnquotedCommaEnds(headers: seq<string>, line: string, i: nat, start: nat)
    requires Unquoted(headers, line)
    ensures CommaEnds(headers, line, i, start)
    decreases |headers| - i
  {
    if i + 1 < |headers| {
      var end := FieldEnd(Current, headers, line, i, start);
      if end.Ok? {
        CommaFieldEnd(headers, line, i, start);
        UnquotedCommaEnds(headers, line, i + 1, end.value + 1);
      }
    }
  }

  /** `CommaEnds` from column `i` gives the ',' after column `i` and `CommaEnds` from the
      next column. */
  lemma CommaEndsNext(headers: seq<string>, line: string, i: nat, start: nat, end: nat)
    requires i + 1 < |headers| && CommaEnds(headers, line, i, start)
    requires FieldEnd(Current, headers, line, i, start) == Ok(end)
    ensures start <= end < |line| && line[end] == ',' && CommaEnds(headers, line, i + 1, end + 1)
  {
  }

  /** One step of `CommaEnds`, both ways. */
  lemma CommaEndsStep(headers: seq<string>, line: string, i: nat, start: nat, end: nat)
    requires i + 1 < |headers|
    requires FieldEnd(Current, headers, line, i, start) == Ok(end)
    ensures CommaEnds(headers, line, i, start) <==>
      start <= end < |line| && line[end] == ',' && CommaEnds(headers, line, i + 1, end + 1)
  {
  }

  /** A field ends before the cursor only when it is a quoted address. */
  lemma FieldEndFromCursor(headers: seq<string>, line: string, i: nat, start: nat)
    requires i < |headers| && start <= |line|
    requires FieldEnd(Current, headers, line, i, start).Ok?
    ensures FieldEnd(Current, headers, line, i, start).value < start ==> start < |line| && line[start] == '"'
  {
  }

  /** A field's text, a ',' and a rest making up the line from `start` on: the ',' is just
      after the field. */
  lemma CommaAfterField(line: string, start: nat, end: nat, first: string, tail: string)
    requires start <= |line| && end <= |line|
    requires first == Slice(line, start, end)
    requires end < start ==> start < |line| && line[start] == '"'
    requires first + [','] + tail == line[start..]
    ensures start <= end < |line| && line[end] == ',' && tail == line[end + 1..]
  {
    assert (first + [','] + tail)[|first|] == ',';
    assert start <= end;
    var whole := line[start..];
    assert whole[end - start] == ',';
    assert |tail| == |line| - end - 1;
    forall j | 0 <= j < |tail| ensures tail[j] == line[end + 1 + j] {
      assert tail[j] == whole[end - start + 1 + j];
    }
  }

  lemma {:induction false} JoinOfRowFrom(build: Builder, headers: seq<string>, line: string,
                                         i: nat, start: nat, cells: seq<Cell>)
    requires KeepsText(build)
    requires i < |headers| && start <= |line|
    requires CommaEnds(headers, line, i, start)
    requires RowFrom(Current, build, headers, line, i, start) == Ok(cells)
    ensures Join(Originals(cells), ',') == line[start..]
    decreases |headers| - i
  {
    RowUnfold(Current, build, headers, line, i, start, cells);
    var end := FieldEnd(Current, headers, line, i, start).value;
    assert cells[0].original == Slice(line, start, end);
    OriginalsPrepend(cells[0], cells[1..]);
    assert cells == [cells[0]] + cells[1..];
    if i == |headers| - 1 {
      assert cells[1..] == [];
    } else {
      CommaEndsNext(headers, line, i, start, end);
      JoinOfRowFrom(build, headers, line, i + 1, end + 1, cells[1..]);
      RowUnfold(Current, build, headers, line, i + 1, end + 1, cells[1..]);
      JoinCons(line, start, end, Originals(cells[1..]));
    }
  }

  /** One column of a line that its cell texts rebuild: the column ends just before a ',',
      and the texts of the later columns rebuild the line after it. */
  lemma JoinedField(build: Builder, headers: seq<string>, line: string, i: nat, start: nat, cells: seq<Cell>)
    returns (end: nat, rest: seq<Cell>)
    requires KeepsText(build)
    requires i + 1 < |headers| && start <= |line|
    requires RowFrom(Current, build, headers, line, i, start) == Ok(cells)
    requires Join(Originals(cells), ',') == line[start..]
    ensures FieldEnd(Current, headers, line, i, start) == Ok(end)
    ensures start <= end < |line| && line[end] == ','
    ensures RowFrom(Current, build, headers, line, i + 1, end + 1) == Ok(rest)
    ensures Join(Originals(rest), ',') == line[end + 1..]
  {
    RowUnfold(Current, build, headers, line, i, start, cells);
    end := FieldEnd(Current, headers, line, i, start).value;
    rest := cells[1..];
    RowUnfold(Current, build, headers, line, i + 1, end + 1, rest);
    OriginalsPrepend(cells[0], rest);
    assert cells == [cells[0]] + rest;
    var first := cells[0].original;
    var tail := Join(Originals(rest), ',');
    JoinFront(first, Originals(rest), ',');
    FieldEndFromCursor(headers, line, i, start);
    CommaAfterField(line, start, end, first, tail);
  }

  lemma {:induction false} CommaEndsAfter(build: Builder, headers: seq<string>, line: string,
                                          i: nat, start: nat, end: nat, rest: seq<Cell>)
    requires KeepsText(build)
    requires i + 1 < |headers|
    requires FieldEnd(Current, headers, line, i, start) == Ok(end)
    requires start <= end < |line| && line[end] == ','
    requires RowFrom(Current, build, headers, line, i + 1, end + 1) == Ok(rest)
    requires Join(Originals(rest), ',') == line[end + 1..]
    ensures CommaEnds(headers, line, i, start)
    decreases |headers| - i
  {
    if i + 2 < |headers| {
      var end2, rest2 := JoinedField(build, headers, line, i + 1, end + 1, rest);
      CommaEndsAfter(build, headers, line, i + 1, end + 1, end2, rest2);
    }
    CommaEndsStep(headers, line, i, start, end);
  }

  lemma CommaEndsOfJoinFrom(build: Builder, headers: seq<string>, line: string,
                            start: nat, cells: seq<Cell>)
    requires KeepsText(build)
    requires 0 < |headers| && start <= |line|
    requires RowFrom(Current, build, headers, line, 0, start) == Ok(cells)
    requires Join(Originals(cells), ',') == line[start..]
    ensures CommaEnds(headers, line, 0, start)
  {
    if 1 < |headers| {
      var end, rest := JoinedField(build, headers, line, 0, start, cells);
      CommaEndsAfter(build, headers, line, 0, start, end, rest);
    }
  }

  /** Join after split: joining the cell texts with ',' gives the line back exactly when every
      field before the last ends just before a ',' (always so when no quoted address can occur
      before the last column, `UnquotedCommaEnds`). */
  lemma JoinOfRow(stamp: Stamp, headers: seq<string>, line: string)
    requires |headers| >= 1
    requires Row(Current, stamp, headers, line).Ok?
    ensures Join(Originals(Row(Current, stamp, headers, line).value), ',') == line <==> CommaEnds(headers, line, 0, 0)
  {
    var cells := Row(Current, stamp, headers, line).value;
    FactoryKeepsText(Current, stamp);
    assert line[0..] == line;
    if CommaEnds(headers, line, 0, 0) {
      JoinOfRowFrom(Factory(Current, stamp), headers, line, 0, 0, cells);
    }
    if Join(Originals(cells), ',') == line {
      CommaEndsOfJoinFrom(Factory(Current, stamp), headers, line, 0, cells);
    }
  }

  // ---------------------------------------------------------------------------
  // Errors

  /** An exception a cell class raises, and its cause. */
  predicate CellError(stamp: Stamp, header: string, e: Error) {
    match e
    case UnknownColumn(h) => h == header && Lookup(h).None?
    case InvalidDuration(text) => ParseDuration(text).None?
    case InvalidTimestamp(text) => stamp(text).None?
    case _ => false
  }

  lemma MakeCellError(rev: Revision, stamp: Stamp, header: string, raw: string)
    requires MakeCell(rev, stamp, header, raw).Err?
    ensures CellError(stamp, header, MakeCell(rev, stamp, header, raw).error)
  {
  }

  lemma {:induction false} RowErrorsFrom(rev: Revision, build: Builder, headers: seq<string>, line: string,
                                         i: nat, start: nat)
    requires RowFrom(rev, build, headers, line, i, start).Err?
    ensures var e := RowFrom(rev, build, headers, line, i, start).error;
      || (e.MissingComma? && i <= e.column < FieldCount(rev, headers) && !RunsToEnd(rev, headers, e.column))
      || (exists k, raw :: i <= k < FieldCount(rev, headers) && build(headers[k], raw) == Err(e))
    decreases FieldCount(rev, headers) - i
  {
    var end := FieldEnd(rev, headers, line, i, start);
    if end.Ok? {
      var raw := Slice(line, start, end.value);
      if build(headers[i], raw).Ok? {
        RowErrorsFrom(rev, build, headers, line, i + 1, end.value + 1);
      } else {
        assert build(headers[i], raw) == Err(RowFrom(rev, build, headers, line, i, start).error);
      }
    }
  }

  /** Every exception names its cause: a comma missing after a column that needs one, a
      header that is not in `col_lookups`, or a duration or timestamp text the parser
      rejects; none concerns the duration columns' presence. */
  lemma RowErrors(rev: Revision, stamp: Stamp, headers: seq<string>, line: string)
    requires Row(rev, stamp, headers, line).Err?
    ensures var e := Row(rev, stamp, headers, line).error;
      && (e.MissingComma? ==> e.column < FieldCount(rev, headers) && !RunsToEnd(rev, headers, e.column))
      && (!e.MissingComma? ==> exists k :: 0 <= k < FieldCount(rev, headers) && CellError(stamp, headers[k], e))
      && (e.UnknownColumn? ==> e.header in headers && Lookup(e.header).None?)
  {
    var e := Row(rev, stamp, headers, line).error;
    RowErrorsFrom(rev, Factory(rev, stamp), headers, line, 0, 0);
    if exists k, raw :: 0 <= k < FieldCount(rev, headers) && Factory(rev, stamp)(headers[k], raw) == Err(e) {
      var k, raw :| 0 <= k < FieldCount(rev, headers) && Factory(rev, stamp)(headers[k], raw) == Err(e);
      MakeCellError(rev, stamp, headers[k], raw);
      assert CellError(stamp, headers[k], e);
    }
  }

  // ---------------------------------------------------------------------------
  // The two revisions compared

  /** The two revisions' timestamp conversions both start with `strptime` on the same
      format, so they reject the same texts; what they produce from an accepted text differs
      (the Current one adds three hours and the US/Eastern zone). */
  ghost predicate RejectAlike(later: Stamp, earlier: Stamp) {
    forall text :: later(text).None? <==> earlier(text).None?
  }

  /** The cell the Earlier revision, converting timestamps with `earlier`, builds where the
      Current one builds `c`: a timestamp holds `earlier`'s conversion of the same text, and
      the total duration stays ''. */
  function EarlierCell(earlier: Stamp, c: Cell): Cell {
    if c.kind == TotalDuration then c.(normalized := Text(""))
    else if c.kind == Timestamp then
      match earlier(c.original)
      case Some(iso) => c.(normalized := Text(iso))
      case None => c
    else c
  }

  /** `later` and `early` build the same cells up to `EarlierCell`. */
  ghost predicate Agree(later: Builder, early: Builder, earlier: Stamp) {
    forall header, raw :: later(header, raw).Ok? ==> early(header, raw) == Ok(EarlierCell(earlier, later(header, raw).value))
  }

  /** The two revisions' cell classes build the same cell from the same text, except the
      timestamp's converted text and the Earlier total duration's ''. */
  lemma FactoriesAgree(later: Stamp, earlier: Stamp)
    requires RejectAlike(later, earlier)
    ensures Agree(Factory(Current, later), Factory(Earlier, earlier), earlier)
    ensures forall header, raw :: MakeCell(Current, later, header, raw).Err? <==> MakeCell(Earlier, earlier, header, raw).Err?
  {
  }

  /** `early` is `cells` up to `EarlierCell`. */
  predicate EarlierCells(earlier: Stamp, cells: seq<Cell>, early: seq<Cell>) {
    |early| == |cells| && forall k :: 0 <= k < |early| ==> early[k] == EarlierCell(earlier, cells[k])
  }

  lemma EarlierCellsCons(earlier: Stamp, cell: Cell, rest: seq<Cell>, early: seq<Cell>)
    requires EarlierCells(earlier, rest, early)
    ensures EarlierCells(earlier, [cell] + rest, [EarlierCell(earlier, cell)] + early)
  {
    var cells := [cell] + rest;
    forall k | 0 < k < 1 + |early|
      ensures ([EarlierCell(earlier, cell)] + early)[k] == EarlierCell(earlier, cells[k])
    {
      assert cells[k] == rest[k - 1];
    }
  }

  lemma {:induction false} RevisionsAgreeFrom(later: Builder, early: Builder, earlier: Stamp, headers: seq<string>, line: string,
                                              i: nat, start: nat, cells: seq<Cell>)
    requires Agree(later, early, earlier)
    requires i < |headers|
    requires forall k :: 0 <= k < |headers| - 1 ==>
      QuotesAddress(Current, headers[k]) == QuotesAddress(Earlier, headers[k])
    requires RowFrom(Current, later, headers, line, i, start) == Ok(cells)
    ensures var r := RowFrom(Earlier, early, headers, line, i, start);
      r.Ok? && EarlierCells(earlier, cells[..|cells| - 1], r.value)
    decreases |headers| - i
  {
    RowUnfold(Current, later, headers, line, i, start, cells);
    var end := FieldEnd(Current, headers, line, i, start).value;
    var rest := cells[1..];
    if i < |headers| - 1 {
      assert FieldEnd(Earlier, headers, line, i, start) == Ok(end);
      RevisionsAgreeFrom(later, early, earlier, headers, line, i + 1, end + 1, rest);
      var tail := RowFrom(Earlier, early, headers, line, i + 1, end + 1).value;
      RowStep(Earlier, early, headers, line, i, start, end, EarlierCell(earlier, cells[0]), tail);
      EarlierCellsCons(earlier, cells[0], rest[..|rest| - 1], tail);
      assert cells[..|cells| - 1] == [cells[0]] + rest[..|rest| - 1];
    } else {
      assert rest == [];
      assert cells[..|cells| - 1] == [];
    }
  }

  /** Where both revisions treat the same headers as address columns, the Earlier revision
      splits a line exactly as the Current one does but stops before the last column; its
      timestamps hold its own conversion and its total duration stays ''. */
  lemma RevisionsAgree(later: Stamp, earlier: Stamp, headers: seq<string>, line: string)
    requires RejectAlike(later, earlier)
    requires |headers| >= 1
    requires forall k :: 0 <= k < |headers| - 1 ==>
      QuotesAddress(Current, headers[k]) == QuotesAddress(Earlier, headers[k])
    requires Row(Current, later, headers, line).Ok?
    ensures var cells, r := Row(Current, later, headers, line).value, Row(Earlier, earlier, headers, line);
      && r.Ok? && |r.value| == |cells| - 1
      && forall k :: 0 <= k < |r.value| ==> r.value[k] == EarlierCell(earlier, cells[k])
  {
    var cells := Row(Current, later, headers, line).value;
    FactoriesAgree(later, earlier);
    RevisionsAgreeFrom(Factory(Current, later), Factory(Earlier, earlier), earlier, headers, line, 0, 0, cells);
    var early := Row(Earlier, earlier, headers, line).value;
    forall k | 0 <= k < |early|
      ensures early[k] == EarlierCell(earlier, cells[k])
    {
      assert cells[k] == cells[..|cells| - 1][k];
    }
  }

  /** The two revisions' timestamp cells differ when their conversions do: for headers
      `timestamp,notes`, each revision's cell holds its own conversion of the same text. */
  lemma TimestampsFollowRevision(later: Stamp, earlier: Stamp, raw: string)
    requires ',' !in raw && later(raw).Some? && earlier(raw).Some?
    ensures var line := raw + ",x";
      && Row(Current, later, ["timestamp", "notes"], line) ==
           Ok([Cell(Timestamp, raw, Text(later(raw).value)), Cell(Notes, "x", Text("x"))])
      && Row(Earlier, earlier, ["timestamp", "notes"], line) ==
           Ok([Cell(Timestamp, raw, Text(earlier(raw).value))])
  {
    var line := raw + ",x";
    var headers := ["timestamp", "notes"];
    assert Lower("timestamp") == "timestamp" && Lower("notes") == "notes";
    assert Find(line, ',', 0) == |raw| by {
      assert line[|raw|] == ',';
      forall j | 0 <= j < |raw| ensures line[j] != ',' {
        assert line[j] == raw[j];
      }
      FindIs(line, ',', 0, |raw|);
    }
    assert Slice(line, 0, |raw|) == raw;
    assert Slice(line, |raw| + 1, |line|) == "x";
    var stampCell := Cell(Timestamp, raw, Text(later(raw).value));
    var notesCell := Cell(Notes, "x", Text("x"));
    assert FieldEnd(Current, headers, line, 0, 0) == Ok(|raw|);
    assert Factory(Current, later)(headers[0], raw) == Ok(stampCell);
    assert FieldEnd(Current, headers, line, 1, |raw| + 1) == Ok(|line|);
    assert Factory(Current, later)(headers[1], "x") == Ok(notesCell);
    assert RowFrom(Current, Factory(Current, later), headers, line, 2, |line| + 1) == Ok([]);
    RowStep(Current, Factory(Current, later), headers, line, 1, |raw| + 1, |line|, notesCell, []);
    assert [notesCell] + [] == [notesCell];
    RowStep(Current, Factory(Current, later), headers, line, 0, 0, |raw|, stampCell, [notesCell]);
    assert [stampCell] + [notesCell] == [stampCell, notesCell];
    var earlyCell := Cell(Timestamp, raw, Text(earlier(raw).value));
    assert FieldEnd(Earlier, headers, line, 0, 0) == Ok(|raw|);
    assert Factory(Earlier, earlier)(headers[0], raw) == Ok(earlyCell);
    assert RowFrom(Earlier, Factory(Earlier, earlier), headers, line, 1, |raw| + 1) == Ok([]);
    RowStep(Earlier, Factory(Earlier, earlier), headers, line, 0, 0, |raw|, earlyCell, []);
    assert [earlyCell] + [] == [earlyCell];
  }

  lemma {:induction false} EarlierIgnoresLastHeaderFrom(build: Builder, headers: seq<string>, x: string, y: string,
                                                        line: string, i: nat, start: nat)
    ensures RowFrom(Earlier, build, headers + [x], line, i, start)
         == RowFrom(Earlier, build, headers + [y], line, i, start)
    decreases |headers| - i
  {
    if i < |headers| {
      assert (headers + [x])[i] == headers[i] == (headers + [y])[i];
      var end := FieldEnd(Earlier, headers + [x], line, i, start);
      assert end == FieldEnd(Earlier, headers + [y], line, i, start);
      if end.Ok? {
        EarlierIgnoresLastHeaderFrom(build, headers, x, y, line, i + 1, end.value + 1);
      }
    }
  }

  /** The Earlier revision never looks at the last header: its name cannot raise KeyError
      and no cell is built for its column. */
  lemma EarlierIgnoresLastHeader(stamp: Stamp, headers: seq<string>, x: string, y: string, line: string)
    ensures Row(Earlier, stamp, headers + [x], line) == Row(Earlier, stamp, headers + [y], line)
  {
    EarlierIgnoresLastHeaderFrom(Factory(Earlier, stamp), headers, x, y, line, 0, 0);
  }
}
