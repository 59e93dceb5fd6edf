/** The per-column normalisation rules and the `col_lookups` table that chooses them
    by lower-cased header name. */
module Rules {
  import opened Str

  /** The exceptions the pipeline can raise. */
  datatype Error =
    | MissingComma(column: nat)           // `line.index(',', start)`: ValueError
    | UnknownColumn(header: string)       // `col_lookups[header.lower()]`: KeyError
    | InvalidDuration(text: string)       // `index(':')`, `int()` or `float()`: ValueError
    | InvalidTimestamp(text: string)      // `strptime`: ValueError
    | MissingDurationColumn(name: string) // `headers_lower.index(name)`: ValueError

  datatype Result<T> = Ok(value: T) | Err(error: Error)

  datatype Outcome = Pass | Fail(error: Error)

  /** The two revisions of the normaliser: `normalize_csv/normalize_csv.py` (Current)
      and the top-level `normalize_csv.py` (Earlier). */
  datatype Revision = Current | Earlier

  /** A revision's library timestamp conversion: the ISO-8601 text for a raw timestamp, or
      None where `strptime` raises. The Current revision parses, adds three hours and attaches
      US/Eastern (`strptime`, `timedelta`, `pytz`, `isoformat`); the Earlier one parses and
      formats only. Each `CSV` object is given its own. */
  type Stamp = string -> Option<string>

  /** The cell classes. */
  datatype Kind = Timestamp | Zip | Address | FooBarDuration | TotalDuration | Notes | FullName

  /** A cell's `normalized_text`: a string, or a float number of seconds. */
  datatype Value = Text(text: string) | Seconds(seconds: real)

  const ZipWidth: nat := 5

  /** `col_lookups`: lower-case column name to cell class. */
  const ColLookups: map<string, Kind> := map[
    "timestamp" := Timestamp,
    "zip" := Zip,
    "address" := Address,
    "barduration" := FooBarDuration,
    "fooduration" := FooBarDuration,
    "totalduration" := TotalDuration,
    "fullname" := FullName,
    "notes" := Notes
  ]

  /** The class `col_lookups[header.lower()]` picks, or None where it raises KeyError. */
  function Lookup(header: string): Option<Kind> {
    var key := Lower(header);
    if key in ColLookups then Some(ColLookups[key]) else None
  }

  /** The table is case-insensitive in the header: every known kind is reached by its
      lower-case name and by no other lower-cased header. */
  lemma LookupByName(header: string)
    ensures Lookup(header) == Some(Zip) <==> Lower(header) == "zip"
    ensures Lookup(header) == Some(FooBarDuration) <==>
      Lower(header) == "fooduration" || Lower(header) == "barduration"
    ensures Lookup(header) == Some(TotalDuration) <==> Lower(header) == "totalduration"
    ensures Lookup(header) == Some(Address) <==> Lower(header) == "address"
    ensures Lookup(header).None? <==> Lower(header) !in ColLookups
  {
  }

  /** `FooBarDurationCell.normalize`: `H:MM:SS` to `hours*3600 + minutes*60 + seconds`.
      The hours run to the first ':', the minutes to the next ':', the seconds to the end. */
  function ParseDuration(text: string): Option<real> {
    var e1 := Find(text, ':', 0);
    if e1 < 0 then None
    else match ParseInt(text[..e1])
      case None => None
      case Some(hours) => ParseMinutesSeconds(text, e1 + 1, hours)
  }

  /** The rest of `normalize` once the hours are read and the cursor is at `start`. */
  function ParseMinutesSeconds(text: string, start: nat, hours: nat): Option<real>
    requires start <= |text|
  {
    var e2 := Find(text, ':', start);
    if e2 < 0 then None
    else match ParseInt(text[start..e2])
      case None => None
      case Some(minutes) =>
        match ParseFloat(text[e2 + 1..])
        case None => None
        case Some(seconds) => Some((hours * 3600 + minutes * 60) as real + seconds)
  }

  /** The first ':' of `h:m:s` follows the hours. */
  lemma FirstColon(h: string, m: string, s: string)
    requires ':' !in h
    ensures Find(h + ":" + m + ":" + s, ':', 0) == |h|
  {
    var t := h + ":" + m + ":" + s;
    assert forall j :: 0 <= j < |h| ==> t[j] == h[j];
    FindIs(t, ':', 0, |h|);
  }

  /** The second ':' of `h:m:s` follows the minutes. */
  lemma SecondColon(h: string, m: string, s: string)
    requires ':' !in m
    ensures Find(h + ":" + m + ":" + s, ':', |h| + 1) == |h| + 1 + |m|
  {
    var t := h + ":" + m + ":" + s;
    assert forall j :: |h| + 1 <= j < |h| + 1 + |m| ==> t[j] == m[j - |h| - 1];
    FindIs(t, ':', |h| + 1, |h| + 1 + |m|);
  }

  lemma PartsOf(h: string, m: string, s: string)
    ensures var t := h + ":" + m + ":" + s;
      t[..|h|] == h && t[|h| + 1..|h| + 1 + |m|] == m && t[|h| + 1 + |m| + 1..] == s
  {
    var t := h + ":" + m + ":" + s;
    assert t[..|h|] == h;
    assert t[|h| + 1..|h| + 1 + |m|] == m;
    assert t[|h| + 1 + |m| + 1..] == s;
  }

  lemma DigitsHaveNoColon(x: string)
    requires IsDigits(x)
    ensures ':' !in x
  {
  }

  /** With its two colons at `e1` and `e2`, a duration parses from the three texts
      around them. */
  lemma HoursAt(t: string, h: string, hours: nat)
    requires Find(t, ':', 0) == |h| && t[..|h|] == h && ParseInt(h) == Some(hours)
    ensures ParseDuration(t) == ParseMinutesSeconds(t, |h| + 1, hours)
  {
  }

  lemma MinutesAt(t: string, start: nat, m: string, s: string, hours: nat, minutes: nat, seconds: real)
    requires start + |m| < |t| && Find(t, ':', start) == start + |m|
    requires t[start..start + |m|] == m && t[start + |m| + 1..] == s
    requires ParseInt(m) == Some(minutes) && ParseFloat(s) == Some(seconds)
    ensures ParseMinutesSeconds(t, start, hours) == Some((hours * 3600 + minutes * 60) as real + seconds)
  {
    var e2 := Find(t, ':', start);
    assert ParseInt(t[start..e2]) == Some(minutes);
    assert ParseFloat(t[e2 + 1..]) == Some(seconds);
  }

  /** A duration written as hours, minutes and seconds parses to its number of seconds
      (minutes and seconds are not range-checked). */
  lemma DurationOfParts(h: string, m: string, s: string)
    requires ParseInt(h).Some? && ParseInt(m).Some? && ParseFloat(s).Some?
    ensures ParseDuration(h + ":" + m + ":" + s) ==
      Some((ParseInt(h).value * 3600 + ParseInt(m).value * 60) as real + ParseFloat(s).value)
  {
    DigitsHaveNoColon(h);
    DigitsHaveNoColon(m);
    FirstColon(h, m, s);
    SecondColon(h, m, s);
    PartsOf(h, m, s);
    DurationOfText(h + ":" + m + ":" + s, h, m, s, ParseInt(h).value, ParseInt(m).value, ParseFloat(s).value);
  }

  lemma DurationOfText(t: string, h: string, m: string, s: string, hours: nat, minutes: nat, seconds: real)
    requires Find(t, ':', 0) == |h| && Find(t, ':', |h| + 1) == |h| + 1 + |m|
    requires |h| + 1 + |m| < |t|
    requires t[..|h|] == h && t[|h| + 1..|h| + 1 + |m|] == m && t[|h| + 1 + |m| + 1..] == s
    requires ParseInt(h) == Some(hours) && ParseInt(m) == Some(minutes) && ParseFloat(s) == Some(seconds)
    ensures ParseDuration(t) == Some((hours * 3600 + minutes * 60) as real + seconds)
  {
    HoursAt(t, h, hours);
    MinutesAt(t, |h| + 1, m, s, hours, minutes, seconds);
  }

  /** Parsing fails when the first ':' or the second ':' after it is missing. */
  lemma DurationNeedsTwoColons(a: string, b: string)
    requires ':' !in a && ':' !in b
    ensures ParseDuration(a).None?
    ensures ParseDuration(a + ":" + b).None?
  {
    FindIs(a, ':', 0, -1);
    var t := a + ":" + b;
    FindIs(t, ':', 0, |a|);
    assert t[|a| + 1..] == b;
    forall j | |a| + 1 <= j < |t|
      ensures t[j] != ':'
    {
      assert t[j] == b[j - |a| - 1];
    }
    FindIs(t, ':', |a| + 1, -1);
  }

  lemma IntExamples()
    ensures ParseInt("1") == Some(1) && ParseInt("02") == Some(2)
  {
    assert "1"[..0] == "" && "02"[..1] == "0" && "0"[..0] == "";
    assert DigitsValue("0") == 0;
  }

  lemma WholeFloatExample()
    ensures ParseFloat("03") == Some(3.0)
  {
    assert "03"[..1] == "0" && "0"[..0] == "";
    assert DigitsValue("03") == 3;
    FindIs("03", '.', 0, -1);
  }

  lemma FractionalFloatExample()
    ensures ParseFloat("03.5") == Some(3.5)
  {
    FindIs("03.5", '.', 0, 2);
    var whole, frac := "03.5"[..2], "03.5"[3..];
    assert whole == "03" && frac == "5";
    assert "03"[..1] == "0" && "0"[..0] == "";
    assert DigitsValue(whole) == 3;
    assert "5"[1..] == "";
    assert FracValue(frac) == 0.5;
  }

  /** `1:02:03` is 3723 seconds. */
  lemma DurationExample()
    ensures ParseDuration("1:02:03") == Some(3723.0)
  {
    assert "1" + ":" + "02" + ":" + "03" == "1:02:03";
    IntExamples();
    WholeFloatExample();
    DurationOfParts("1", "02", "03");
  }

  /** `1:02:03.5` is 3723.5 seconds. */
  lemma FractionalDurationExample()
    ensures ParseDuration("1:02:03.5") == Some(3723.5)
  {
    assert "1" + ":" + "02" + ":" + "03.5" == "1:02:03.5";
    IntExamples();
    FractionalFloatExample();
    DurationOfParts("1", "02", "03.5");
  }

  /** Every cell class's `normalize`, as a function of the cell's `original_text`.
      The Earlier revision's total-duration column leaves `normalized_text` at ''. */
  function Normalize(rev: Revision, stamp: Stamp, kind: Kind, text: string): (r: Result<Value>)
    ensures r.Err? <==>
      (kind == FooBarDuration && ParseDuration(text).None?) || (kind == Timestamp && stamp(text).None?)
    ensures r.Ok? ==> (r.value.Seconds? <==> kind == FooBarDuration)
  {
    match kind
    case Timestamp =>
      (match stamp(text)
       case None => Err(InvalidTimestamp(text))
       case Some(iso) => Ok(Text(iso)))
    case Zip => Ok(Text(ZFill(text, ZipWidth)))
    case Address => Ok(Text(text))
    case Notes => Ok(Text(text))
    case FullName => Ok(Text(Upper(text)))
    case FooBarDuration =>
      (match ParseDuration(text)
       case None => Err(InvalidDuration(text))
       case Some(seconds) => Ok(Seconds(seconds)))
    case TotalDuration => if rev == Current then Ok(Text(text)) else Ok(Text(""))
  }

  /** The text rules (zip, full name, address, notes) are idempotent: normalising a
      normalised value gives it back. */
  lemma {:induction false} TextRulesIdempotent(rev: Revision, stamp: Stamp, kind: Kind, text: string)
    requires kind in {Zip, FullName, Address, Notes}
    ensures Normalize(rev, stamp, kind, text).Ok?
    ensures var u := Normalize(rev, stamp, kind, text).value;
      u.Text? && Normalize(rev, stamp, kind, u.text) == Ok(u)
  {
    if kind == Zip {
      ZFillIdempotent(text, ZipWidth);
    } else if kind == FullName {
      UpperIdempotent(text);
    }
  }

  /** The zip rule pads to five characters, leaves longer values alone and keeps the
      number a digit string stands for. */
  lemma ZipRule(rev: Revision, stamp: Stamp, text: string)
    ensures var u := Normalize(rev, stamp, Zip, text).value.text;
      && |u| == (if |text| >= ZipWidth then |text| else ZipWidth)
      && (|text| >= ZipWidth ==> u == text)
      && (|text| < ZipWidth && (|text| == 0 || !IsSign(text[0])) ==> u == Zeros(ZipWidth - |text|) + text)
      && (IsDigits(text) ==> IsDigits(u) && DigitsValue(u) == DigitsValue(text))
  {
    ZFillShape(text, ZipWidth);
    if IsDigits(text) {
      ZFillKeepsValue(text, ZipWidth);
    }
  }

  /** The full-name rule upper-cases, and two names differing only in case normalise alike. */
  lemma FullNameRule(rev: Revision, stamp: Stamp, a: string, b: string)
    requires Lower(a) == Lower(b)
    ensures Normalize(rev, stamp, FullName, a) == Normalize(rev, stamp, FullName, b)
    ensures Normalize(rev, stamp, FullName, a) == Ok(Text(Upper(a)))
  {
    UpperIgnoresCase(a, b);
  }
}
