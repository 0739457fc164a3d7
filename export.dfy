// `Hominid::Base#call_export` (lib/hominid/base.rb:69-90): the export URI, and the
// decoding of the response body line by line, a header line of field names followed
// by one line per record. The HTTP GET is a parameter; each line arrives already
// decoded by JSON.parse, as an array of values or as the parse failure.

module Export {
  import opened Ruby
  import Client
  import Dispatch

  /** One exported record: header key to cell value. */
  type Record = map<string, Value>

  /** A body line after JSON.parse: an array, or the exception JSON.parse raised. */
  datatype Line = Row(cells: seq<Value>) | Unparsable(message: string)

  /** What `@exportApi.request_get(uri)` gives: the body's lines, or the exception. */
  datatype Fetched = Body(lines: seq<Line>) | FetchFailed(message: string)

  /** Why decoding stops: JSON.parse failed, or a header cell is not a String, so
      `gsub` is undefined for it (NoMethodError). */
  datatype DecodeError = ParseError(message: string) | HeaderNotString(cell: Value)

  /** The query string with the key and the list, then the status if there is one. */
  function ExportUri(apiKey: string, listId: string, status: Option<string>): (uri: string)
    ensures var base := Client.ExportPath + "?apikey=" + apiKey + "&id=" + listId;
      && base <= uri
      && (status.None? <==> uri == base)
      && (status.Some? ==> uri[|base|..] == "&status=" + status.value)
  {
    var base := Client.ExportPath + "?apikey=" + apiKey + "&id=" + listId;
    if status.Some? then base + "&status=" + status.value else base
  }

  lemma ExportUriExample()
    ensures ExportUri("k-us1", "42", None) == "/export/1.0/list/?apikey=k-us1&id=42"
  {
  }

  /** `k.gsub(" ", "_")`. */
  function Underscored(s: string): (r: string)
    ensures |r| == |s|
    ensures ' ' !in r
    ensures forall i :: 0 <= i < |s| ==> r[i] == (if s[i] == ' ' then '_' else s[i])
  {
    seq(|s|, i requires 0 <= i < |s| => if s[i] == ' ' then '_' else s[i])
  }

  /** `JSON.parse(l).map { |k| k.gsub(" ", "_") }` on the header line; the first cell
      that is not a String stops it. */
  function HeaderKeys(cells: seq<Value>): (r: Result<seq<string>, DecodeError>)
    ensures r.Ok? <==> forall i :: 0 <= i < |cells| ==> cells[i].Str?
    ensures r.Ok? ==>
      && |r.value| == |cells|
      && forall i :: 0 <= i < |cells| ==> r.value[i] == Underscored(cells[i].s)
    ensures r.Err? ==>
      exists i :: && 0 <= i < |cells| && r.error == HeaderNotString(cells[i]) && !cells[i].Str?
                  && forall j :: 0 <= j < i ==> cells[j].Str?
  {
    if |cells| == 0 then Ok([])
    else if !cells[0].Str? then Err(HeaderNotString(cells[0]))
    else
      match HeaderKeys(cells[1..])
      case Ok(keys) => Ok([Underscored(cells[0].s)] + keys)
      case Err(e) =>
        assert forall i :: 1 <= i < |cells| ==> cells[i] == cells[1..][i - 1];
        Err(e)
  }

  /** The cell that `zip` pairs with header position j: nil past the row's end. */
  function Cell(row: seq<Value>, j: nat): Value
  {
    if j < |row| then row[j] else Nil
  }

  /** `Hash[*keys.zip(row).flatten]`: pairs in header order, a later duplicate key
      replacing an earlier one. */
  function ZipRecord(keys: seq<string>, row: seq<Value>): (r: Record)
    ensures r.Keys == set k | k in keys
  {
    if |keys| == 0 then map[]
    else ZipRecord(keys[..|keys| - 1], row)[keys[|keys| - 1] := Cell(row, |keys| - 1)]
  }

  /** A key is paired with the cell at its last position in the header; a short row
      pairs it with nil. */
  lemma {:induction false} RecordLastOccurrenceWins(keys: seq<string>, row: seq<Value>, j: nat)
    requires j < |keys| && keys[j] !in keys[j + 1..]
    ensures ZipRecord(keys, row)[keys[j]] == Cell(row, j)
  {
    var n := |keys|;
    if j < n - 1 {
      assert keys[n - 1] in keys[j + 1..];
      assert keys[..n - 1][j + 1..] == keys[j + 1..n - 1];
      RecordLastOccurrenceWins(keys[..n - 1], row, j);
    }
  }

  /** Cells beyond the header's length are dropped. */
  lemma {:induction false} RecordDropsExtraCells(keys: seq<string>, row: seq<Value>)
    requires |keys| <= |row|
    ensures ZipRecord(keys, row[..|keys|]) == ZipRecord(keys, row)
  {
    if |keys| > 0 {
      RecordDropsExtraCells(keys[..|keys| - 1], row);
      assert row[..|keys|][..|keys| - 1] == row[..|keys| - 1];
      RecordPrefixAgree(keys[..|keys| - 1], row[..|keys|], row[..|keys| - 1]);
    }
  }

  lemma {:induction false} RecordPrefixAgree(keys: seq<string>, row1: seq<Value>, row2: seq<Value>)
    requires forall j :: 0 <= j < |keys| ==> Cell(row1, j) == Cell(row2, j)
    ensures ZipRecord(keys, row1) == ZipRecord(keys, row2)
  {
    if |keys| > 0 {
      RecordPrefixAgree(keys[..|keys| - 1], row1, row2);
    }
  }

  /** Decoding of the data lines after the header. */
  function DecodeRows(keys: seq<string>, rows: seq<Line>): (r: Result<seq<Record>, DecodeError>)
    ensures r.Ok? ==> |r.value| == |rows|
  {
    if |rows| == 0 then Ok([])
    else
      match rows[0]
      case Unparsable(m) => Err(ParseError(m))
      case Row(cells) =>
        match DecodeRows(keys, rows[1..])
        case Err(e) => Err(e)
        case Ok(records) => Ok([ZipRecord(keys, cells)] + records)
  }

  /** The whole body: line 0 gives the keys, every later line one record. */
  function DecodeLines(lines: seq<Line>): (r: Result<seq<Record>, DecodeError>)
    ensures lines == [] ==> r == Ok([])
    ensures r.Ok? && lines != [] ==> |r.value| == |lines| - 1
  {
    if |lines| == 0 then Ok([])
    else
      match lines[0]
      case Unparsable(m) => Err(ParseError(m))
      case Row(header) =>
        match HeaderKeys(header)
        case Err(e) => Err(e)
        case Ok(keys) => DecodeRows(keys, lines[1..])
  }

  /** Data lines decode exactly when all of them parse, into one record per line. */
  lemma {:induction false} DecodeRowsSucceeds(keys: seq<string>, rows: seq<Line>)
    ensures DecodeRows(keys, rows).Ok? <==> forall i :: 0 <= i < |rows| ==> rows[i].Row?
    ensures DecodeRows(keys, rows).Ok? ==>
      |DecodeRows(keys, rows).value| == |rows| &&
      forall i :: 0 <= i < |rows| ==> DecodeRows(keys, rows).value[i] == ZipRecord(keys, rows[i].cells)
  {
    if |rows| > 0 {
      DecodeRowsSucceeds(keys, rows[1..]);
      assert forall i :: 1 <= i < |rows| ==> rows[i] == rows[1..][i - 1];
    }
  }

  /** The first line that does not parse decides the error. */
  lemma {:induction false} DecodeRowsFirstFailure(keys: seq<string>, rows: seq<Line>, j: nat)
    requires j < |rows| && rows[j].Unparsable?
    requires forall i :: 0 <= i < j ==> rows[i].Row?
    ensures DecodeRows(keys, rows) == Err(ParseError(rows[j].message))
  {
    if j > 0 {
      DecodeRowsFirstFailure(keys, rows[1..], j - 1);
    }
  }

  /** A body of n >= 1 lines decodes into n - 1 records in line order, record i pairing
      the header keys with the cells of line i + 1; an empty body gives no records. */
  lemma DecodeLinesRecords(lines: seq<Line>)
    ensures lines == [] ==> DecodeLines(lines) == Ok([])
    ensures DecodeLines(lines).Ok? <==>
      lines == [] ||
      (lines[0].Row? && HeaderKeys(lines[0].cells).Ok? && forall i :: 1 <= i < |lines| ==> lines[i].Row?)
    ensures DecodeLines(lines).Ok? && lines != [] ==>
      var keys := HeaderKeys(lines[0].cells).value;
      |DecodeLines(lines).value| == |lines| - 1 &&
      forall i :: 0 <= i < |lines| - 1 ==> DecodeLines(lines).value[i] == ZipRecord(keys, lines[i + 1].cells)
  {
    if lines != [] && lines[0].Row? && HeaderKeys(lines[0].cells).Ok? {
      var keys := HeaderKeys(lines[0].cells).value;
      DecodeRowsSucceeds(keys, lines[1..]);
      assert forall i :: 1 <= i < |lines| ==> lines[i] == lines[1..][i - 1];
    }
  }

  lemma DecodeExample()
    ensures var r := DecodeLines([Row([Str("Email"), Str("First Name")]), Row([Str("a@b.com"), Str("Al")])]);
      r.Ok? && r.value == [map["Email" := Str("a@b.com"), "First_Name" := Str("Al")]]
  {
    var header := [Str("Email"), Str("First Name")];
    var row := [Str("a@b.com"), Str("Al")];
    var keys := ["Email", "First_Name"];
    ExampleHeader();
    ExampleRecord();
    var lines := [Row(header), Row(row)];
    assert lines[1..] == [Row(row)];
  }

  lemma ExampleHeader()
    ensures HeaderKeys([Str("Email"), Str("First Name")]).value == ["Email", "First_Name"]
  {
    ExampleUnderscored();
    assert [Str("Email"), Str("First Name")][1..] == [Str("First Name")];
    assert [Str("First Name")][1..] == [];
  }

  lemma ExampleUnderscored()
    ensures Underscored("Email") == "Email"
    ensures Underscored("First Name") == "First_Name"
  {
  }

  lemma ExampleRecord()
    ensures ZipRecord(["Email", "First_Name"], [Str("a@b.com"), Str("Al")])
      == map["Email" := Str("a@b.com"), "First_Name" := Str("Al")]
  {
    assert ["Email", "First_Name"][..1] == ["Email"];
  }

  /** The data lines hold no Array cells: `.flatten` is deep, and an Array cell would
      be spread into the key/value list. */
  predicate FlatRows(lines: seq<Line>)
  {
    |lines| <= 1 || (FlatLine(lines[|lines| - 1]) && FlatRows(lines[..|lines| - 1]))
  }

  predicate FlatLine(line: Line)
  {
    line.Row? ==> forall j :: 0 <= j < |line.cells| ==> !line.cells[j].Arr?
  }

  /** Decoding one more data line: a parsed line adds its record at the end. */
  lemma {:induction false} DecodeRowsSnoc(keys: seq<string>, rows: seq<Line>, cells: seq<Value>)
    requires DecodeRows(keys, rows).Ok?
    ensures DecodeRows(keys, rows + [Row(cells)]) == Ok(DecodeRows(keys, rows).value + [ZipRecord(keys, cells)])
  {
    if |rows| == 0 {
      assert [Row(cells)][1..] == [];
      assert DecodeRows(keys, [Row(cells)][1..]) == Ok([]);
      assert rows + [Row(cells)] == [Row(cells)];
      assert DecodeRows(keys, [Row(cells)]) == Ok([ZipRecord(keys, cells)] + []);
      assert DecodeRows(keys, rows).value + [ZipRecord(keys, cells)] == [ZipRecord(keys, cells)] + [];
    } else {
      var all := rows + [Row(cells)];
      assert all[0] == rows[0] && all[1..] == rows[1..] + [Row(cells)];
      DecodeRowsSnoc(keys, rows[1..], cells);
      var head := ZipRecord(keys, rows[0].cells);
      var tail := DecodeRows(keys, rows[1..]).value;
      assert DecodeRows(keys, rows).value == [head] + tail;
      assert DecodeRows(keys, all).value == [head] + (tail + [ZipRecord(keys, cells)]);
      assert [head] + (tail + [ZipRecord(keys, cells)]) == [head] + tail + [ZipRecord(keys, cells)];
    }
  }

  /** After data lines that all decode, a line that does not parse is the error,
      whatever follows it. */
  lemma {:induction false} DecodeRowsFailAppend(keys: seq<string>, rows: seq<Line>, message: string, rest: seq<Line>)
    requires DecodeRows(keys, rows).Ok?
    ensures DecodeRows(keys, rows + [Unparsable(message)] + rest) == Err(ParseError(message))
  {
    if |rows| > 0 {
      assert (rows + [Unparsable(message)] + rest)[1..] == rows[1..] + [Unparsable(message)] + rest;
      DecodeRowsFailAppend(keys, rows[1..], message, rest);
    }
  }

  /** What the loop knows after reading the first `i > 0` lines: the header gave
      `keys`, and the data lines so far gave `out`. */
  predicate ReadUpTo(lines: seq<Line>, i: nat, keys: seq<string>, out: seq<Record>)
  {
    0 < i <= |lines| && lines[0].Row? && HeaderKeys(lines[0].cells) == Ok(keys) &&
    DecodeRows(keys, lines[1..i]) == Ok(out)
  }

  lemma ReadNextRow(lines: seq<Line>, i: nat, keys: seq<string>, out: seq<Record>)
    requires ReadUpTo(lines, i, keys, out) && i < |lines| && lines[i].Row?
    ensures ReadUpTo(lines, i + 1, keys, out + [ZipRecord(keys, lines[i].cells)])
  {
    assert lines[1..i + 1] == lines[1..i] + [lines[i]];
    DecodeRowsSnoc(keys, lines[1..i], lines[i].cells);
  }

  lemma ReadFailure(lines: seq<Line>, i: nat, keys: seq<string>, out: seq<Record>)
    requires ReadUpTo(lines, i, keys, out) && i < |lines| && lines[i].Unparsable?
    ensures DecodeLines(lines) == Err(ParseError(lines[i].message))
  {
    assert lines[1..] == lines[1..i] + [lines[i]] + lines[i + 1..];
    DecodeRowsFailAppend(keys, lines[1..i], lines[i].message, lines[i + 1..]);
  }

  lemma ReadAll(lines: seq<Line>, keys: seq<string>, out: seq<Record>)
    requires ReadUpTo(lines, |lines|, keys, out)
    ensures DecodeLines(lines) == Ok(out)
  {
    assert lines[1..|lines|] == lines[1..];
  }

  /** The `each_with_index` loop: the header is read at index 0; from then on each
      line is appended to `out` as a record; the first failure ends the loop. */
  method DecodeExport(lines: seq<Line>) returns (r: Result<seq<Record>, DecodeError>)
    requires FlatRows(lines)
    ensures r == DecodeLines(lines)
  {
    var out: seq<Record> := [];
    var keys: seq<string> := [];
    var i := 0;
    while i < |lines|
      invariant 0 <= i <= |lines|
      invariant i == 0 ==> out == []
      invariant i > 0 ==> ReadUpTo(lines, i, keys, out)
    {
      if lines[i].Unparsable? {
        if i > 0 {
          ReadFailure(lines, i, keys, out);
        }
        return Err(ParseError(lines[i].message));
      }
      if i == 0 {
        var header := HeaderKeys(lines[i].cells);
        if header.Err? {
          return Err(header.error);
        }
        keys := header.value;
        assert lines[1..1] == [];
      } else {
        ReadNextRow(lines, i, keys, out);
        out := out + [ZipRecord(keys, lines[i].cells)];
      }
      i := i + 1;
    }
    if i > 0 {
      ReadAll(lines, keys, out);
    }
    return Ok(out);
  }

  function FailureMessage(e: DecodeError, describe: Value -> string): string
  {
    match e
    case ParseError(m) => m
    case HeaderNotString(cell) => describe(cell)
  }

  /** `call_export(list_id, status)`, with the HTTP GET as `get` and the text of the
      NoMethodError for a non-String header cell as `describe`. Every failure becomes
      a CommunicationError carrying the underlying message. */
  method CallExport(b: Client.Base, listId: string, status: Option<string>,
                    get: (Client.Endpoint, string) -> Fetched, describe: Value -> string)
    returns (r: Result<seq<Record>, Dispatch.CallError>)
    requires b.Valid()
    requires get(b.exportApi, ExportUri(b.ApiKey(), listId, status)).Body? ==> FlatRows(get(b.exportApi, ExportUri(b.ApiKey(), listId, status)).lines)
    ensures r.Err? ==> r.error.CommunicationError?
    ensures match get(b.exportApi, ExportUri(b.ApiKey(), listId, status))
      case FetchFailed(m) => r == Err(Dispatch.CommunicationError(m))
      case Body(lines) =>
        match DecodeLines(lines)
        case Ok(records) => r == Ok(records)
        case Err(e) => r == Err(Dispatch.CommunicationError(FailureMessage(e, describe)))
  {
    var uri := ExportUri(b.ApiKey(), listId, status);
    match get(b.exportApi, uri)
    case FetchFailed(m) =>
      r := Err(Dispatch.CommunicationError(m));
    case Body(lines) =>
      var decoded := DecodeExport(lines);
      match decoded
      case Ok(records) => r := Ok(records);
      case Err(e) => r := Err(Dispatch.CommunicationError(FailureMessage(e, describe)));
  }
}
