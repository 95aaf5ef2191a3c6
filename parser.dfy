/**
 * The CSV reader: delimiter detection on the first line, headers from the
 * first line, and one JSON object per non-blank data line keyed by the
 * headers. Encoding detection and decoding are outside the model: the
 * content arrives already decoded.
 */
module Parser {
  import opened Wrappers
  import opened Json
  import Text

  /** A parse failure with its line number and optional column and value. */
  datatype CsvError = CsvError(line: nat, column: Option<string>, value: Option<string>, message: string)

  /** The records with the encoding, delimiter and headers used to read them. */
  datatype ParseResult = ParseResult(records: seq<Value>, encoding: string, delimiter: char, headers: seq<string>)

  // ---------------------------------------------------------------------------
  // Delimiter detection
  // ---------------------------------------------------------------------------

  /** The candidate delimiters, in order of preference. */
  const Separators: seq<char> := [';', ',', '\t', '|']

  /** The place of `c` among the candidates; 4 for any other character. */
  function Position(c: char): (p: nat)
    ensures p <= |Separators|
    ensures p < |Separators| <==> c in Separators
    ensures p < |Separators| ==> Separators[p] == c
  {
    if c == ';' then 0 else if c == ',' then 1 else if c == '\t' then 2 else if c == '|' then 3 else 4
  }

  /** The first line of the content, "" when there is none. */
  function FirstLine(content: string): string {
    var lines := Text.Lines(content);
    if lines == [] then "" else lines[0]
  }

  /**
   * `d` is the delimiter to pick for `line`: a candidate occurring at least
   * as often as every candidate, and strictly more often than every
   * candidate listed before it.
   */
  predicate Chosen(line: string, d: char) {
    && d in Separators
    && (forall k :: 0 <= k < |Separators| ==> Text.CountChar(line, Separators[k]) <= Text.CountChar(line, d))
    && (forall k :: 0 <= k < |Separators| && k < Position(d) ==> Text.CountChar(line, Separators[k]) < Text.CountChar(line, d))
  }

  /**
   * `detect_delimiter`: the earliest of ';' ',' '\t' '|' with the strictly
   * greatest count in the first line.
   */
  method DetectDelimiter(content: string) returns (d: char)
    ensures Chosen(FirstLine(content), d)
  {
    var line := FirstLine(content);
    d := ';';
    var best := 0;
    ghost var pos := 0;
    for i := 0 to |Separators|
      invariant pos < |Separators| && d == Separators[pos] && (pos == 0 || pos < i)
      invariant best == Text.CountChar(line, d) || (i == 0 && best == 0)
      invariant forall k :: 0 <= k < i ==> Text.CountChar(line, Separators[k]) <= best
      invariant forall k :: 0 <= k < pos ==> Text.CountChar(line, Separators[k]) < best
    {
      var count := Text.CountChar(line, Separators[i]);
      ghost var previous := best;
      if count > best {
        best := count;
        d := Separators[i];
        pos := i;
      }
      forall k | 0 <= k <= i ensures Text.CountChar(line, Separators[k]) <= best {
        assert k < i ==> Text.CountChar(line, Separators[k]) <= previous <= best;
      }
    }
    LoopEndChosen(line, d, pos, best);
  }

  /** What the detection loop leaves behind is the delimiter to pick. */
  lemma LoopEndChosen(line: string, d: char, pos: nat, best: nat)
    requires pos < |Separators| && d == Separators[pos] && best == Text.CountChar(line, d)
    requires forall k :: 0 <= k < |Separators| ==> Text.CountChar(line, Separators[k]) <= best
    requires forall k :: 0 <= k < pos ==> Text.CountChar(line, Separators[k]) < best
    ensures Chosen(line, d)
  {
    assert Position(d) == pos;
  }

  /** At most one candidate is the one to pick. */
  lemma ChosenUnique(line: string, d: char, e: char)
    requires Chosen(line, d) && Chosen(line, e)
    ensures d == e
  {
  }

  /** A first line without any candidate gives ';'. */
  lemma NoSeparatorGivesSemicolon(line: string, d: char)
    requires forall k :: 0 <= k < |Separators| ==> Separators[k] !in line
    requires Chosen(line, d)
    ensures d == ';'
  {
    assert Text.CountChar(line, d) == 0 by {
      assert d == Separators[Position(d)];
    }
    assert Text.CountChar(line, Separators[0]) == 0;
  }

  // ---------------------------------------------------------------------------
  // Cells, headers and records
  // ---------------------------------------------------------------------------

  /** A cell as read: trimmed, then stripped of every leading and trailing '"'. */
  function Cell(raw: string): (r: string)
    ensures |r| <= |raw|
    ensures r == [] || (r[0] != '"' && r[|r| - 1] != '"')
    ensures var t := Text.Trim(raw);
      exists i, j :: (0 <= i <= j <= |t| && r == t[i..j] && Text.AllChar(t[..i], '"') && Text.AllChar(t[j..], '"'))
  {
    Text.TrimMatchesSlice(Text.Trim(raw), '"');
    Text.TrimMatches(Text.Trim(raw), '"')
  }

  /** A cell with no surrounding whitespace and no surrounding quote is read as it is. */
  lemma CleanCellUnchanged(raw: string)
    requires raw != []
    requires !Text.IsWhitespace(raw[0]) && !Text.IsWhitespace(raw[|raw| - 1])
    requires raw[0] != '"' && raw[|raw| - 1] != '"'
    ensures Cell(raw) == raw
  {
    assert Text.TrimStart(raw) == raw;
    assert Text.TrimEnd(raw) == raw;
  }

  /** The pieces of a line between delimiters. */
  function Pieces(line: string, delimiter: char): (r: seq<string>)
    ensures |r| >= 1
  {
    Text.Split(line, [delimiter])
  }

  /** The header line split on the delimiter, each piece read as a cell. */
  function HeadersOf(line: string, delimiter: char): (r: seq<string>)
    ensures |r| == |Pieces(line, delimiter)| >= 1
    ensures forall i :: 0 <= i < |r| ==> r[i] == Cell(Pieces(line, delimiter)[i])
  {
    var parts := Pieces(line, delimiter);
    seq(|parts|, i requires 0 <= i < |parts| => Cell(parts[i]))
  }

  /** The `i`-th cell of a line, "" past its last piece. */
  function CellAt(values: seq<string>, i: nat): string {
    if i < |values| then Cell(values[i]) else ""
  }

  /** The object built by inserting each header in turn with its cell; a repeated header keeps its last cell. */
  function Fields(headers: seq<string>, values: seq<string>): map<string, Value>
    decreases |headers|
  {
    if headers == [] then map[]
    else Fields(headers[..|headers| - 1], values)[headers[|headers| - 1] := Str(CellAt(values, |headers| - 1))]
  }

  /** The record of one data line. */
  function RecordOf(headers: seq<string>, line: string, delimiter: char): Value {
    Obj(Fields(headers, Pieces(line, delimiter)))
  }

  /** Every record has exactly the header keys. */
  lemma {:induction false} FieldsKeys(headers: seq<string>, values: seq<string>)
    ensures Fields(headers, values).Keys == set h | h in headers
    decreases |headers|
  {
    if headers != [] {
      var init := headers[..|headers| - 1];
      FieldsKeys(init, values);
      assert headers == init + [headers[|headers| - 1]];
    }
  }

  /**
   * Each header holds the cell below it, "" when the line is short; cells
   * beyond the headers are never read. A repeated header holds the cell of
   * its last occurrence.
   */
  lemma {:induction false} FieldsValues(headers: seq<string>, values: seq<string>, i: nat)
    requires i < |headers|
    requires forall j :: i < j < |headers| ==> headers[j] != headers[i]
    ensures headers[i] in Fields(headers, values)
    ensures Fields(headers, values)[headers[i]] == Str(if i < |values| then Cell(values[i]) else "")
    decreases |headers|
  {
    if i < |headers| - 1 {
      FieldsValues(headers[..|headers| - 1], values, i);
    }
  }

  /** The cells past the last header do not change the record. */
  lemma {:induction false} ExtraCellsIgnored(headers: seq<string>, values: seq<string>, extra: seq<string>)
    requires |headers| <= |values|
    ensures Fields(headers, values + extra) == Fields(headers, values)
    decreases |headers|
  {
    if headers != [] {
      ExtraCellsIgnored(headers[..|headers| - 1], values, extra);
      assert (values + extra)[|headers| - 1] == values[|headers| - 1];
    }
  }

  /** The data lines that are not blank, in order. */
  function NonBlank(lines: seq<string>): (r: seq<string>)
    ensures |r| <= |lines|
    ensures forall k :: 0 <= k < |r| ==> !Text.IsBlank(r[k])
    decreases |lines|
  {
    if lines == [] then []
    else
      var init := NonBlank(lines[..|lines| - 1]);
      if Text.IsBlank(lines[|lines| - 1]) then init else init + [lines[|lines| - 1]]
  }

  /** A line is kept exactly when it is one of the data lines and is not blank. */
  lemma {:induction false} NonBlankMembers(lines: seq<string>)
    ensures forall x :: x in NonBlank(lines) <==> x in lines && !Text.IsBlank(x)
    decreases |lines|
  {
    if lines != [] {
      var init := lines[..|lines| - 1];
      NonBlankMembers(init);
      assert lines == init + [lines[|lines| - 1]];
    }
  }

  /** Filtering keeps the order of the lines: it distributes over concatenation. */
  lemma {:induction false} NonBlankAppend(a: seq<string>, b: seq<string>)
    ensures NonBlank(a + b) == NonBlank(a) + NonBlank(b)
    decreases |b|
  {
    if b == [] {
      assert a + b == a;
    } else {
      var init := b[..|b| - 1];
      NonBlankAppend(a, init);
      assert (a + b)[..|a + b| - 1] == a + init;
      assert (a + b)[|a + b| - 1] == b[|b| - 1];
    }
  }

  /** The records of the data lines: blank lines skipped, one record per other line. */
  function Records(headers: seq<string>, lines: seq<string>, delimiter: char): seq<Value>
    decreases |lines|
  {
    if lines == [] then []
    else
      var init := Records(headers, lines[..|lines| - 1], delimiter);
      var line := lines[|lines| - 1];
      if Text.IsBlank(line) then init else init + [RecordOf(headers, line, delimiter)]
  }

  /** One record per non-blank data line, in order. */
  lemma {:induction false} RecordsOfNonBlank(headers: seq<string>, lines: seq<string>, delimiter: char)
    ensures |Records(headers, lines, delimiter)| == |NonBlank(lines)|
    ensures forall k :: 0 <= k < |NonBlank(lines)| ==>
      Records(headers, lines, delimiter)[k] == RecordOf(headers, NonBlank(lines)[k], delimiter)
    decreases |lines|
  {
    if lines != [] {
      RecordsOfNonBlank(headers, lines[..|lines| - 1], delimiter);
    }
  }

  /** Every record is an object whose keys are exactly the headers. */
  lemma {:induction false} RecordsHaveHeaderKeys(headers: seq<string>, lines: seq<string>, delimiter: char)
    ensures forall v :: v in Records(headers, lines, delimiter) ==> v.Obj? && v.fields.Keys == set h | h in headers
    decreases |lines|
  {
    if lines != [] {
      RecordsHaveHeaderKeys(headers, lines[..|lines| - 1], delimiter);
      FieldsKeys(headers, Pieces(lines[|lines| - 1], delimiter));
    }
  }

  /** Only empty content has no lines. */
  lemma LinesEmptyIff(s: string)
    ensures Text.Lines(s) == [] <==> s == []
  {
    if s != [] {
      var parts := Text.SplitOn(s, "\n");
      if |parts| == 1 {
        Text.JoinSplitOn(s, "\n");
      }
    }
  }

  /** One more header inserts its cell over the record of the headers before it. */
  lemma FieldsStep(headers: seq<string>, values: seq<string>, i: nat)
    requires i < |headers|
    ensures Fields(headers[..i + 1], values) == Fields(headers[..i], values)[headers[i] := Str(CellAt(values, i))]
  {
    assert headers[..i + 1][..i] == headers[..i];
  }

  /** The inner loop: each header inserted in turn with its cell. */
  method RowRecord(headers: seq<string>, line: string, delimiter: char) returns (r: Value)
    ensures r == RecordOf(headers, line, delimiter)
  {
    var values := Pieces(line, delimiter);
    var obj: map<string, Value> := map[];
    for i := 0 to |headers|
      invariant obj == Fields(headers[..i], values)
    {
      var raw := if i < |values| then Cell(values[i]) else "";
      FieldsStep(headers, values, i);
      obj := obj[headers[i] := Str(raw)];
    }
    assert headers[..|headers|] == headers;
    r := Obj(obj);
  }

  /** The data-line loop shared by `parse_string_with_metadata` and `parse_csv`. */
  method ParseRows(headers: seq<string>, lines: seq<string>, delimiter: char) returns (records: seq<Value>)
    ensures records == Records(headers, lines, delimiter)
  {
    records := [];
    for i := 0 to |lines|
      invariant records == Records(headers, lines[..i], delimiter)
    {
      assert lines[..i + 1][..i] == lines[..i];
      if !Text.IsBlank(lines[i]) {
        var record := RowRecord(headers, lines[i], delimiter);
        records := records + [record];
      }
    }
    assert lines[..|lines|] == lines;
  }

  /** The outcome for empty content. */
  function EmptyFile(): CsvError {
    CsvError(1, None, None, "Empty CSV file")
  }

  /**
   * `parse_string_with_metadata`: empty content is an error at line 1;
   * otherwise the headers of the first line, one record per non-blank later
   * line, and the given delimiter and encoding.
   */
  method ParseStringWithMetadata(content: string, delimiter: char, encoding: string) returns (r: Result<ParseResult, CsvError>)
    ensures r.Err? <==> content == []
    ensures r.Err? ==> r.error == EmptyFile()
    ensures r.Ok? ==>
      var headers := HeadersOf(FirstLine(content), delimiter);
      r.value == ParseResult(Records(headers, Text.Lines(content)[1..], delimiter), encoding, delimiter, headers)
  {
    LinesEmptyIff(content);
    var lines := Text.Lines(content);
    if |lines| == 0 {
      return Err(EmptyFile());
    }
    var headers := HeadersOf(lines[0], delimiter);
    var records := ParseRows(headers, lines[1..], delimiter);
    r := Ok(ParseResult(records, encoding, delimiter, headers));
  }

  /** `parse_csv` on readable content: the same records as `parse_string_with_metadata`. */
  method ParseCsv(content: string, delimiter: char) returns (r: Result<seq<Value>, CsvError>)
    ensures r.Err? <==> content == []
    ensures r.Err? ==> r.error == EmptyFile()
    ensures r.Ok? ==> r.value == Records(HeadersOf(FirstLine(content), delimiter), Text.Lines(content)[1..], delimiter)
  {
    LinesEmptyIff(content);
    var lines := Text.Lines(content);
    if |lines| == 0 {
      return Err(EmptyFile());
    }
    var headers := HeadersOf(lines[0], delimiter);
    var records := ParseRows(headers, lines[1..], delimiter);
    r := Ok(records);
  }

  /** `parse_bytes_auto` once the content is decoded: the detected delimiter, then the parse. */
  method ParseAuto(content: string, encoding: string) returns (r: Result<ParseResult, CsvError>)
    ensures r.Err? <==> content == []
    ensures r.Ok? ==> Chosen(FirstLine(content), r.value.delimiter) && r.value.encoding == encoding
    ensures r.Ok? ==> r.value.headers == HeadersOf(FirstLine(content), r.value.delimiter)
    ensures r.Ok? ==> r.value.records == Records(r.value.headers, Text.Lines(content)[1..], r.value.delimiter)
    ensures r.Err? ==> r.error == EmptyFile()
  {
    var delimiter := DetectDelimiter(content);
    r := ParseStringWithMetadata(content, delimiter, encoding);
  }
}
