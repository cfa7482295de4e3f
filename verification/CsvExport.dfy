/**
 * Report export: a CSV printer, the reader of section 2 of RFC 4180 as its
 * specification, and the paging loop that feeds the printer.
 */
module CsvExport {
  import opened Options

  // ---------------------------------------------------------------- the printer

  /** A cell value: null and undefined, or the text that `String(value)` gives. */
  type Cell = Option<string>

  const GUARDED: set<char> := {'=', '+', '-', '@', '\t', '\r'}

  /** Spreadsheet formula guard: a quote mark in front of text that could start a formula. */
  function Guard(raw: string): (safe: string)
    ensures safe == "" || safe[0] !in GUARDED
  {
    if raw != "" && raw[0] in GUARDED then "'" + raw else raw
  }

  function CellText(cell: Cell): (text: string)
    ensures text == "" || text[0] !in GUARDED
  {
    match cell
    case None => Guard("")
    case Some(raw) => Guard(raw)
  }

  /** `text.replace(/"/g, '""')` */
  function Doubled(text: string): string {
    if text == "" then "" else (if text[0] == '\"' then "\"\"" else [text[0]]) + Doubled(text[1..])
  }

  function Quoted(text: string): string {
    "\"" + Doubled(text) + "\""
  }

  /** One line: the quoted texts joined by commas. */
  function Line(texts: seq<string>): string {
    if |texts| == 0 then "" else if |texts| == 1 then Quoted(texts[0]) else Quoted(texts[0]) + "," + Line(texts[1..])
  }

  /** The lines joined by line breaks. */
  function Document(table: seq<seq<string>>): string {
    if |table| == 0 then ""
    else if |table| == 1 then Line(table[0])
    else Line(table[0]) + "\r\n" + Document(table[1..])
  }

  function Texts(cells: seq<Cell>): (texts: seq<string>)
    ensures |texts| == |cells|
  {
    seq(|cells|, i requires 0 <= i < |cells| => CellText(cells[i]))
  }

  /** Header and rows as the guarded texts that are to be printed. */
  function Table(headers: seq<string>, rows: seq<seq<Cell>>): (table: seq<seq<string>>)
    ensures |table| == |rows| + 1
  {
    [seq(|headers|, i requires 0 <= i < |headers| => Guard(headers[i]))]
    + seq(|rows|, i requires 0 <= i < |rows| => Texts(rows[i]))
  }

  function ToCsv(headers: seq<string>, rows: seq<seq<Cell>>): string {
    Document(Table(headers, rows))
  }

  // ---------------------------------------------------------------- the reader of RFC 4180, section 2

  datatype Read<T> = Read(value: T, rest: string)

  predicate IsText(c: char) {
    c != '\"' && c != ',' && c != '\r' && c != '\n'
  }

  /** non-escaped = *TEXTDATA */
  function ReadBare(s: string): (r: Read<string>)
    ensures |r.rest| <= |s|
  {
    if s == "" || !IsText(s[0]) then Read("", s)
    else var tail := ReadBare(s[1..]); Read([s[0]] + tail.value, tail.rest)
  }

  /** escaped = DQUOTE *(TEXTDATA / COMMA / CR / LF / 2DQUOTE) DQUOTE, after its first quote. */
  function ReadEscaped(s: string): (r: Option<Read<string>>)
    ensures r.Some? ==> |r.value.rest| < |s|
  {
    if s == "" then None
    else if s[0] != '\"' then
      match ReadEscaped(s[1..])
      case None => None
      case Some(tail) => Some(Read([s[0]] + tail.value, tail.rest))
    else if |s| > 1 && s[1] == '\"' then
      match ReadEscaped(s[2..])
      case None => None
      case Some(tail) => Some(Read("\"" + tail.value, tail.rest))
    else Some(Read("", s[1..]))
  }

  /** field = (escaped / non-escaped) */
  function ReadField(s: string): (r: Option<Read<string>>)
    ensures r.Some? ==> |r.value.rest| <= |s|
  {
    if s != "" && s[0] == '\"' then ReadEscaped(s[1..]) else Some(ReadBare(s))
  }

  /** record = field *(COMMA field) */
  function ReadRecord(s: string): (r: Option<Read<seq<string>>>)
    ensures r.Some? ==> |r.value.rest| <= |s| && |r.value.value| >= 1
    decreases |s|
  {
    match ReadField(s)
    case None => None
    case Some(field) =>
      if field.rest == "" || field.rest[0] != ',' then Some(Read([field.value], field.rest))
      else match ReadRecord(field.rest[1..])
        case None => None
        case Some(others) => Some(Read([field.value] + others.value, others.rest))
  }

  /** file = record *(CRLF record) [CRLF] */
  function ReadFile(s: string): Option<seq<seq<string>>>
    decreases |s|
  {
    match ReadRecord(s)
    case None => None
    case Some(record) =>
      if record.rest == "" || record.rest == "\r\n" then Some([record.value])
      else if |record.rest| > 2 && record.rest[..2] == "\r\n" then
        match ReadFile(record.rest[2..])
        case None => None
        case Some(others) => Some([record.value] + others)
      else None
  }

  // ---------------------------------------------------------------- round trip

  lemma {:induction false} EscapedRoundTrip(text: string, rest: string)
    requires rest == "" || rest[0] != '\"'
    ensures ReadEscaped(Doubled(text) + "\"" + rest) == Some(Read(text, rest))
  {
    var s := Doubled(text) + "\"" + rest;
    if text == "" {
      assert s == "\"" + rest;
    } else {
      var tail := Doubled(text[1..]) + "\"" + rest;
      EscapedRoundTrip(text[1..], rest);
      if text[0] == '\"' {
        assert s == "\"\"" + tail;
        assert s[2..] == tail;
      } else {
        assert s == [text[0]] + tail;
        assert s[1..] == tail;
      }
      assert [text[0]] + text[1..] == text;
    }
  }

  lemma FieldRoundTrip(text: string, rest: string)
    requires rest == "" || rest[0] != '\"'
    ensures ReadField(Quoted(text) + rest) == Some(Read(text, rest))
  {
    var s := Quoted(text) + rest;
    assert s[1..] == Doubled(text) + "\"" + rest;
    EscapedRoundTrip(text, rest);
  }

  /** What a reader sees on a line: an empty line holds one empty field. */
  function Shown(texts: seq<string>): seq<string> {
    if |texts| == 0 then [""] else texts
  }

  /** One step of the record reader: a field, a comma, and the record after it. */
  lemma ReadRecordStep(s: string, text: string, next: string)
    requires ReadField(s) == Some(Read(text, "," + next))
    ensures ReadRecord(s) == match ReadRecord(next)
                             case None => None
                             case Some(others) => Some(Read([text] + others.value, others.rest))
  {
    assert ("," + next)[1..] == next;
  }

  lemma Regroup(a: string, b: string, c: string, rest: string)
    ensures a + b + c + rest == a + (b + (c + rest))
  {
  }

  lemma LineStep(texts: seq<string>, rest: string)
    requires |texts| > 1
    ensures Line(texts) + rest == Quoted(texts[0]) + ("," + (Line(texts[1..]) + rest))
  {
    Regroup(Quoted(texts[0]), ",", Line(texts[1..]), rest);
  }

  lemma {:induction false} LineRoundTrip(texts: seq<string>, rest: string)
    requires rest == "" || rest[0] == '\r'
    ensures ReadRecord(Line(texts) + rest) == Some(Read(Shown(texts), rest))
  {
    if |texts| == 0 {
      assert Line(texts) + rest == rest;
    } else if |texts| == 1 {
      FieldRoundTrip(texts[0], rest);
      assert texts == [texts[0]];
    } else {
      var next := Line(texts[1..]) + rest;
      LineStep(texts, rest);
      FieldRoundTrip(texts[0], "," + next);
      ReadRecordStep(Line(texts) + rest, texts[0], next);
      LineRoundTrip(texts[1..], rest);
      assert texts == [texts[0]] + texts[1..];
    }
  }

  /** What a reader sees of a whole document: an empty last line is only a line break. */
  function ShownTable(table: seq<seq<string>>): seq<seq<string>>
    requires |table| >= 1
  {
    if |table| == 1 || (|table| == 2 && |table[1]| == 0) then [Shown(table[0])]
    else [Shown(table[0])] + ShownTable(table[1..])
  }

  lemma {:induction false} DocumentReads(table: seq<seq<string>>)
    requires |table| >= 1
    ensures ReadFile(Document(table)) == Some(ShownTable(table))
  {
    if |table| == 1 {
      LineRoundTrip(table[0], "");
      assert Line(table[0]) + "" == Line(table[0]);
    } else {
      var more := Document(table[1..]);
      var rest := "\r\n" + more;
      assert Document(table) == Line(table[0]) + rest;
      LineRoundTrip(table[0], rest);
      DocumentReads(table[1..]);
      assert rest[..2] == "\r\n" && rest[2..] == more;
      OnlyEmptyLines(table[1..]);
      assert more == "" <==> rest == "\r\n";
    }
  }

  lemma OnlyEmptyLines(table: seq<seq<string>>)
    requires |table| >= 1
    ensures Document(table) == "" <==> |table| == 1 && |table[0]| == 0
  {
  }

  lemma {:induction false} ShownExactly(table: seq<seq<string>>)
    requires |table| >= 1
    ensures ShownTable(table) == table <==> forall i :: 0 <= i < |table| ==> |table[i]| > 0
  {
    var shown := ShownTable(table);
    assert shown[0] == Shown(table[0]);
    if |table| == 1 {
      assert table == [table[0]];
    } else if |table| == 2 && |table[1]| == 0 {
      assert |shown| == 1;
    } else {
      ShownExactly(table[1..]);
      assert shown[1..] == ShownTable(table[1..]);
      assert table == [table[0]] + table[1..];
      if forall i :: 0 <= i < |table[1..]| ==> |table[1..][i]| > 0 {
        assert forall i :: 1 <= i < |table| ==> table[i] == table[1..][i - 1];
      }
    }
  }

  /**
   * Reading an export back gives the header and every row, cell by cell, as
   * guarded texts, exactly when no line is without columns.
   */
  lemma ExportRoundTrip(headers: seq<string>, rows: seq<seq<Cell>>)
    ensures ReadFile(ToCsv(headers, rows)) == Some(Table(headers, rows))
       <==> |headers| > 0 && forall i :: 0 <= i < |rows| ==> |rows[i]| > 0
  {
    var table := Table(headers, rows);
    DocumentReads(table);
    ShownExactly(table);
    assert |table[0]| == |headers|;
    assert forall i :: 0 <= i < |rows| ==> |table[i + 1]| == |rows[i]|;
    if |headers| > 0 && forall i :: 0 <= i < |rows| ==> |rows[i]| > 0 {
      forall i | 0 <= i < |table| ensures |table[i]| > 0 {
        if i > 0 {
          assert |table[i - 1 + 1]| == |rows[i - 1]|;
        }
      }
    }
  }

  /** What is to be read for a cell: nothing for a missing value, and a quote mark before a formula character. */
  predicate Decodes(text: string, cell: Cell) {
    match cell
    case None => text == ""
    case Some(raw) =>
      text == if raw != "" && raw[0] in {'=', '+', '-', '@', '\t', '\r'} then ['\''] + raw else raw
  }

  /** Every header and every cell is read back in its place, as itself or behind a quote mark. */
  lemma DecodedCells(headers: seq<string>, rows: seq<seq<Cell>>)
    requires |headers| > 0 && forall i :: 0 <= i < |rows| ==> |rows[i]| > 0
    ensures ReadFile(ToCsv(headers, rows)).Some?
    ensures var read := ReadFile(ToCsv(headers, rows)).value;
            && |read| == |rows| + 1 && |read[0]| == |headers|
            && (forall k :: 0 <= k < |headers| ==> Decodes(read[0][k], Some(headers[k])))
            && (forall i :: 0 <= i < |rows| ==> |read[i + 1]| == |rows[i]|)
            && (forall i, k :: 0 <= i < |rows| && 0 <= k < |rows[i]| ==> Decodes(read[i + 1][k], rows[i][k]))
  {
    ExportRoundTrip(headers, rows);
    var table := Table(headers, rows);
    forall k | 0 <= k < |headers| ensures Decodes(table[0][k], Some(headers[k])) {
      assert table[0][k] == Guard(headers[k]);
    }
    forall i, k | 0 <= i < |rows| && 0 <= k < |rows[i]| ensures Decodes(table[i + 1][k], rows[i][k]) {
      assert table[i + 1][k] == CellText(rows[i][k]);
      CellDecodes(rows[i][k]);
    }
  }

  lemma CellDecodes(cell: Cell)
    ensures Decodes(CellText(cell), cell)
  {
  }

  predicate Harmless(text: string) {
    text == "" || text[0] !in {'=', '+', '-', '@', '\t', '\r'}
  }

  lemma {:induction false} ShownIsHarmless(table: seq<seq<string>>, i: nat, k: nat)
    requires |table| >= 1 && forall r, c :: 0 <= r < |table| && 0 <= c < |table[r]| ==> Harmless(table[r][c])
    requires i < |ShownTable(table)| && k < |ShownTable(table)[i]|
    ensures Harmless(ShownTable(table)[i][k])
    decreases |table|
  {
    if i > 0 {
      ShownIsHarmless(table[1..], i - 1, k);
    }
  }

  /** Every export can be read back, and no cell that a reader decodes starts with a formula character. */
  lemma NoFormulaCells(headers: seq<string>, rows: seq<seq<Cell>>, i: nat, k: nat)
    ensures ReadFile(ToCsv(headers, rows)).Some?
    ensures var read := ReadFile(ToCsv(headers, rows)).value;
            i < |read| && k < |read[i]| ==> Harmless(read[i][k])
  {
    var table := Table(headers, rows);
    DocumentReads(table);
    if i < |ShownTable(table)| && k < |ShownTable(table)[i]| {
      ShownIsHarmless(table, i, k);
    }
  }

  // ---------------------------------------------------------------- paging and export

  const EXPORT_ROW_CAP: nat := 5000

  const PAGE_SIZE: nat := 100

  datatype Page<T> = Page(data: seq<T>, total: nat)

  /** A listing call on an unchanging table: one page, and the total. */
  function ListPage<T>(table: seq<T>, page: int, limit: int): Page<T> {
    var safePage := if page < 1 then 1 else page;
    var safeLimit := if limit < 1 then 1 else if limit > 100 then 100 else limit;
    var skip := (safePage - 1) * safeLimit;
    if skip >= |table| then Page([], |table|)
    else Page(table[skip..if skip + safeLimit < |table| then skip + safeLimit else |table|], |table|)
  }

  /** The paging loop returns the first rows up to the cap: none is missing, none is repeated. */
  method CollectReportRows<T>(table: seq<T>) returns (rows: seq<T>)
    ensures rows == table[..if |table| < 5000 then |table| else 5000]
  {
    var collected: seq<T> := [];
    var page := 1;
    var total: Option<nat> := None;
    while |collected| < EXPORT_ROW_CAP && (total.None? || |collected| < total.value)
      invariant total.None? || total.value == |table|
      invariant page >= 1
      invariant |collected| == if (page - 1) * PAGE_SIZE < |table| then (page - 1) * PAGE_SIZE else |table|
      invariant collected == table[..|collected|]
      decreases EXPORT_ROW_CAP - |collected|, if total.None? then 1 else 0
    {
      var result := ListPage(table, page, PAGE_SIZE);
      total := Some(result.total);
      if |result.data| == 0 {
        break;
      }
      collected := collected + result.data;
      page := page + 1;
    }
    rows := collected[..if |collected| < EXPORT_ROW_CAP then |collected| else EXPORT_ROW_CAP];
  }

  datatype Column<!T> = Column(header: string, get: T -> Cell)

  function Headers<T>(columns: seq<Column<T>>): (headers: seq<string>)
    ensures |headers| == |columns|
  {
    seq(|columns|, i requires 0 <= i < |columns| => columns[i].header)
  }

  function RowCells<T>(columns: seq<Column<T>>, row: T): (cells: seq<Cell>)
    ensures |cells| == |columns|
  {
    seq(|columns|, i requires 0 <= i < |columns| => columns[i].get(row))
  }

  function Cells<T>(columns: seq<Column<T>>, rows: seq<T>): (cells: seq<seq<Cell>>)
    ensures |cells| == |rows| && forall i :: 0 <= i < |rows| ==> |cells[i]| == |columns|
  {
    seq(|rows|, i requires 0 <= i < |rows| => RowCells(columns, rows[i]))
  }

  /** A reader gets the headers of the columns, and for each row a line with the cell of each column. */
  predicate ReadsAs<T>(csv: string, columns: seq<Column<T>>, rows: seq<T>) {
    && ReadFile(csv).Some?
    && var read := ReadFile(csv).value;
    && |read| == |rows| + 1 && (forall i :: 0 <= i < |read| ==> |read[i]| == |columns|)
    && (forall k :: 0 <= k < |columns| ==> Decodes(read[0][k], Some(columns[k].header)))
    && (forall i, k :: 0 <= i < |rows| && 0 <= k < |columns| ==> Decodes(read[i + 1][k], columns[k].get(rows[i])))
  }

  lemma RowsDecode<T>(columns: seq<Column<T>>, rows: seq<T>)
    requires |columns| > 0
    ensures ReadsAs(ToCsv(Headers(columns), Cells(columns, rows)), columns, rows)
  {
    var cells := Cells(columns, rows);
    DecodedCells(Headers(columns), cells);
    var read := ReadFile(ToCsv(Headers(columns), cells)).value;
    forall i | 0 <= i < |read| ensures |read[i]| == |columns| {
      if i > 0 {
        assert |read[i - 1 + 1]| == |cells[i - 1]|;
      }
    }
    forall i, k | 0 <= i < |rows| && 0 <= k < |columns| ensures Decodes(read[i + 1][k], columns[k].get(rows[i])) {
      assert k < |cells[i]| && cells[i][k] == columns[k].get(rows[i]);
      assert Decodes(read[i + 1][k], cells[i][k]);
    }
  }

  /** A whole export: what a reader gets back is the report's header and its first 5000 rows, column by column. */
  method ExportReport<T>(table: seq<T>, columns: seq<Column<T>>) returns (csv: string, count: nat)
    requires |columns| > 0
    ensures count == if |table| < 5000 then |table| else 5000
    ensures ReadsAs(csv, columns, table[..count])
  {
    var rows := CollectReportRows(table);
    csv := ToCsv(Headers(columns), Cells(columns, rows));
    count := |rows|;
    RowsDecode(columns, rows);
  }
}
