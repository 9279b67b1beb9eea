/** Materialisation of the table section into a header and rows (`tabla_markdown_a_df`).
    Only lines holding a pipe and no "---" are kept, each is cut at its pipes, the first
    and last cell of every line are dropped, header names are stripped and rows whose
    cells are all missing are dropped. */
module TableText {
  import opened Text

  datatype Result<T, E> = Ok(value: T) | Err(error: E)

  datatype TableError =
    | NotMarkdown        // the text has no pipe at all
    | TooShort           // fewer than three table lines remain
    | RowWidth(line: nat) // the parse fails: this kept line has another number of cells than the header

  /** Column names and rows; every row has one cell per column. */
  datatype Table = Table(columns: seq<string>, rows: seq<seq<string>>)

  const Divider: string := "---"

  /** A line the filter keeps: it has a pipe and is not a divider row. */
  predicate IsTableLine(line: string) {
    '|' in line && !Contains(line, Divider)
  }

  /** The lines of the stripped text that hold a pipe and no `---`, in order. */
  function TableLines(text: string): (r: seq<string>)
    ensures forall l :: l in r <==> l in SplitLines(Strip(text)) && '|' in l && !Contains(l, Divider)
  {
    Filter(IsTableLine, SplitLines(Strip(text)))
  }

  /** A line cut at its pipes; a line with a pipe has at least two cells. */
  function Cells(line: string): (r: seq<string>)
    ensures '|' in line ==> |r| >= 2
  {
    ContainsChar(line, '|');
    SplitSingleIff(line, "|");
    Split(line, "|")
  }

  /** A missing value: the empty field between two adjacent pipes. */
  predicate IsMissing(cell: string) {
    cell == ""
  }

  /** The row has at least one cell with a value, so dropping all-empty rows keeps it. */
  predicate HasValue(row: seq<string>) {
    exists j :: 0 <= j < |row| && !IsMissing(row[j])
  }

  /** A row without its first and last cell; a row of fewer than two cells has nothing
      in between. */
  function Inner(row: seq<string>): (r: seq<string>)
    ensures |row| >= 2 ==> |r| == |row| - 2
  {
    if |row| >= 2 then row[1..|row| - 1] else []
  }

  /** Index of the first row whose width is not `width`, or the number of rows. */
  function FirstWidthMismatch(rows: seq<seq<string>>, width: nat): (k: nat)
    ensures k <= |rows|
    ensures forall i :: 0 <= i < k ==> |rows[i]| == width
    ensures k < |rows| ==> |rows[k]| != width
    decreases |rows|
  {
    if rows == [] || |rows[0]| != width then 0
    else 1 + FirstWidthMismatch(rows[1..], width)
  }

  /** The cells of every kept line after the header. */
  function Records(lines: seq<string>): seq<seq<string>>
    requires |lines| >= 1
  {
    seq(|lines| - 1, i requires 0 <= i < |lines| - 1 => Cells(lines[i + 1]))
  }

  /** The kept lines cut at their pipes into records, then the drop of the outer columns,
      the stripping of the header names and the drop of rows without a value. */
  function ParseLines(lines: seq<string>): Result<Table, TableError>
    requires |lines| >= 1 && forall l :: l in lines ==> '|' in l
  {
    var header := Cells(lines[0]);
    var records := Records(lines);
    var bad := FirstWidthMismatch(records, |header|);
    if bad < |records| then Err(RowWidth(bad + 1))
    else
      Ok(Table(ColumnNames(header), DataRows(records)))
  }

  /** The table a reply's markdown text converts to, or the reason it is rejected. */
  function MarkdownToTable(text: string): Result<Table, TableError> {
    if '|' !in text then Err(NotMarkdown)
    else
      var lines := TableLines(text);
      if |lines| < 3 then Err(TooShort)
      else ParseLines(lines)
  }

  // ---------------------------------------------------------------- properties

  /** The text is rejected as not a table exactly when it has no pipe. */
  lemma NoPipeRejected(text: string)
    ensures MarkdownToTable(text) == Err(NotMarkdown) <==> '|' !in text
  {
  }

  /** With a pipe present, the text is rejected as too short exactly when fewer
      than three lines survive the filter. */
  lemma ShortTableRejected(text: string)
    ensures MarkdownToTable(text) == Err(TooShort) <==> '|' in text && |TableLines(text)| < 3
  {
  }

  /** The kept lines keep their original order: for any cut of the text's lines, the kept
      lines are those of the first part followed by those of the second. */
  lemma TableLinesInOrder(text: string, k: nat)
    requires k <= |SplitLines(Strip(text))|
    ensures var all := SplitLines(Strip(text));
      TableLines(text) == Filter(IsTableLine, all[..k]) + Filter(IsTableLine, all[k..])
  {
    var all := SplitLines(Strip(text));
    TakeDrop(all, k);
    FilterAppend(IsTableLine, all[..k], all[k..]);
  }

  /** Past the two explicit checks, the result is the parse of the kept lines. */
  lemma ReachesParse(text: string)
    requires '|' in text && |TableLines(text)| >= 3
    ensures forall l :: l in TableLines(text) ==> '|' in l
    ensures MarkdownToTable(text) == ParseLines(TableLines(text))
  {
  }

  /** The parse of kept lines succeeds exactly when every line has as many cells as the first. */
  lemma ParseSuccessIff(lines: seq<string>)
    requires |lines| >= 1 && forall l :: l in lines ==> '|' in l
    ensures ParseLines(lines).Ok? <==> forall i :: 1 <= i < |lines| ==> |Cells(lines[i])| == |Cells(lines[0])|
  {
    var records := Records(lines);
    var bad := FirstWidthMismatch(records, |Cells(lines[0])|);
    assert forall i :: 1 <= i < |lines| ==> records[i - 1] == Cells(lines[i]);
    if bad < |records| {
      assert |Cells(lines[bad + 1])| != |Cells(lines[0])|;
    }
  }

  /** The parse succeeds exactly when there is a pipe, at least three lines are kept and
      every kept line has as many cells as the first one. */
  lemma SuccessIff(text: string)
    ensures var lines := TableLines(text);
      MarkdownToTable(text).Ok? <==>
        '|' in text && |lines| >= 3 &&
        forall i :: 1 <= i < |lines| ==> |Cells(lines[i])| == |Cells(lines[0])|
  {
    var lines := TableLines(text);
    if '|' in text && |lines| >= 3 {
      ReachesParse(text);
      ParseSuccessIff(lines);
    }
  }

  lemma ParseWidthFailure(lines: seq<string>, k: nat)
    requires |lines| >= 1 && forall l :: l in lines ==> '|' in l
    requires ParseLines(lines) == Err(RowWidth(k))
    ensures 1 <= k < |lines| && |Cells(lines[k])| != |Cells(lines[0])|
    ensures forall i :: 1 <= i < k ==> |Cells(lines[i])| == |Cells(lines[0])|
  {
    var records := Records(lines);
    assert forall i :: 1 <= i < |lines| ==> records[i - 1] == Cells(lines[i]);
  }

  /** A width failure names the first kept line whose width differs from the header's. */
  lemma RowWidthNamesFirstMismatch(text: string, k: nat)
    requires MarkdownToTable(text) == Err(RowWidth(k))
    ensures var lines := TableLines(text);
      1 <= k < |lines| && |Cells(lines[k])| != |Cells(lines[0])| &&
      forall i :: 1 <= i < k ==> |Cells(lines[i])| == |Cells(lines[0])|
  {
    ReachesParse(text);
    ParseWidthFailure(TableLines(text), k);
  }

  /** Every record without its first and last cell. */
  function InnerRows(records: seq<seq<string>>): seq<seq<string>>
  {
    seq(|records|, i requires 0 <= i < |records| => Inner(records[i]))
  }

  /** The rows a successful parse builds from the records: the inner cells of each record,
      keeping only those with a value. */
  function DataRows(records: seq<seq<string>>): (r: seq<seq<string>>)
    ensures |r| <= |records|
    ensures forall row :: row in r <==> row in InnerRows(records) && HasValue(row)
  {
    Filter(HasValue, InnerRows(records))
  }

  /** When every record has `width` cells, every row has two fewer. */
  lemma DataRowsWidth(records: seq<seq<string>>, width: nat)
    requires width >= 2 && forall i :: 0 <= i < |records| ==> |records[i]| == width
    ensures forall row :: row in DataRows(records) ==> |row| == width - 2
  {
  }

  /** The column names a successful parse builds from the header cells. */
  function ColumnNames(header: seq<string>): (r: seq<string>)
    requires |header| >= 2
    ensures |r| == |header| - 2
    ensures forall j :: 0 <= j < |r| ==> r[j] == Strip(header[j + 1]) && IsStripped(r[j])
  {
    var names := Inner(header);
    seq(|names|, j requires 0 <= j < |names| => Strip(names[j]))
  }

  lemma ParseShape(lines: seq<string>, t: Table)
    requires |lines| >= 1 && forall l :: l in lines ==> '|' in l
    requires ParseLines(lines) == Ok(t)
    ensures var header := Cells(lines[0]);
      |header| >= 2 &&
      (forall i :: 1 <= i < |lines| ==> |Cells(lines[i])| == |header|) &&
      t == Table(ColumnNames(header), DataRows(Records(lines)))
  {
    ParseSuccessIff(lines);
  }

  /** Dropping empty rows keeps the survivors in their input order: the rows of any
      prefix of the records come first, followed by those of the rest. */
  lemma DataRowsInOrder(records: seq<seq<string>>, k: nat)
    requires k <= |records|
    ensures DataRows(records) == DataRows(records[..k]) + DataRows(records[k..])
  {
    assert InnerRows(records) == InnerRows(records[..k]) + InnerRows(records[k..]);
    FilterAppend(HasValue, InnerRows(records[..k]), InnerRows(records[k..]));
  }

  /** Each kept line after the first is the record one place earlier. */
  lemma RecordsAreLaterLines(lines: seq<string>)
    requires |lines| >= 1
    ensures forall i :: 1 <= i < |lines| ==> Records(lines)[i - 1] == Cells(lines[i])
  {
  }

  /** Rows built from records are rows built from the kept lines after the first. */
  lemma RowsFromLines(lines: seq<string>, width: nat)
    requires |lines| >= 1 && width >= 2
    requires forall i :: 1 <= i < |lines| ==> |Cells(lines[i])| == width
    ensures forall i :: 0 <= i < |Records(lines)| ==> |Records(lines)[i]| == width
    ensures forall row :: row in DataRows(Records(lines)) ==>
      exists i :: 1 <= i < |lines| && |Cells(lines[i])| == |row| + 2 && row == Inner(Cells(lines[i]))
    ensures forall i :: 1 <= i < |lines| && HasValue(Inner(Cells(lines[i]))) ==>
      Inner(Cells(lines[i])) in DataRows(Records(lines))
  {
    RecordsAreLaterLines(lines);
    RowsComeFromLines(lines, width);
    LinesWithValueGiveRows(lines);
  }

  lemma RowsComeFromLines(lines: seq<string>, width: nat)
    requires |lines| >= 1 && width >= 2
    requires forall i :: 1 <= i < |lines| ==> |Cells(lines[i])| == width
    ensures forall row :: row in DataRows(Records(lines)) ==>
      exists i :: 1 <= i < |lines| && |Cells(lines[i])| == |row| + 2 && row == Inner(Cells(lines[i]))
  {
    var records := Records(lines);
    forall row | row in DataRows(records)
      ensures exists i :: 1 <= i < |lines| && |Cells(lines[i])| == |row| + 2 && row == Inner(Cells(lines[i]))
    {
      var i := LineOfRow(lines, width, row);
    }
  }

  /** The kept line a row was built from. */
  lemma LineOfRow(lines: seq<string>, width: nat, row: seq<string>) returns (i: nat)
    requires |lines| >= 1 && width >= 2
    requires forall i :: 1 <= i < |lines| ==> |Cells(lines[i])| == width
    requires row in DataRows(Records(lines))
    ensures 1 <= i < |lines| && |Cells(lines[i])| == |row| + 2 && row == Inner(Cells(lines[i]))
  {
    var k := RecordOfRow(Records(lines), row);
    InnerOfLine(lines, width, k, row);
    i := k + 1;
  }

  lemma InnerOfLine(lines: seq<string>, width: nat, k: nat, row: seq<string>)
    requires |lines| >= 1 && width >= 2
    requires forall i :: 1 <= i < |lines| ==> |Cells(lines[i])| == width
    requires k < |Records(lines)| && row == Inner(Records(lines)[k])
    ensures |Cells(lines[k + 1])| == |row| + 2 && row == Inner(Cells(lines[k + 1]))
  {
  }

  /** The index of a record a row was built from. */
  lemma RecordOfRow(records: seq<seq<string>>, row: seq<string>) returns (k: nat)
    requires row in DataRows(records)
    ensures k < |records| && row == Inner(records[k])
  {
    var inner := InnerRows(records);
    assert row in inner;
    k :| 0 <= k < |inner| && inner[k] == row;
  }

  lemma LinesWithValueGiveRows(lines: seq<string>)
    requires |lines| >= 1
    ensures forall i :: 1 <= i < |lines| && HasValue(Inner(Cells(lines[i]))) ==>
      Inner(Cells(lines[i])) in DataRows(Records(lines))
  {
    var records := Records(lines);
    var inner := InnerRows(records);
    forall i | 1 <= i < |lines| && HasValue(Inner(Cells(lines[i])))
      ensures Inner(Cells(lines[i])) in DataRows(records)
    {
      assert inner[i - 1] == Inner(Cells(lines[i]));
    }
  }

  /** On success the columns are the header's cells without the first and last, each stripped. */
  lemma ParseColumns(lines: seq<string>, t: Table)
    requires |lines| >= 1 && forall l :: l in lines ==> '|' in l
    requires ParseLines(lines) == Ok(t)
    ensures var header := Cells(lines[0]);
      |t.columns| == |header| - 2 &&
      forall j :: 0 <= j < |t.columns| ==> t.columns[j] == Strip(header[j + 1]) && IsStripped(t.columns[j])
  {
    ParseShape(lines, t);
  }

  /** On success each row is a later line's cells without the first and last, no row is
      entirely missing, and every later line with a value gives a row. */
  lemma ParseRows(lines: seq<string>, t: Table)
    requires |lines| >= 1 && forall l :: l in lines ==> '|' in l
    requires ParseLines(lines) == Ok(t)
    ensures forall row :: row in t.rows ==> |row| == |Cells(lines[0])| - 2 && HasValue(row)
    ensures forall row :: row in t.rows ==>
      exists i :: 1 <= i < |lines| && |Cells(lines[i])| == |row| + 2 && row == Inner(Cells(lines[i]))
    ensures forall i :: 1 <= i < |lines| && HasValue(Inner(Cells(lines[i]))) ==> Inner(Cells(lines[i])) in t.rows
    ensures |t.rows| <= |lines| - 1
    ensures t.rows == DataRows(Records(lines))
  {
    ParseShape(lines, t);
    RowsFromLines(lines, |Cells(lines[0])|);
    DataRowsWidth(Records(lines), |Cells(lines[0])|);
  }

  /** On success the columns are the first kept line's cells without the first and the
      last, stripped. */
  lemma SuccessColumns(text: string, t: Table)
    requires MarkdownToTable(text) == Ok(t)
    ensures var lines := TableLines(text);
      |lines| >= 3 && |t.columns| == |Cells(lines[0])| - 2 &&
      forall j :: 0 <= j < |t.columns| ==> t.columns[j] == Strip(Cells(lines[0])[j + 1]) && IsStripped(t.columns[j])
  {
    ReachesParse(text);
    ParseColumns(TableLines(text), t);
  }

  /** On success each row has one cell per column and a value in at least one of them;
      each row is a later kept line's cells without the first and last, so two fewer than
      the line has; every later kept line with a value gives a row; and the rows are
      built from the kept lines in order (see DataRowsInOrder). */
  lemma SuccessRows(text: string, t: Table)
    requires MarkdownToTable(text) == Ok(t)
    ensures var lines := TableLines(text);
      |lines| >= 3 &&
      (forall row :: row in t.rows ==> |row| == |t.columns| && HasValue(row)) &&
      (forall row :: row in t.rows ==>
        exists i :: 1 <= i < |lines| && |Cells(lines[i])| == |row| + 2 && row == Inner(Cells(lines[i]))) &&
      (forall i :: 1 <= i < |lines| && HasValue(Inner(Cells(lines[i]))) ==> Inner(Cells(lines[i])) in t.rows) &&
      |t.rows| <= |lines| - 1 &&
      t.rows == DataRows(Records(lines))
  {
    ReachesParse(text);
    ParseColumns(TableLines(text), t);
    ParseRows(TableLines(text), t);
  }

  // ---------------------------------------------------------------- examples

  /** A character the pattern has and the text lacks rules the pattern out. */
  lemma {:induction false} MissingCharRulesOut(s: string, t: string, c: char)
    requires c in t && c !in s
    ensures !Contains(s, t)
    decreases |s|
  {
    if s == [] {
    } else {
      assert !(t <= s) by {
        if |t| <= |s| {
          assert forall x :: x in s[..|t|] ==> x in s;
        }
      }
      assert forall x :: x in s[1..] ==> x in s;
      MissingCharRulesOut(s[1..], t, c);
    }
  }

  /** Lines that hold no line end and no carriage return, the last non-empty, are the
      lines of their "\n"-join; the kept ones are those the filter accepts. */
  lemma KeptLinesOf(text: string, all: seq<string>)
    requires |all| >= 1 && all[|all| - 1] != ""
    requires forall k :: 0 <= k < |all| ==> '\n' !in all[k] && '\r' !in all[k]
    requires text == Join(all, "\n") && IsStripped(text)
    ensures TableLines(text) == Filter(IsTableLine, all)
  {
    StripOfStripped(text);
    SplitLinesOfJoin(all);
  }

  /** A four-line markdown table with outer pipes, `|h1|h2|`, a divider row, `|a|b|` and
      `|c|d|`, keeps its two columns, named by the stripped header cells, and both data
      rows, in order and unstripped. */
  lemma OuterPipeTable(text: string, divider: string, h1: string, h2: string,
                       a: string, b: string, c: string, d: string)
    requires Plain(h1) && Plain(h2) && Plain(a) && Plain(b) && Plain(c) && Plain(d)
    requires Contains(divider, Divider) && '\n' !in divider && '\r' !in divider
    requires a != "" && c != ""
    requires text == Row(h1, h2) + "\n" + divider + "\n" + Row(a, b) + "\n" + Row(c, d)
    ensures MarkdownToTable(text) == Ok(Table([Strip(h1), Strip(h2)], [[a, b], [c, d]]))
  {
    var lines := OuterPipeLines(text, divider, h1, h2, a, b, c, d);
    assert '|' in text by {
      assert text[0] == Row(h1, h2)[0];
    }
    ParseExample(lines, [h1, h2], [[a, b], [c, d]]);
  }

  /** The table lines of such a text are its three rows: the divider row is dropped. */
  lemma OuterPipeLines(text: string, divider: string, h1: string, h2: string,
                       a: string, b: string, c: string, d: string) returns (lines: seq<string>)
    requires Plain(h1) && Plain(h2) && Plain(a) && Plain(b) && Plain(c) && Plain(d)
    requires Contains(divider, Divider) && '\n' !in divider && '\r' !in divider
    requires text == Row(h1, h2) + "\n" + divider + "\n" + Row(a, b) + "\n" + Row(c, d)
    ensures TableLines(text) == lines && |lines| == 3
    ensures '|' in lines[0] && '|' in lines[1] && '|' in lines[2]
    ensures Cells(lines[0]) == ["", h1, h2, ""]
    ensures Cells(lines[1]) == ["", a, b, ""] && Cells(lines[2]) == ["", c, d, ""]
  {
    var all := [Row(h1, h2), divider, Row(a, b), Row(c, d)];
    JoinFour(all[0], all[1], all[2], all[3], "\n");
    RowShape(h1, h2);
    RowShape(a, b);
    RowShape(c, d);
    assert IsStripped(text);
    lines := DividerDropped(text, all);
  }

  /** Of four lines, the second a divider and the others table lines, the three others are kept. */
  lemma DividerDropped(text: string, all: seq<string>) returns (lines: seq<string>)
    requires |all| == 4 && all[3] != ""
    requires forall k :: 0 <= k < |all| ==> '\n' !in all[k] && '\r' !in all[k]
    requires text == Join(all, "\n") && IsStripped(text)
    requires IsTableLine(all[0]) && !IsTableLine(all[1]) && IsTableLine(all[2]) && IsTableLine(all[3])
    ensures TableLines(text) == lines && |lines| == 3
    ensures lines[0] == all[0] && lines[1] == all[2] && lines[2] == all[3]
  {
    KeptLinesOf(text, all);
    lines := DividerFiltered(all);
  }

  lemma DividerFiltered(all: seq<string>) returns (lines: seq<string>)
    requires |all| == 4
    requires IsTableLine(all[0]) && !IsTableLine(all[1]) && IsTableLine(all[2]) && IsTableLine(all[3])
    ensures Filter(IsTableLine, all) == lines && |lines| == 3
    ensures lines[0] == all[0] && lines[1] == all[2] && lines[2] == all[3]
  {
    forall i | 0 <= i < |all| && i != 1
      ensures IsTableLine(all[i])
    {
      assert i == 0 || i == 2 || i == 3;
    }
    FilterDropsOne(IsTableLine, all, 1);
    lines := all[..1] + all[2..];
  }

  /** A value that holds no pipe, line end or carriage return, and no `---`. */
  predicate Plain(x: string) {
    '|' !in x && '\n' !in x && '\r' !in x && !Contains(x, Divider)
  }

  /** Values free of `---` joined by a pipe are free of it too. */
  lemma PipeJoinFree(x: string, y: string)
    requires !Contains(x, Divider) && !Contains(y, Divider)
    ensures !Contains(x + "|" + y, Divider)
  {
    ContainsAround(x, '|', y, Divider);
  }

  lemma JoinFour(w: string, x: string, y: string, z: string, sep: string)
    ensures Join([w, x, y, z], sep) == w + sep + x + sep + y + sep + z
  {
    var all := [w, x, y, z];
    assert all[1..][1..][1..] == [z];
    assert Join(all[1..][1..], sep) == y + sep + z;
    assert Join(all[1..], sep) == x + sep + (y + sep + z);
  }

  /** The line `|x|y|`. */
  function Row(x: string, y: string): (line: string)
    ensures |line| == |x| + |y| + 3 && line[0] == '|' && line[|line| - 1] == '|'
  {
    "|" + x + "|" + y + "|"
  }

  /** A line `|x|y|` of plain values has the cells "", x, y, "", no line end and no divider. */
  lemma RowShape(x: string, y: string)
    requires Plain(x) && Plain(y)
    ensures Cells(Row(x, y)) == ["", x, y, ""]
    ensures '|' in Row(x, y) && '\n' !in Row(x, y) && '\r' !in Row(x, y)
    ensures IsTableLine(Row(x, y))
  {
    var line := Row(x, y);
    CellsExample(line, x, y);
    assert forall ch :: ch in line ==> ch == '|' || ch in x || ch in y by {
      assert line == "|" + x + "|" + y + "|";
    }
    EmptyContainsNothing(Divider);
    PipeJoinFree([], x);
    assert [] + "|" + x == "|" + x;
    PipeJoinFree(y, []);
    assert y + "|" + [] == y + "|";
    PipeJoinFree("|" + x, y + "|");
    assert line == "|" + x + "|" + (y + "|");
  }

  /** Three lines `|x|y|` parse into their names and two rows. */
  lemma ParseExample(lines: seq<string>, names: seq<string>, rows: seq<seq<string>>)
    requires |lines| == 3 && |names| == 2 && |rows| == 2 && |rows[0]| == 2 && |rows[1]| == 2
    requires forall l :: l in lines ==> '|' in l
    requires Cells(lines[0]) == ["", names[0], names[1], ""]
    requires Cells(lines[1]) == ["", rows[0][0], rows[0][1], ""]
    requires Cells(lines[2]) == ["", rows[1][0], rows[1][1], ""]
    requires rows[0][0] != "" && rows[1][0] != ""
    ensures ParseLines(lines) == Ok(Table([Strip(names[0]), Strip(names[1])], rows))
  {
    ParseSuccessIff(lines);
    var t := ParseLines(lines).value;
    ParseShape(lines, t);
    HeaderExample(Cells(lines[0]), names);
    RecordsExample(lines, Records(lines));
    RowsExample(Records(lines), rows);
  }

  /** The header `|x|y|` names its columns `x` and `y`, stripped. */
  lemma HeaderExample(header: seq<string>, names: seq<string>)
    requires |names| == 2 && header == ["", names[0], names[1], ""]
    ensures ColumnNames(header) == [Strip(names[0]), Strip(names[1])]
  {
    var c := ColumnNames(header);
    assert |c| == 2;
    assert c[0] == Strip(header[1]) && header[1] == names[0];
    assert c[1] == Strip(header[2]) && header[2] == names[1];
    assert c == [c[0], c[1]];
  }

  /** Rows without cells have no value, so none of them survives. */
  lemma {:induction false} RowsWithoutCellsDropped(rows: seq<seq<string>>)
    requires forall k :: 0 <= k < |rows| ==> rows[k] == []
    ensures Filter(HasValue, rows) == []
    decreases |rows|
  {
    if rows != [] {
      assert !HasValue(rows[0]);
      RowsWithoutCellsDropped(rows[1..]);
    }
  }

  lemma RecordsExample(lines: seq<string>, records: seq<seq<string>>)
    requires |lines| == 3 && records == Records(lines)
    ensures records == [Cells(lines[1]), Cells(lines[2])]
  {
  }

  lemma RowsExample(records: seq<seq<string>>, rows: seq<seq<string>>)
    requires |rows| == 2 && |rows[0]| == 2 && |rows[1]| == 2
    requires records == [["", rows[0][0], rows[0][1], ""], ["", rows[1][0], rows[1][1], ""]]
    requires rows[0][0] != "" && rows[1][0] != ""
    ensures DataRows(records) == rows
  {
    assert InnerRows(records) == rows by {
      var inner := InnerRows(records);
      assert inner[0] == rows[0] && inner[1] == rows[1];
    }
    assert forall k :: 0 <= k < |rows| ==> HasValue(rows[k]) by {
      assert !IsMissing(rows[0][0]) && !IsMissing(rows[1][0]);
    }
    FilterKeepsAll(HasValue, rows);
  }

  /** The line `|x|y|` has the cells "", x, y, "". */
  lemma CellsExample(line: string, x: string, y: string)
    requires '|' !in x && '|' !in y
    requires line == "|" + x + "|" + y + "|"
    ensures Cells(line) == ["", x, y, ""]
  {
    var parts := ["", x, y, ""];
    MissingCharRulesOut(x, "|", '|');
    MissingCharRulesOut(y, "|", '|');
    assert Join(parts, "|") == line by {
      assert Join(parts[3..], "|") == "";
      assert Join(parts[2..], "|") == y + "|";
      assert Join(parts[1..], "|") == x + "|" + y + "|";
    }
    EmptyContainsNothing("|");
    UniqueLastNoSelfOverlap("|");
    JoinSplit(parts, "|");
  }

  /** Without outer pipes the first and last real column are dropped all the same: a
      header with two cells leaves no column, and every row, left without cells, is
      dropped too. */
  lemma TwoCellHeaderLeavesNothing(text: string)
    requires MarkdownToTable(text).Ok? && |Cells(TableLines(text)[0])| == 2
    ensures MarkdownToTable(text) == Ok(Table([], []))
  {
    ReachesParse(text);
    TwoCellHeaderLines(TableLines(text));
  }

  lemma TwoCellHeaderLines(lines: seq<string>)
    requires |lines| >= 1 && forall l :: l in lines ==> '|' in l
    requires ParseLines(lines).Ok? && |Cells(lines[0])| == 2
    ensures ParseLines(lines) == Ok(Table([], []))
  {
    var t := ParseLines(lines).value;
    ParseShape(lines, t);
    var records := Records(lines);
    RecordsAreLaterLines(lines);
    assert forall i :: 0 <= i < |records| ==> |records[i]| == 2;
    RowsWithoutCellsDropped(InnerRows(records));
  }

  /** A three-line table without outer pipes, `h1|h2`, `a|b` and `c|d`, parses, but the
      outer columns are dropped all the same: no column and no row is left. */
  lemma BarePipeTable(text: string, h1: string, h2: string, a: string, b: string, c: string, d: string)
    requires Plain(h1) && Plain(h2) && Plain(a) && Plain(b) && Plain(c) && Plain(d)
    requires IsStripped(h1) && IsStripped(d)
    requires text == BareRow(h1, h2) + "\n" + BareRow(a, b) + "\n" + BareRow(c, d)
    ensures MarkdownToTable(text) == Ok(Table([], []))
  {
    var lines := BarePipeLines(text, h1, h2, a, b, c, d);
    assert '|' in text by {
      assert text[|h1|] == BareRow(h1, h2)[|h1|];
    }
    TwoCellLinesLeaveNothing(lines);
  }

  /** Three lines of two cells each parse into no column and no row. */
  lemma TwoCellLinesLeaveNothing(lines: seq<string>)
    requires |lines| == 3 && '|' in lines[0] && '|' in lines[1] && '|' in lines[2]
    requires |Cells(lines[0])| == 2 && |Cells(lines[1])| == 2 && |Cells(lines[2])| == 2
    ensures forall l :: l in lines ==> '|' in l
    ensures ParseLines(lines) == Ok(Table([], []))
  {
    assert forall l :: l in lines ==> '|' in l by {
      assert lines == [lines[0], lines[1], lines[2]];
    }
    ParseSuccessIff(lines);
    TwoCellHeaderLines(lines);
  }

  /** All three lines of such a text are kept, each with two cells. */
  lemma BarePipeLines(text: string, h1: string, h2: string, a: string, b: string, c: string, d: string)
      returns (lines: seq<string>)
    requires Plain(h1) && Plain(h2) && Plain(a) && Plain(b) && Plain(c) && Plain(d)
    requires IsStripped(h1) && IsStripped(d)
    requires text == BareRow(h1, h2) + "\n" + BareRow(a, b) + "\n" + BareRow(c, d)
    ensures TableLines(text) == lines && |lines| == 3
    ensures '|' in lines[0] && '|' in lines[1] && '|' in lines[2]
    ensures |Cells(lines[0])| == 2 && |Cells(lines[1])| == 2 && |Cells(lines[2])| == 2
  {
    lines := [BareRow(h1, h2), BareRow(a, b), BareRow(c, d)];
    JoinThree(lines[0], lines[1], lines[2], "\n");
    BareRowShape(h1, h2);
    BareRowShape(a, b);
    BareRowShape(c, d);
    BareTextStripped(text, h1, h2, a, b, c, d);
    AllThreeKept(text, lines);
  }

  /** Three table lines without line ends make up the kept lines of their join. */
  lemma AllThreeKept(text: string, lines: seq<string>)
    requires |lines| == 3 && lines[2] != "" && text == Join(lines, "\n") && IsStripped(text)
    requires IsTableLine(lines[0]) && IsTableLine(lines[1]) && IsTableLine(lines[2])
    requires '\n' !in lines[0] && '\n' !in lines[1] && '\n' !in lines[2]
    requires '\r' !in lines[0] && '\r' !in lines[1] && '\r' !in lines[2]
    ensures TableLines(text) == lines
  {
    forall k | 0 <= k < |lines|
      ensures '\n' !in lines[k] && '\r' !in lines[k] && IsTableLine(lines[k])
    {
      assert k == 0 || k == 1 || k == 2;
    }
    KeptLinesOf(text, lines);
    FilterKeepsAll(IsTableLine, lines);
  }

  lemma BareTextStripped(text: string, h1: string, h2: string, a: string, b: string, c: string, d: string)
    requires IsStripped(h1) && IsStripped(d)
    requires text == BareRow(h1, h2) + "\n" + BareRow(a, b) + "\n" + BareRow(c, d)
    ensures IsStripped(text)
  {
    assert text[0] == BareRow(h1, h2)[0];
    assert text[|text| - 1] == BareRow(c, d)[|BareRow(c, d)| - 1];
  }

  lemma JoinThree(x: string, y: string, z: string, sep: string)
    ensures Join([x, y, z], sep) == x + sep + y + sep + z
  {
    var all := [x, y, z];
    assert all[1..][1..] == [z];
    assert Join(all[1..], sep) == y + sep + z;
  }

  /** The line `x|y`. */
  function BareRow(x: string, y: string): (line: string)
    ensures |line| == |x| + |y| + 1
    ensures line[0] == (if x == "" then '|' else x[0])
    ensures line[|line| - 1] == (if y == "" then '|' else y[|y| - 1])
  {
    x + "|" + y
  }

  /** A line `x|y` of plain values has the cells x and y, no line end and no divider. */
  lemma BareRowShape(x: string, y: string)
    requires Plain(x) && Plain(y)
    ensures Cells(BareRow(x, y)) == [x, y]
    ensures '|' in BareRow(x, y) && '\n' !in BareRow(x, y) && '\r' !in BareRow(x, y)
    ensures IsTableLine(BareRow(x, y))
  {
    var line := BareRow(x, y);
    MissingCharRulesOut(x, "|", '|');
    MissingCharRulesOut(y, "|", '|');
    UniqueLastNoSelfOverlap("|");
    SplitAround(x, "|", y);
    assert line[|x|] == '|';
    assert forall ch :: ch in line ==> ch == '|' || ch in x || ch in y by {
      assert line == x + "|" + y;
    }
    PipeJoinFree(x, y);
  }

  /** The bare two-column table with its divider row last, `h1|h2`, `a|b`, `c|d` and a
      divider: the divider is not kept, and again no column and no row is left. */
  lemma BarePipeTableDividerLast(text: string, divider: string,
                                 h1: string, h2: string, a: string, b: string, c: string, d: string)
    requires Plain(h1) && Plain(h2) && Plain(a) && Plain(b) && Plain(c) && Plain(d)
    requires Contains(divider, Divider) && '\n' !in divider && '\r' !in divider
    requires IsStripped(h1) && IsStripped(divider)
    requires text == BareRow(h1, h2) + "\n" + BareRow(a, b) + "\n" + BareRow(c, d) + "\n" + divider
    ensures MarkdownToTable(text) == Ok(Table([], []))
  {
    var lines := DividerLastLines(text, divider, h1, h2, a, b, c, d);
    assert '|' in text by {
      assert text[|h1|] == BareRow(h1, h2)[|h1|];
    }
    TwoCellLinesLeaveNothing(lines);
  }

  /** The kept lines of such a text are its three rows of two cells. */
  lemma DividerLastLines(text: string, divider: string,
                         h1: string, h2: string, a: string, b: string, c: string, d: string)
      returns (lines: seq<string>)
    requires Plain(h1) && Plain(h2) && Plain(a) && Plain(b) && Plain(c) && Plain(d)
    requires Contains(divider, Divider) && '\n' !in divider && '\r' !in divider
    requires IsStripped(h1) && IsStripped(divider)
    requires text == BareRow(h1, h2) + "\n" + BareRow(a, b) + "\n" + BareRow(c, d) + "\n" + divider
    ensures TableLines(text) == lines && |lines| == 3
    ensures '|' in lines[0] && '|' in lines[1] && '|' in lines[2]
    ensures |Cells(lines[0])| == 2 && |Cells(lines[1])| == 2 && |Cells(lines[2])| == 2
  {
    var all := [BareRow(h1, h2), BareRow(a, b), BareRow(c, d), divider];
    JoinFour(all[0], all[1], all[2], all[3], "\n");
    BareRowShape(h1, h2);
    BareRowShape(a, b);
    BareRowShape(c, d);
    EmptyContainsNothing(Divider);
    assert IsStripped(text) by {
      assert text[0] == BareRow(h1, h2)[0];
      assert text[|text| - 1] == divider[|divider| - 1];
    }
    lines := LastDropped(text, all);
  }

  /** Of four lines, the last a divider and the others table lines, the first three are kept. */
  lemma LastDropped(text: string, all: seq<string>) returns (lines: seq<string>)
    requires |all| == 4 && all[3] != ""
    requires forall k :: 0 <= k < |all| ==> '\n' !in all[k] && '\r' !in all[k]
    requires text == Join(all, "\n") && IsStripped(text)
    requires IsTableLine(all[0]) && IsTableLine(all[1]) && IsTableLine(all[2]) && !IsTableLine(all[3])
    ensures TableLines(text) == lines && lines == all[..3]
  {
    KeptLinesOf(text, all);
    forall i | 0 <= i < |all| && i != 3
      ensures IsTableLine(all[i])
    {
      assert i == 0 || i == 1 || i == 2;
    }
    FilterDropsOne(IsTableLine, all, 3);
    lines := all[..3];
    assert all[4..] == [];
  }

  /** The bare table `H1|H2`, `A|B`, `C|D`, `---|---` converts to no column and no row. */
  lemma DividerLastExample(text: string)
    requires text == "H1|H2\nA|B\nC|D\n---|---"
    ensures MarkdownToTable(text) == Ok(Table([], []))
  {
    DividerLastText(text);
    DividerLastParts();
    BarePipeTableDividerLast(text, "---|---", "H1", "H2", "A", "B", "C", "D");
  }

  lemma DividerLastText(text: string)
    requires text == "H1|H2\nA|B\nC|D\n---|---"
    ensures text == BareRow("H1", "H2") + "\n" + BareRow("A", "B") + "\n" + BareRow("C", "D") + "\n" + "---|---"
  {
  }

  lemma DividerLastParts()
    ensures Plain("H1") && Plain("H2") && Plain("A") && Plain("B") && Plain("C") && Plain("D")
    ensures Contains("---|---", Divider) && '\n' !in "---|---" && '\r' !in "---|---"
    ensures IsStripped("H1") && IsStripped("---|---")
  {
    assert Divider <= "---|---";
    MissingCharRulesOut("H1", Divider, '-');
    MissingCharRulesOut("H2", Divider, '-');
    MissingCharRulesOut("A", Divider, '-');
    MissingCharRulesOut("B", Divider, '-');
    MissingCharRulesOut("C", Divider, '-');
    MissingCharRulesOut("D", Divider, '-');
  }

  /** A header and a divider alone are too short. */
  lemma HeaderOnlyExample(text: string)
    requires text == "H1|H2\n---|---"
    ensures MarkdownToTable(text) == Err(TooShort)
  {
    var all := ["H1|H2", "---|---"];
    assert Join(all, "\n") == text by {
      assert Join(all[1..], "\n") == "---|---";
    }
    KeptLinesOf(text, all);
    assert |Filter(IsTableLine, all)| <= 1 by {
      assert "---" <= all[1];
      assert all[1..][1..] == [];
    }
  }
}
