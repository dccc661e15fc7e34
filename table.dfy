/** The table serializer (`processTable`, `processCellContent`): a table
    element becomes a pipe table, one line per `tr` that has cells, every
    line padded to the widest row, and a `---` separator line after the
    first `tr` when that row has cells.

    The Markdown of a "complex" cell comes from a converter passed in as a
    parameter (it stands for serialising the cell's children and running
    the whole Turndown conversion on them again); it may fail, and the
    first failure in document order aborts the whole table, as a thrown
    exception does. */
module TableSerializer {
  import opened Wrappers
  import opened JsString
  import opened Dom
  import opened Selectors
  import opened CellFormat

  const RowSelector: Selector := Type("tr")
  const CellSelector: Selector := TypeList(["td", "th"])
  /** What makes a cell "complex" (`div, p, ul, ol, h1, h2, h3, h4, h5, h6`). */
  const ComplexSelector: Selector := TypeList(["div", "p", "ul", "ol", "h1", "h2", "h3", "h4", "h5", "h6"])

  // ----- the document queries -----

  /** `table.querySelectorAll('tr')`: every row below the table, nested tables included. */
  function Rows(table: Node): seq<Node>
  {
    Filter(Descendants(table), RowSelector)
  }

  /** `row.querySelectorAll('td, th')`. */
  function CellsOf(row: Node): seq<Node>
  {
    Filter(Descendants(row), CellSelector)
  }

  function Children(n: Node): seq<Node>
  {
    if n.Element? then n.children else []
  }

  /** `cell.querySelector('div, p, ul, ol, h1, …, h6')` is not null. */
  predicate IsComplex(cell: Node)
  {
    QuerySelector(cell, ComplexSelector).Some?
  }

  /** What `processCellContent` returns: the converter's Markdown for the
      cell's children when the cell is complex, its `textContent` otherwise. */
  function CellContent<E>(cell: Node, convert: seq<Node> -> Result<string, E>): Result<string, E>
  {
    if IsComplex(cell) then convert(Children(cell)) else Ok(TextContent(cell))
  }

  /** The content of each cell of a row, in order. */
  function CellContents<E>(cells: seq<Node>, convert: seq<Node> -> Result<string, E>): seq<Result<string, E>>
  {
    seq(|cells|, i requires 0 <= i < |cells| => CellContent(cells[i], convert))
  }

  /** For each row of the table, the content of each of its cells. */
  function RowContents<E>(rows: seq<Node>, convert: seq<Node> -> Result<string, E>): seq<seq<Result<string, E>>>
  {
    seq(|rows|, i requires 0 <= i < |rows| => CellContents(CellsOf(rows[i]), convert))
  }

  // ----- the serializer, on the rows' cell contents -----

  /** The largest number of cells in any row (0 for no rows). */
  function ColumnCount<E>(rows: seq<seq<Result<string, E>>>): nat
  {
    if rows == [] then 0
    else
      var c := ColumnCount(rows[..|rows| - 1]);
      var n := |rows[|rows| - 1]|;
      if c < n then n else c
  }

  /** The column count is the length of the longest row. */
  lemma {:induction false} ColumnCountSpec<E>(rows: seq<seq<Result<string, E>>>)
    ensures forall i :: 0 <= i < |rows| ==> |rows[i]| <= ColumnCount(rows)
    ensures ColumnCount(rows) == 0 || exists i :: 0 <= i < |rows| && |rows[i]| == ColumnCount(rows)
  {
    if rows != [] {
      var init := rows[..|rows| - 1];
      ColumnCountSpec(init);
      assert forall i :: 0 <= i < |init| ==> init[i] == rows[i];
    }
  }

  /** The first `k` entries of a row's `rowData`, given the content of each
      of its cells. */
  function RowData<E>(contents: seq<Result<string, E>>, k: nat): Result<seq<string>, E>
    decreases k
  {
    if k == 0 then Ok([])
    else
      match RowData(contents, k - 1)
      case Err(e) => Err(e)
      case Ok(data) =>
        if k - 1 < |contents| then
          match contents[k - 1]
          case Err(e) => Err(e)
          case Ok(raw) => Ok(data + [NormalizeCell(raw)])
        else Ok(data + [" "])
  }

  /** `new Array(columnCount).fill('---')`. */
  function Dashes(n: nat): (r: seq<string>)
    ensures |r| == n && forall i :: 0 <= i < n ==> r[i] == "---"
  {
    seq(n, _ => "---")
  }

  /** A row's data line, followed by the separator when it is the row at index 0. */
  function WithSeparator(rowIndex: nat, data: seq<string>, columnCount: nat): seq<seq<string>>
  {
    [data] + (if rowIndex == 0 then [Dashes(columnCount)] else [])
  }

  /** The lines (as cell lists) of the first `k` rows, in order: nothing for
      a row without cells, its data otherwise, and after the row at index 0
      the separator. */
  function TableLines<E>(rows: seq<seq<Result<string, E>>>, k: nat, columnCount: nat): Result<seq<seq<string>>, E>
    requires k <= |rows|
  {
    if k == 0 then Ok([])
    else
      match TableLines(rows, k - 1, columnCount)
      case Err(e) => Err(e)
      case Ok(lines) =>
        if |rows[k - 1]| == 0 then Ok(lines)
        else
          match RowData(rows[k - 1], columnCount)
          case Err(e) => Err(e)
          case Ok(data) => Ok(lines + WithSeparator(k - 1, data, columnCount))
  }

  /** `'| ' + rowData.join(' | ') + ' |'`, without its newline. */
  function RowLine(data: seq<string>): string
  {
    "| " + Join(data, " | ") + " |"
  }

  /** The text of a list of lines, each followed by a newline. */
  function LinesText(lines: seq<seq<string>>): string
  {
    if lines == [] then ""
    else LinesText(lines[..|lines| - 1]) + RowLine(lines[|lines| - 1]) + "\n"
  }

  /** What `processTable` returns. */
  function TableMarkdown<E>(table: Node, convert: seq<Node> -> Result<string, E>): Result<string, E>
  {
    RowsMarkdown(RowContents(Rows(table), convert))
  }

  /** The Markdown of a table, given the content of each cell of each row. */
  function RowsMarkdown<E>(rows: seq<seq<Result<string, E>>>): Result<string, E>
  {
    if |rows| == 0 then Ok("")
    else
      match TableLines(rows, |rows|, ColumnCount(rows))
      case Err(e) => Err(e)
      case Ok(lines) => Ok(LinesText(lines))
  }

  // ----- the serializer as written: its loops -----

  /** `processTable`. */
  method ProcessTable<E>(table: Node, convert: seq<Node> -> Result<string, E>) returns (r: Result<string, E>)
    ensures r == TableMarkdown(table, convert)
  {
    var rows := Rows(table);
    if |rows| == 0 {
      return Ok("");
    }
    ghost var contents := RowContents(rows, convert);
    var columnCount := CountColumns(rows, convert);
    var result := "";
    ghost var lines: seq<seq<string>> := [];
    for rowIndex := 0 to |rows|
      invariant TableLines(contents, rowIndex, columnCount) == Ok(lines)
      invariant result == LinesText(lines)
    {
      var cells := CellsOf(rows[rowIndex]);
      assert contents[rowIndex] == CellContents(cells, convert);
      if |cells| == 0 {
        continue;
      }
      var row := BuildRow(cells, columnCount, convert);
      if row.Err? {
        TableLinesFailureSticks(contents, rowIndex + 1, |rows|, columnCount);
        return Err(row.error);
      }
      var rowData := row.value;
      RowAppended(lines, rowIndex, rowData, columnCount);
      result := result + RowLine(rowData) + "\n";
      if rowIndex == 0 {
        result := result + RowLine(Dashes(columnCount)) + "\n";
      }
      lines := lines + WithSeparator(rowIndex, rowData, columnCount);
    }
    return Ok(result);
  }

  /** The first `forEach`: the widest row's cell count. */
  method CountColumns<E>(rows: seq<Node>, ghost convert: seq<Node> -> Result<string, E>) returns (columnCount: nat)
    ensures columnCount == ColumnCount(RowContents(rows, convert))
  {
    ghost var contents := RowContents(rows, convert);
    columnCount := 0;
    for j := 0 to |rows|
      invariant columnCount == ColumnCount(contents[..j])
    {
      var n := |CellsOf(rows[j])|;
      assert |contents[j]| == n;
      ColumnCountNext(contents, j);
      columnCount := if columnCount < n then n else columnCount;
    }
    assert contents[..|rows|] == contents;
  }

  /** The column count of one more row. */
  lemma ColumnCountNext<E>(rows: seq<seq<Result<string, E>>>, j: nat)
    requires j < |rows|
    ensures ColumnCount(rows[..j + 1]) ==
            if ColumnCount(rows[..j]) < |rows[j]| then |rows[j]| else ColumnCount(rows[..j])
  {
    assert rows[..j + 1][..j] == rows[..j];
  }

  /** The inner loop of the second `forEach`: one row's `rowData`. */
  method BuildRow<E>(cells: seq<Node>, columnCount: nat, convert: seq<Node> -> Result<string, E>)
    returns (r: Result<seq<string>, E>)
    ensures r == RowData(CellContents(cells, convert), columnCount)
  {
    ghost var contents := CellContents(cells, convert);
    var rowData: seq<string> := [];
    for i := 0 to columnCount
      invariant RowData(contents, i) == Ok(rowData)
    {
      RowDataNext(contents, i, rowData);
      if i < |cells| {
        var content := ProcessCellContent(cells[i], convert);
        assert contents[i] == content;
        if content.Err? {
          RowDataFailureSticks(contents, i + 1, columnCount);
          return Err(content.error);
        }
        var cellContent := CleanCell(content.value);
        rowData := rowData + [cellContent];
      } else {
        rowData := rowData + [" "];
      }
    }
    return Ok(rowData);
  }

  /** `processCellContent`: a complex cell goes through the converter, any
      other cell gives its text. */
  method ProcessCellContent<E>(cell: Node, convert: seq<Node> -> Result<string, E>) returns (r: Result<string, E>)
    ensures r == CellContent(cell, convert)
  {
    var hasComplexContent := QuerySelector(cell, ComplexSelector);
    if hasComplexContent.Some? {
      return convert(Children(cell));
    }
    return Ok(TextContent(cell));
  }

  /** The cleanup of one cell's content inside the column loop: collapse,
      trim, escape, and `' '` for an empty result. */
  method CleanCell(raw: string) returns (cell: string)
    ensures cell == NormalizeCell(raw)
  {
    cell := CollapseRuns(raw, true);
    cell := CollapseRuns(cell, false);
    cell := Trim(cell);
    cell := EscapePipes(cell);
    if cell == "" {
      cell := " ";
    }
  }

  /** The text of the lines with a row's data (and separator) appended. */
  lemma RowAppended(lines: seq<seq<string>>, k: nat, data: seq<string>, cc: nat)
    ensures k == 0 ==> LinesText(lines + WithSeparator(k, data, cc)) ==
                       LinesText(lines) + RowLine(data) + "\n" + RowLine(Dashes(cc)) + "\n"
    ensures k != 0 ==> LinesText(lines + WithSeparator(k, data, cc)) == LinesText(lines) + RowLine(data) + "\n"
  {
    LinesTextSnoc(lines, data);
    if k == 0 {
      LinesTextSnoc(lines + [data], Dashes(cc));
      assert lines + WithSeparator(k, data, cc) == lines + [data] + [Dashes(cc)];
    } else {
      assert lines + WithSeparator(k, data, cc) == lines + [data];
    }
  }

  lemma LinesTextSnoc(lines: seq<seq<string>>, line: seq<string>)
    ensures LinesText(lines + [line]) == LinesText(lines) + RowLine(line) + "\n"
  {
    assert (lines + [line])[..|lines|] == lines;
  }

  /** One more column of a row's data, when every cell so far succeeded. */
  lemma RowDataNext<E>(contents: seq<Result<string, E>>, i: nat, data: seq<string>)
    requires RowData(contents, i) == Ok(data)
    ensures i < |contents| && contents[i].Ok? ==> RowData(contents, i + 1) == Ok(data + [NormalizeCell(contents[i].value)])
    ensures i < |contents| && contents[i].Err? ==> RowData(contents, i + 1) == Err(contents[i].error)
    ensures i >= |contents| ==> RowData(contents, i + 1) == Ok(data + [" "])
  {
  }

  lemma {:induction false} RowDataFailureSticks<E>(contents: seq<Result<string, E>>, k: nat, n: nat)
    requires k <= n && RowData(contents, k).Err?
    ensures RowData(contents, n) == RowData(contents, k)
    decreases n - k
  {
    if k < n {
      RowDataFailureSticks(contents, k, n - 1);
    }
  }

  lemma {:induction false} TableLinesFailureSticks<E>(rows: seq<seq<Result<string, E>>>, k: nat, n: nat, cc: nat)
    requires k <= n <= |rows| && TableLines(rows, k, cc).Err?
    ensures TableLines(rows, n, cc) == TableLines(rows, k, cc)
    decreases n - k
  {
    if k < n {
      TableLinesFailureSticks(rows, k, n - 1, cc);
    }
  }

  // ----- what the serializer produces -----

  /** A row's data succeeds exactly when every present cell's content does. */
  lemma {:induction false} RowDataSucceeds<E>(contents: seq<Result<string, E>>, k: nat)
    ensures RowData(contents, k).Ok? <==> forall i :: 0 <= i < k && i < |contents| ==> contents[i].Ok?
  {
    if k > 0 {
      RowDataSucceeds(contents, k - 1);
    }
  }

  /** What a row's data holds at column `i`: the normalised content of
      cell `i`, or `' '` past the last cell. */
  function Entry<E>(contents: seq<Result<string, E>>, i: nat): string
    requires i < |contents| ==> contents[i].Ok?
  {
    if i < |contents| then NormalizeCell(contents[i].value) else " "
  }

  /** A row's data, when every present cell succeeds, holds `Entry` at each column. */
  lemma {:induction false} RowDataValues<E>(contents: seq<Result<string, E>>, k: nat)
    requires forall i :: 0 <= i < k && i < |contents| ==> contents[i].Ok?
    ensures RowData(contents, k).Ok?
    ensures var data := RowData(contents, k).value;
            && |data| == k
            && forall i :: 0 <= i < k ==> data[i] == Entry(contents, i)
  {
    if k > 0 {
      RowDataValues(contents, k - 1);
      var prev := RowData(contents, k - 1).value;
      var data := prev + [Entry(contents, k - 1)];
      assert RowData(contents, k) == Ok(data);
      forall i | 0 <= i < k
        ensures data[i] == Entry(contents, i)
      {
        if i < k - 1 {
          assert data[i] == prev[i];
        }
      }
    }
  }

  /** A failing row's data carries the error of its first failing cell. */
  lemma {:induction false} RowDataError<E>(contents: seq<Result<string, E>>, k: nat)
    requires RowData(contents, k).Err?
    ensures exists i :: 0 <= i < k && i < |contents| && contents[i] == Err(RowData(contents, k).error)
                        && forall j :: 0 <= j < i ==> contents[j].Ok?
  {
    var prev := RowData(contents, k - 1);
    if prev.Err? {
      RowDataError(contents, k - 1);
    } else {
      RowDataSucceeds(contents, k - 1);
      assert contents[k - 1] == Err(RowData(contents, k).error);
    }
  }

  /** The indices, among the first `k` rows, of the rows that have cells. */
  function DataRows<E>(rows: seq<seq<Result<string, E>>>, k: nat): (r: seq<nat>)
    requires k <= |rows|
    ensures forall j :: 0 <= j < |r| ==> r[j] < k
  {
    if k == 0 then []
    else DataRows(rows, k - 1) + (if |rows[k - 1]| > 0 then [k - 1] else [])
  }

  /** 1 when a separator line is emitted among the first `k` rows: only when
      the row at index 0 has cells. */
  function SeparatorCount<E>(rows: seq<seq<Result<string, E>>>, k: nat): nat
  {
    if k > 0 && |rows| > 0 && |rows[0]| > 0 then 1 else 0
  }

  /** Where the `j`-th data row's line sits: after the separator, if any,
      for every data row but the first. */
  function LineIndex(sep: nat, j: nat): nat
  {
    if sep == 1 && j > 0 then j + 1 else j
  }

  /** The table fails exactly when the data of some row with cells fails. */
  lemma {:induction false} TableLinesSucceed<E>(rows: seq<seq<Result<string, E>>>, k: nat, cc: nat)
    requires k <= |rows|
    ensures TableLines(rows, k, cc).Ok? <==> RowsSucceed(rows, DataRows(rows, k), cc)
  {
    if k > 0 {
      TableLinesSucceed(rows, k - 1, cc);
      var d := DataRows(rows, k - 1);
      if |rows[k - 1]| == 0 {
        assert DataRows(rows, k) == d;
      } else {
        assert DataRows(rows, k) == d + [k - 1];
        RowsSucceedSnoc(rows, d, k - 1, cc);
      }
    }
  }

  /** The data of every listed row succeeds. */
  predicate RowsSucceed<E>(rows: seq<seq<Result<string, E>>>, data: seq<nat>, cc: nat)
  {
    forall j :: 0 <= j < |data| ==> data[j] < |rows| && RowData(rows[data[j]], cc).Ok?
  }

  lemma RowsSucceedSnoc<E>(rows: seq<seq<Result<string, E>>>, data: seq<nat>, i: nat, cc: nat)
    requires i < |rows|
    ensures RowsSucceed(rows, data + [i], cc) <==> RowsSucceed(rows, data, cc) && RowData(rows[i], cc).Ok?
  {
    var e := data + [i];
    assert forall j :: 0 <= j < |data| ==> e[j] == data[j];
    assert e[|data|] == i;
  }

  /** How many lines there are: one per row with cells, plus a `---`
      separator as second line exactly when the first row has cells. */
  lemma {:induction false} TableLinesCount<E>(rows: seq<seq<Result<string, E>>>, k: nat, cc: nat)
    requires k <= |rows| && TableLines(rows, k, cc).Ok?
    ensures var lines := TableLines(rows, k, cc).value;
            && |lines| == |DataRows(rows, k)| + SeparatorCount(rows, k)
            && (SeparatorCount(rows, k) == 1 ==> |lines| >= 2 && lines[1] == Dashes(cc))
  {
    if k > 0 {
      TableLinesCount(rows, k - 1, cc);
      var prev := TableLines(rows, k - 1, cc).value;
      var lines := TableLines(rows, k, cc).value;
      if |rows[k - 1]| > 0 {
        var line := RowData(rows[k - 1], cc).value;
        assert lines == prev + WithSeparator(k - 1, line, cc);
        assert k - 1 == 0 ==> lines == [line, Dashes(cc)];
      }
    }
  }

  /** Where each line comes from: the `j`-th row with cells gives the line
      at `LineIndex`, in document order; rows without cells leave no trace. */
  lemma {:induction false} TableLinesLayout<E>(rows: seq<seq<Result<string, E>>>, k: nat, cc: nat)
    requires k <= |rows| && TableLines(rows, k, cc).Ok?
    ensures var lines := TableLines(rows, k, cc).value;
            var data := DataRows(rows, k);
            forall j :: 0 <= j < |data| ==>
              var at := LineIndex(SeparatorCount(rows, k), j);
              at < |lines| && RowData(rows[data[j]], cc) == Ok(lines[at])
  {
    TableLinesCount(rows, k, cc);
    if k > 0 {
      TableLinesLayout(rows, k - 1, cc);
      TableLinesCount(rows, k - 1, cc);
      var prev := TableLines(rows, k - 1, cc).value;
      var d := DataRows(rows, k - 1);
      var data := DataRows(rows, k);
      var lines := TableLines(rows, k, cc).value;
      if |rows[k - 1]| > 0 {
        var line := RowData(rows[k - 1], cc).value;
        assert data == d + [k - 1];
        assert lines == prev + WithSeparator(k - 1, line, cc);
        if k - 1 == 0 {
          assert data == [0];
          assert lines[0] == line;
        } else {
          assert SeparatorCount(rows, k) == SeparatorCount(rows, k - 1);
          assert forall j :: 0 <= j < |d| ==> data[j] == d[j] && lines[LineIndex(SeparatorCount(rows, k), j)] == prev[LineIndex(SeparatorCount(rows, k), j)];
          assert lines[|prev|] == line;
        }
      }
    }
  }

  /** No data row is left exactly when no row has cells. */
  lemma {:induction false} DataRowsEmpty<E>(rows: seq<seq<Result<string, E>>>, k: nat)
    requires k <= |rows|
    ensures DataRows(rows, k) == [] <==> forall i :: 0 <= i < k ==> |rows[i]| == 0
  {
    if k > 0 {
      DataRowsEmpty(rows, k - 1);
    }
  }

  /** The data rows are exactly the rows with cells, in increasing order. */
  lemma {:induction false} DataRowsSpec<E>(rows: seq<seq<Result<string, E>>>, k: nat)
    requires k <= |rows|
    ensures forall i :: 0 <= i < k ==> (|rows[i]| > 0 <==> i in DataRows(rows, k))
    ensures forall j, j' :: 0 <= j < j' < |DataRows(rows, k)| ==> DataRows(rows, k)[j] < DataRows(rows, k)[j']
  {
    if k > 0 {
      DataRowsSpec(rows, k - 1);
    }
  }

  /** A table gives the empty string exactly when none of its rows has a cell. */
  lemma TableMarkdownEmpty<E>(table: Node, convert: seq<Node> -> Result<string, E>)
    ensures TableMarkdown(table, convert) == Ok("") <==>
            forall i :: 0 <= i < |Rows(table)| ==> |CellsOf(Rows(table)[i])| == 0
  {
    var rows := RowContents(Rows(table), convert);
    assert forall i :: 0 <= i < |rows| ==> |rows[i]| == |CellsOf(Rows(table)[i])|;
    RowsMarkdownEmpty(rows);
  }

  lemma RowsMarkdownEmpty<E>(rows: seq<seq<Result<string, E>>>)
    ensures RowsMarkdown(rows) == Ok("") <==> forall i :: 0 <= i < |rows| ==> |rows[i]| == 0
  {
    if forall i :: 0 <= i < |rows| ==> |rows[i]| == 0 {
      EmptyRowsMarkdown(rows);
    } else {
      var i :| 0 <= i < |rows| && |rows[i]| != 0;
      DataRowMarkdown(rows, i);
    }
  }

  lemma EmptyRowsMarkdown<E>(rows: seq<seq<Result<string, E>>>)
    requires forall i :: 0 <= i < |rows| ==> |rows[i]| == 0
    ensures RowsMarkdown(rows) == Ok("")
  {
    if |rows| > 0 {
      var cc := ColumnCount(rows);
      var n := |rows|;
      DataRowsEmpty(rows, n);
      TableLinesSucceed(rows, n, cc);
      TableLinesCount(rows, n, cc);
    }
  }

  lemma DataRowMarkdown<E>(rows: seq<seq<Result<string, E>>>, i: nat)
    requires i < |rows| && |rows[i]| > 0
    ensures RowsMarkdown(rows) != Ok("")
  {
    var cc := ColumnCount(rows);
    var n := |rows|;
    var r := TableLines(rows, n, cc);
    if r.Ok? {
      DataRowsEmpty(rows, n);
      TableLinesCount(rows, n, cc);
      LinesTextEmpty(r.value);
    }
  }

  lemma LinesTextEmpty(lines: seq<seq<string>>)
    ensures LinesText(lines) == "" <==> lines == []
  {
  }

  /** A line of `cc` well-formed cells. */
  predicate WellFormedLine(line: seq<string>, cc: nat)
  {
    |line| == cc && forall i :: 0 <= i < |line| ==> WellFormedCell(line[i])
  }

  /** A row's data, when it succeeds, is a line of well-formed cells. */
  lemma RowDataWellFormed<E>(contents: seq<Result<string, E>>, cc: nat)
    requires RowData(contents, cc).Ok?
    ensures WellFormedLine(RowData(contents, cc).value, cc)
  {
    RowDataSucceeds(contents, cc);
    RowDataValues(contents, cc);
    var line := RowData(contents, cc).value;
    forall i | 0 <= i < |line|
      ensures WellFormedCell(line[i])
    {
      if i < |contents| {
        NormalizedCellIsWellFormed(contents[i].value);
      } else {
        SpaceIsWellFormed();
      }
    }
  }

  /** Every line has one entry per column, and every entry is a well-formed cell. */
  lemma {:induction false} TableLinesShape<E>(rows: seq<seq<Result<string, E>>>, k: nat, cc: nat)
    requires k <= |rows| && TableLines(rows, k, cc).Ok?
    ensures forall l :: l in TableLines(rows, k, cc).value ==> WellFormedLine(l, cc)
  {
    if k > 0 {
      TableLinesShape(rows, k - 1, cc);
      if |rows[k - 1]| > 0 {
        RowDataWellFormed(rows[k - 1], cc);
        DashesAreWellFormed(cc);
      }
    }
  }

  lemma SpaceIsWellFormed()
    ensures WellFormedCell(" ")
  {
  }

  lemma DashesAreWellFormed(n: nat)
    ensures WellFormedLine(Dashes(n), n)
  {
    assert WellFormedCell("---");
  }
}
