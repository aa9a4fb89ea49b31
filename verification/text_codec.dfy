/**
 The text form of a grid, as the program reads and writes it.

 A grid file starts with the header line `rows,columns`, followed by one
 line per row. The writer puts `x` for a live cell and a space for any
 other, and separates the cells by commas.

 The readers (for a file and for lines typed in) take a line by character
 position, not by comma-separated field: cell `col` is alive exactly when
 the character at position `col` is a lower-case `x`. A comma at that
 position is a dead cell like any other character. So a line the writer
 produces is not read back as the row it came from
 (`WrittenRowIsNotReadBack`); `ReadBackWrittenRow` says what is read
 instead.
 */
module TextCodec {
  import opened Cells

  /** The character that marks a live cell in the text form. */
  const LiveMark: char := 'x'

  /** The character the writer puts for any cell that is not alive. */
  const DeadMark: char := ' '

  /** The character between two cells of a written row, and between the
      two numbers of the header. */
  const Separator: char := ','

  // ---------------------------------------------------------------------
  // Reading

  /** Cell `col` of an input line, decided by the character at position
      `col`: a lower-case `x` is a live cell; a comma, any other character,
      and a position past the end of the line are dead cells. */
  function DecodeCell(line: string, col: nat): (c: char)
    ensures IsCellState(c)
    ensures IsAlive(c) <==> col < |line| && line[col] == LiveMark
  {
    if col < |line| && line[col] != Separator then
      (if line[col] == LiveMark then Alive else NotAlive)
    else
      NotAlive
  }

  /** One input line read as a row of `columns` cells. A cell is alive
      exactly when the line has a lower-case `x` at its position; commas,
      other characters and positions past the end of a short line are
      dead. */
  function DecodeRow(line: string, columns: nat): (row: seq<char>)
    ensures |row| == columns
    ensures forall col :: 0 <= col < columns ==> IsCellState(row[col])
    ensures forall col :: 0 <= col < columns ==>
              (IsAlive(row[col]) <==> col < |line| && line[col] == LiveMark)
    ensures line == "" ==> row == DeadRow(columns)
  {
    seq(columns, col requires 0 <= col < columns => DecodeCell(line, col))
  }

  /** The grid read from the lines after the header: the first `rows`
      lines become rows, later lines are not decoded, and when the
      lines run out the remaining rows are all dead. */
  function DecodeGrid(lines: seq<string>, rows: nat, columns: nat): (g: Grid)
    ensures IsRect(g, rows, columns)
    ensures IsClean(g)
    ensures forall i :: 0 <= i < rows && i < |lines| ==> g[i] == DecodeRow(lines[i], columns)
    ensures forall i :: |lines| <= i < rows ==> g[i] == DeadRow(columns)
  {
    var read := if |lines| < rows then |lines| else rows;
    var decoded := seq(read, i requires 0 <= i < read => DecodeRow(lines[i], columns));
    decoded + seq(rows - read, _ => DeadRow(columns))
  }

  /** The grid typed in line by line: exactly `rows` lines are asked for,
      and a line that is not there reads as the empty line, so as a dead
      row. */
  function UserInputGrid(inputs: seq<string>, rows: nat, columns: nat): (g: Grid)
    ensures IsRect(g, rows, columns)
    ensures IsClean(g)
    ensures forall i :: 0 <= i < rows && i < |inputs| ==> g[i] == DecodeRow(inputs[i], columns)
    ensures forall i :: |inputs| <= i < rows ==> g[i] == DeadRow(columns)
  {
    var g := seq(rows, i requires 0 <= i < rows => DecodeRow(if i < |inputs| then inputs[i] else "", columns));
    assert forall i :: 0 <= i < rows ==> g[i] == DecodeRow(if i < |inputs| then inputs[i] else "", columns);
    g
  }

  /** The file reader's loops: decode lines while there are lines and rows
      left, then fill the remaining rows with dead cells. */
  method ReadGrid(lines: seq<string>, rows: nat, columns: nat) returns (grid: Grid)
    ensures grid == DecodeGrid(lines, rows, columns)
  {
    grid := [];
    var rowCount := 0;
    while rowCount < |lines| && rowCount < rows
      invariant rowCount <= rows && rowCount <= |lines|
      invariant |grid| == rowCount
      invariant forall i :: 0 <= i < rowCount ==> grid[i] == DecodeRow(lines[i], columns)
    {
      var row := DecodeLine(lines[rowCount], columns);
      grid := grid + [row];
      rowCount := rowCount + 1;
    }
    while rowCount < rows
      invariant rowCount <= rows
      invariant |grid| == rowCount
      invariant rowCount < rows ==> |lines| <= rowCount
      invariant forall i :: 0 <= i < rowCount && i < |lines| ==> grid[i] == DecodeRow(lines[i], columns)
      invariant forall i :: |lines| <= i < rowCount ==> grid[i] == DeadRow(columns)
    {
      grid := grid + [DeadRow(columns)];
      rowCount := rowCount + 1;
    }
    var d := DecodeGrid(lines, rows, columns);
    assert forall i :: 0 <= i < rows ==> grid[i] == d[i];
  }

  /** The readers' loop over the columns of one line. */
  method DecodeLine(line: string, columns: nat) returns (row: seq<char>)
    ensures row == DecodeRow(line, columns)
  {
    row := [];
    var col := 0;
    while col < columns
      invariant col <= columns
      invariant |row| == col
      invariant forall c :: 0 <= c < col ==> row[c] == DecodeCell(line, c)
    {
      if col < |line| && line[col] != Separator {
        row := row + [if line[col] == LiveMark then Alive else NotAlive];
      } else {
        row := row + [NotAlive];
      }
      col := col + 1;
    }
  }

  /** The console reader's loop: `rows` lines are asked for, each decoded as
      a file line is. A line that is not there reads as the empty line. */
  method ReadUserGrid(inputs: seq<string>, rows: nat, columns: nat) returns (grid: Grid)
    ensures grid == UserInputGrid(inputs, rows, columns)
  {
    grid := [];
    var i := 0;
    while i < rows
      invariant i <= rows
      invariant |grid| == i
      invariant forall a :: 0 <= a < i ==> grid[a] == UserInputGrid(inputs, rows, columns)[a]
    {
      var rowInput := if i < |inputs| then inputs[i] else "";
      var row := DecodeLine(rowInput, columns);
      grid := grid + [row];
      i := i + 1;
    }
  }

  /** The empty line reads as a dead row. */
  lemma EmptyLineIsDeadRow(columns: nat)
    ensures DecodeRow("", columns) == DeadRow(columns)
  {
  }

  /** Reading typed lines and reading a file's lines give the same grid:
      padding with dead rows is the same as reading missing lines as empty. */
  lemma UserInputMatchesFile(inputs: seq<string>, rows: nat, columns: nat)
    ensures UserInputGrid(inputs, rows, columns) == DecodeGrid(inputs, rows, columns)
  {
    var u := UserInputGrid(inputs, rows, columns);
    var d := DecodeGrid(inputs, rows, columns);
    forall i | 0 <= i < rows
      ensures u[i] == d[i]
    {
      if i >= |inputs| {
        EmptyLineIsDeadRow(columns);
      }
    }
  }

  /** Lines past the first `rows` do not change the grid. */
  lemma ExtraLinesIgnored(lines: seq<string>, more: seq<string>, rows: nat, columns: nat)
    requires rows <= |lines|
    ensures DecodeGrid(lines + more, rows, columns) == DecodeGrid(lines, rows, columns)
  {
    var a := DecodeGrid(lines + more, rows, columns);
    var b := DecodeGrid(lines, rows, columns);
    forall i | 0 <= i < rows
      ensures a[i] == b[i]
    {
      assert (lines + more)[i] == lines[i];
    }
  }

  /** Blank lines at the end of the input read the same as no lines at all. */
  lemma TrailingBlankLinesIgnored(lines: seq<string>, blanks: nat, rows: nat, columns: nat)
    ensures DecodeGrid(lines + seq(blanks, _ => ""), rows, columns) == DecodeGrid(lines, rows, columns)
  {
    var more := lines + seq(blanks, _ => "");
    var a := DecodeGrid(more, rows, columns);
    var b := DecodeGrid(lines, rows, columns);
    forall i | 0 <= i < rows
      ensures a[i] == b[i]
    {
      if i < |lines| {
        assert more[i] == lines[i];
      } else if i < |more| {
        assert more[i] == "";
        EmptyLineIsDeadRow(columns);
      }
    }
  }

  // ---------------------------------------------------------------------
  // Writing

  /** The mark written for one cell: `x` when it is alive, a space
      otherwise. Read back on its own, the mark gives a cell that is alive
      exactly when `c` is. */
  function CellMark(c: char): (m: char)
    ensures m == LiveMark || m == DeadMark
    ensures IsAlive(DecodeCell([m], 0)) <==> IsAlive(c)
  {
    if IsAlive(c) then LiveMark else DeadMark
  }

  /** What the writer emits for a row before stepping back: each cell's mark
      followed by a separator. */
  function WriteCells(row: seq<char>): (s: string)
    ensures |s| == 2 * |row|
    ensures forall k :: 0 <= k < |s| ==>
              s[k] == (if k % 2 == 1 then Separator else CellMark(row[k / 2]))
  {
    if |row| == 0 then "" else [CellMark(row[0]), Separator] + WriteCells(row[1..])
  }

  /** A row as a line of text: the marks of its cells joined by separators,
      with no separator at the end. */
  function EncodeRow(row: seq<char>): (line: string)
    ensures |line| == if |row| == 0 then 0 else 2 * |row| - 1
    ensures forall k :: 0 <= k < |line| ==>
              line[k] == (if k % 2 == 1 then Separator else CellMark(row[k / 2]))
    ensures forall k :: 0 <= k < |line| ==> (line[k] != Separator <==> k % 2 == 0)
  {
    var w := WriteCells(row);
    if |w| == 0 then "" else w[..|w| - 1]
  }

  /** The output after the writer has handled one row: it writes the marks
      and separators, steps back one position, and writes the newline over
      the character there. For a row with cells that character is the last
      separator; for a row without cells it is the newline already there. */
  function AppendRow(out: string, row: seq<char>): (r: string)
    requires |out| > 0
    ensures |r| > 0 && r[|r| - 1] == '\n'
  {
    var w := out + WriteCells(row);
    w[..|w| - 1] + "\n"
  }

  /** The output after the writer has handled every row of `rows` in turn. */
  function AppendRows(out: string, rows: seq<seq<char>>): (r: string)
    requires |out| > 0
    ensures |r| > 0
    decreases |rows|
  {
    if |rows| == 0 then out else AppendRows(AppendRow(out, rows[0]), rows[1..])
  }

  /** Writing one more cell appends its mark and a separator. */
  lemma {:induction false} WriteCellsSnoc(row: seq<char>, c: char)
    ensures WriteCells(row + [c]) == WriteCells(row) + [CellMark(c), Separator]
  {
    var a := WriteCells(row + [c]);
    var b := WriteCells(row) + [CellMark(c), Separator];
    forall k | 0 <= k < |a|
      ensures a[k] == b[k]
    {
      if k < 2 * |row| {
        assert (row + [c])[k / 2] == row[k / 2];
      }
    }
  }

  /** The decimal digit for `d`. */
  function Digit(d: nat): char
    requires d < 10
  {
    (d + '0' as int) as char
  }

  /** The decimal text of a number, as an output stream writes it. */
  function NatToString(n: nat): (s: string)
    ensures |s| > 0
    ensures forall k :: 0 <= k < |s| ==> '0' <= s[k] <= '9'
    ensures |s| > 1 ==> s[0] != '0'
    decreases n
  {
    if n < 10 then [Digit(n)] else NatToString(n / 10) + [Digit(n % 10)]
  }

  /** The number a string of decimal digits stands for. */
  function DecimalValue(s: string): nat
    requires forall k :: 0 <= k < |s| ==> '0' <= s[k] <= '9'
  {
    if |s| == 0 then 0
    else 10 * DecimalValue(s[..|s| - 1]) + (s[|s| - 1] as int - '0' as int)
  }

  /** The decimal text stands for the number it was made from. */
  lemma {:induction false} NatToStringValue(n: nat)
    ensures DecimalValue(NatToString(n)) == n
    decreases n
  {
    var s := NatToString(n);
    if n >= 10 {
      NatToStringValue(n / 10);
      assert s[..|s| - 1] == NatToString(n / 10);
    }
  }

  /** The header line: the number of rows, a separator, the number of
      columns, and a newline. */
  function Header(rows: nat, columns: nat): (h: string)
    ensures |h| >= 4 && h[|h| - 1] == '\n'
    ensures Separator in h
  {
    NatToString(rows) + [Separator] + NatToString(columns) + "\n"
  }

  /** The whole text the writer produces for a grid of `rows` by `columns`:
      it starts with the header and ends with a newline. */
  function EncodeGrid(g: Grid, rows: nat, columns: nat): (file: string)
    requires IsRect(g, rows, columns)
    ensures Header(rows, columns) <= file
    ensures file[|file| - 1] == '\n'
  {
    AppendRowsKeeps(Header(rows, columns), g);
    AppendRows(Header(rows, columns), g)
  }

  /** Handling a row keeps output that ends in a newline: the step back
      lands either on the row's last separator or on that newline. */
  lemma AppendRowKeeps(out: string, row: seq<char>)
    requires |out| > 0 && out[|out| - 1] == '\n'
    ensures out <= AppendRow(out, row)
  {
    var w := out + WriteCells(row);
    if |row| > 0 {
      assert w[..|w| - 1] == out + WriteCells(row)[..2 * |row| - 1];
    } else {
      assert w == out;
    }
  }

  /** Handling any rows keeps output that ends in a newline, and the result
      ends in a newline too. */
  lemma {:induction false} AppendRowsKeeps(out: string, rows: seq<seq<char>>)
    requires |out| > 0 && out[|out| - 1] == '\n'
    ensures out <= AppendRows(out, rows)
    ensures AppendRows(out, rows)[|AppendRows(out, rows)| - 1] == '\n'
    decreases |rows|
  {
    if |rows| > 0 {
      var next := AppendRow(out, rows[0]);
      AppendRowKeeps(out, rows[0]);
      AppendRowsKeeps(next, rows[1..]);
    }
  }

  /** The writer's loops: the header, then for each row the marks and
      separators, a step back of one position, and a newline. */
  method WriteGrid(grid: Grid, rows: nat, columns: nat) returns (file: string)
    requires IsRect(grid, rows, columns)
    ensures file == EncodeGrid(grid, rows, columns)
  {
    file := Header(rows, columns);
    assert grid[0..] == grid;
    var i := 0;
    while i < rows
      invariant i <= rows
      invariant |file| > 0
      invariant AppendRows(file, grid[i..]) == EncodeGrid(grid, rows, columns)
    {
      file := WriteRowCells(file, grid[i]);
      file := file[..|file| - 1];
      file := file + "\n";
      assert grid[i..][1..] == grid[i + 1..];
      i := i + 1;
    }
  }

  /** The writer's inner loop: each cell's mark followed by a separator. */
  method WriteRowCells(file: string, row: seq<char>) returns (out: string)
    ensures out == file + WriteCells(row)
  {
    out := file;
    var j := 0;
    while j < |row|
      invariant j <= |row|
      invariant out == file + WriteCells(row[..j])
    {
      WriteCellsSnoc(row[..j], row[j]);
      assert row[..j + 1] == row[..j] + [row[j]];
      out := out + [if row[j] == Alive then LiveMark else DeadMark, Separator];
      j := j + 1;
    }
    assert row[..|row|] == row;
  }

  /** For a row with cells, stepping back over the last separator leaves
      exactly the joined line followed by a newline. */
  lemma AppendRowJoins(out: string, row: seq<char>)
    requires |out| > 0
    requires |row| > 0
    ensures AppendRow(out, row) == out + EncodeRow(row) + "\n"
  {
    var w := WriteCells(row);
    assert (out + w)[..|out + w| - 1] == out + w[..|w| - 1];
  }

  /** For a row without cells, the newline overwrites the previous newline,
      so the output does not change and no line is written. */
  lemma AppendEmptyRowIsNoOp(out: string)
    requires |out| > 0 && out[|out| - 1] == '\n'
    ensures AppendRow(out, []) == out
  {
    assert WriteCells([]) == "";
    assert out + "" == out;
  }

  /** The lines of a grid, each followed by a newline. */
  function JoinLines(rows: seq<seq<char>>): string {
    if |rows| == 0 then "" else EncodeRow(rows[0]) + "\n" + JoinLines(rows[1..])
  }

  /** Joining text is associative. */
  lemma ConcatAssoc(a: string, b: string, c: string)
    ensures (a + b) + c == a + (b + c)
  {
  }

  /** When every row has cells, the writer appends each row's line and a newline. */
  lemma {:induction false} AppendRowsJoins(out: string, rows: seq<seq<char>>)
    requires |out| > 0
    requires forall i :: 0 <= i < |rows| ==> |rows[i]| > 0
    ensures AppendRows(out, rows) == out + JoinLines(rows)
    decreases |rows|
  {
    if |rows| > 0 {
      var line := EncodeRow(rows[0]) + "\n";
      var rest := JoinLines(rows[1..]);
      var next := AppendRow(out, rows[0]);
      assert AppendRows(out, rows) == AppendRows(next, rows[1..]);
      assert next == out + line by { AppendRowJoins(out, rows[0]); }
      assert AppendRows(next, rows[1..]) == next + rest by { AppendRowsJoins(next, rows[1..]); }
      assert JoinLines(rows) == line + rest;
      ConcatAssoc(out, line, rest);
    }
  }

  /** When no row has cells, the writer leaves output ending in a newline unchanged. */
  lemma {:induction false} AppendEmptyRowsIsNoOp(out: string, rows: seq<seq<char>>)
    requires |out| > 0 && out[|out| - 1] == '\n'
    requires forall i :: 0 <= i < |rows| ==> |rows[i]| == 0
    ensures AppendRows(out, rows) == out
    decreases |rows|
  {
    if |rows| > 0 {
      assert rows[0] == [];
      AppendEmptyRowIsNoOp(out);
      AppendEmptyRowsIsNoOp(out, rows[1..]);
    }
  }

  /** With at least one column the file is the header followed by one line
      per row; with no columns it is the header alone, because each row's
      step back lands on the newline before it. */
  lemma EncodeGridLines(g: Grid, rows: nat, columns: nat)
    requires IsRect(g, rows, columns)
    ensures columns > 0 ==> EncodeGrid(g, rows, columns) == Header(rows, columns) + JoinLines(g)
    ensures columns == 0 ==> EncodeGrid(g, rows, columns) == Header(rows, columns)
  {
    if columns > 0 {
      AppendRowsJoins(Header(rows, columns), g);
    } else {
      AppendEmptyRowsIsNoOp(Header(rows, columns), g);
    }
  }

  // ---------------------------------------------------------------------
  // Reading back what was written

  /** Reading a written row back: position `k` is alive exactly when it is
      an even position holding the mark of a live cell, `row[k / 2]`. The
      separators at odd positions read as dead cells. */
  lemma ReadBackWrittenRow(row: seq<char>, columns: nat, k: nat)
    requires k < columns
    ensures IsAlive(DecodeRow(EncodeRow(row), columns)[k]) <==>
              k % 2 == 0 && k / 2 < |row| && IsAlive(row[k / 2])
  {
    var line := EncodeRow(row);
    if k < |line| && k % 2 == 0 {
      assert line[k] == CellMark(row[k / 2]);
    }
  }

  /** Two live cells are written as `x,x`, which reads back as one live cell
      and one dead one. */
  lemma WrittenRowIsNotReadBack()
    ensures EncodeRow([Alive, Alive]) == "x,x"
    ensures DecodeRow(EncodeRow([Alive, Alive]), 2) == [Alive, NotAlive]
  {
    var w := WriteCells([Alive, Alive]);
    assert w == "x,x,";
    assert EncodeRow([Alive, Alive]) == w[..3];
    assert DecodeRow("x,x", 2) == [Alive, NotAlive];
  }
}
