/**
  The FORMATTING transformer: every kept row is parsed (as a header row when
  it contains the header separator), every cell is trimmed and padded with
  spaces to the widest trimmed cell of its column, and the rows are written
  back, the first with the header separator and the others with the value
  separator.
 */
module FormattingTransformer {
  import opened Strings
  import opened Tables

  // ------------------------------------------------------------ parsing

  /** Each row parsed, as a header row exactly when it contains the header separator. */
  function ParseRows(rows: seq<string>, parser: RowParser, props: TableProperties): (data: seq<seq<string>>)
    ensures |data| == |rows|
    ensures forall r :: 0 <= r < |rows| ==>
              data[r] == parser(rows[r], Contains(rows[r], props.headerSeparator), props)
    decreases |rows|
  {
    if rows == [] then []
    else
      var n := |rows| - 1;
      var row := rows[n];
      ParseRows(rows[..n], parser, props) + [parser(row, Contains(row, props.headerSeparator), props)]
  }

  /** The `data` list of `Formatting.transform`: the kept rows, parsed. */
  function ParsedTable(tableAsString: string, parser: RowParser, props: TableProperties): seq<seq<string>>
  {
    ParseRows(KeptRows(Split(tableAsString, props.rowSeparator), props.ignorableSeparator), parser, props)
  }

  // ------------------------------------------------------------ widths

  /** Column `c` is used by some row. */
  ghost predicate HasColumn(data: seq<seq<string>>, c: nat)
  {
    exists r :: 0 <= r < |data| && c < |data[r]|
  }

  /** `widths` has a key for exactly the columns some row uses. */
  ghost predicate CoversColumns(data: seq<seq<string>>, widths: map<nat, nat>)
  {
    forall c: nat :: c in widths <==> HasColumn(data, c)
  }

  /** No trimmed cell is wider than its column. */
  ghost predicate Bounds(data: seq<seq<string>>, widths: map<nat, nat>)
  {
    forall r, c :: 0 <= r < |data| && 0 <= c < |data[r]| ==> c in widths && |Trim(data[r][c])| <= widths[c]
  }

  /** Every width is the length of some trimmed cell of its column. */
  ghost predicate Attained(data: seq<seq<string>>, widths: map<nat, nat>)
  {
    forall c :: c in widths ==> exists r :: 0 <= r < |data| && c < |data[r]| && |Trim(data[r][c])| == widths[c]
  }

  /**
    `widths` holds, for exactly the columns some row uses, the length of the
    longest trimmed cell of that column.
   */
  ghost predicate IsMaxWidths(data: seq<seq<string>>, widths: map<nat, nat>)
  {
    CoversColumns(data, widths) && Bounds(data, widths) && Attained(data, widths)
  }

  /** Every column some row uses has a width. */
  ghost predicate Covers(data: seq<seq<string>>, widths: map<nat, nat>)
  {
    forall r, c :: 0 <= r < |data| && 0 <= c < |data[r]| ==> c in widths
  }

  /** The length of every cell of a row once trimmed. */
  function TrimmedLengths(row: seq<string>): seq<nat>
  {
    seq(|row|, c requires 0 <= c < |row| => |Trim(row[c])|)
  }

  /** The width column `c` ends up with when a cell of the given length comes along. */
  function Wider(widths: map<nat, nat>, c: nat, length: nat): nat
  {
    if c in widths && widths[c] >= length then widths[c] else length
  }

  /**
    The inner loop of `maxWidth` over the trimmed lengths of one row: a column
    gets the cell's length when it has no width yet or the cell is longer.
   */
  function WidenRow(widths: map<nat, nat>, lengths: seq<nat>): (wider: map<nat, nat>)
    ensures forall c: nat :: c in wider <==> c in widths || c < |lengths|
    ensures forall c :: c in widths && c >= |lengths| ==> wider[c] == widths[c]
    ensures forall c: nat :: c < |lengths| ==> wider[c] == Wider(widths, c, lengths[c])
    decreases |lengths|
  {
    if lengths == [] then widths
    else
      var n := |lengths| - 1;
      var before := WidenRow(widths, lengths[..n]);
      assert forall c :: 0 <= c < n ==> lengths[..n][c] == lengths[c];
      var length := lengths[n];
      if n !in before || length > before[n] then before[n := length] else before
  }

  /** `maxWidth(data)`: the rows folded into the width map, first to last. */
  function Widths(data: seq<seq<string>>): map<nat, nat>
    decreases |data|
  {
    if data == [] then map[] else WidenRow(Widths(data[..|data| - 1]), TrimmedLengths(data[|data| - 1]))
  }

  /** The widths `maxWidth` computes are the maximum trimmed widths of the columns. */
  lemma {:induction false} WidthsAreMax(data: seq<seq<string>>)
    ensures IsMaxWidths(data, Widths(data))
    decreases |data|
  {
    if data != [] {
      var n := |data| - 1;
      var pre := data[..n];
      WidthsAreMax(pre);
      WidenRowIsMax(pre, data, Widths(pre));
    }
  }

  lemma WidthsCover(data: seq<seq<string>>)
    ensures Covers(data, Widths(data))
  {
    WidthsAreMax(data);
  }

  /** Widening by the last row keeps the widths maximal. */
  lemma WidenRowIsMax(pre: seq<seq<string>>, data: seq<seq<string>>, widths: map<nat, nat>)
    requires data != [] && pre == data[..|data| - 1]
    requires IsMaxWidths(pre, widths)
    ensures IsMaxWidths(data, WidenRow(widths, TrimmedLengths(data[|data| - 1])))
  {
    var lengths := TrimmedLengths(data[|data| - 1]);
    WidenedColumns(pre, data, widths, lengths);
    WidenedBounds(pre, data, widths, lengths);
    WidenedAttained(pre, data, widths);
  }

  lemma WidenedColumns(pre: seq<seq<string>>, data: seq<seq<string>>, widths: map<nat, nat>, lengths: seq<nat>)
    requires data != [] && pre == data[..|data| - 1]
    requires |lengths| == |data[|data| - 1]|
    requires CoversColumns(pre, widths)
    ensures CoversColumns(data, WidenRow(widths, lengths))
  {
    var n := |data| - 1;
    var wider := WidenRow(widths, lengths);
    forall c: nat ensures c in wider <==> HasColumn(data, c) {
      if c in widths {
        var r :| 0 <= r < |pre| && c < |pre[r]|;
        assert data[r] == pre[r];
      }
      if HasColumn(data, c) && c >= |data[n]| {
        var r :| 0 <= r < |data| && c < |data[r]|;
        assert pre[r] == data[r];
        assert HasColumn(pre, c);
      }
    }
  }

  lemma WidenedBounds(pre: seq<seq<string>>, data: seq<seq<string>>, widths: map<nat, nat>, lengths: seq<nat>)
    requires data != [] && pre == data[..|data| - 1]
    requires |lengths| == |data[|data| - 1]|
    requires forall c :: 0 <= c < |lengths| ==> lengths[c] == |Trim(data[|data| - 1][c])|
    requires Bounds(pre, widths)
    ensures Bounds(data, WidenRow(widths, lengths))
  {
    WidenRowGrows(widths, lengths);
    BoundsExtend(pre, data, widths, WidenRow(widths, lengths), lengths);
  }

  /** Widening never shrinks a width, and every column of the row ends up at least as wide as its cell. */
  lemma WidenRowGrows(widths: map<nat, nat>, lengths: seq<nat>)
    ensures forall c :: c in widths ==> c in WidenRow(widths, lengths) && widths[c] <= WidenRow(widths, lengths)[c]
    ensures forall c :: 0 <= c < |lengths| ==> c in WidenRow(widths, lengths) && lengths[c] <= WidenRow(widths, lengths)[c]
  {
    var wider := WidenRow(widths, lengths);
    forall c | c in widths ensures c in wider && widths[c] <= wider[c] {
      if c < |lengths| {
        assert wider[c] == Wider(widths, c, lengths[c]);
      }
    }
  }

  /** Widths that only grew, and cover the last row's cells, bound every cell of the longer table. */
  lemma BoundsExtend(pre: seq<seq<string>>, data: seq<seq<string>>, widths: map<nat, nat>, wider: map<nat, nat>, lengths: seq<nat>)
    requires data != [] && pre == data[..|data| - 1]
    requires |lengths| == |data[|data| - 1]|
    requires forall c :: 0 <= c < |lengths| ==> lengths[c] == |Trim(data[|data| - 1][c])|
    requires Bounds(pre, widths)
    requires forall c :: c in widths ==> c in wider && widths[c] <= wider[c]
    requires forall c :: 0 <= c < |lengths| ==> c in wider && lengths[c] <= wider[c]
    ensures Bounds(data, wider)
  {
    var n := |data| - 1;
    forall r, c | 0 <= r < |data| && 0 <= c < |data[r]|
      ensures c in wider && |Trim(data[r][c])| <= wider[c]
    {
      if r < n {
        assert pre[r] == data[r];
      }
    }
  }

  lemma WidenedAttained(pre: seq<seq<string>>, data: seq<seq<string>>, widths: map<nat, nat>)
    requires data != [] && pre == data[..|data| - 1]
    requires Attained(pre, widths)
    ensures Attained(data, WidenRow(widths, TrimmedLengths(data[|data| - 1])))
  {
    var n := |data| - 1;
    var lengths := TrimmedLengths(data[n]);
    var wider := WidenRow(widths, lengths);
    forall c | c in wider
      ensures exists r :: 0 <= r < |data| && c < |data[r]| && |Trim(data[r][c])| == wider[c]
    {
      if c < |lengths| && !(c in widths && widths[c] >= lengths[c]) {
        assert |Trim(data[n][c])| == wider[c];
      } else {
        var r :| 0 <= r < |pre| && c < |pre[r]| && |Trim(pre[r][c])| == widths[c];
        assert data[r] == pre[r];
      }
    }
  }

  lemma WidenRowStep(widths: map<nat, nat>, lengths: seq<nat>, c: nat)
    requires c < |lengths|
    ensures var before := WidenRow(widths, lengths[..c]);
      var length := lengths[c];
      WidenRow(widths, lengths[..c + 1]) == if c !in before || length > before[c] then before[c := length] else before
  {
    assert lengths[..c + 1][..c] == lengths[..c];
  }

  /** `maxWidth`: the nested loops over rows and cells filling the width map. */
  method MaxWidth(data: seq<seq<string>>) returns (maxWidths: map<nat, nat>)
    ensures maxWidths == Widths(data)
  {
    maxWidths := map[];
    for r := 0 to |data|
      invariant maxWidths == Widths(data[..r])
    {
      var row := data[r];
      ghost var before := maxWidths;
      ghost var lengths := TrimmedLengths(row);
      assert lengths[..0] == [];
      for c := 0 to |row|
        invariant maxWidths == WidenRow(before, lengths[..c])
      {
        var cell := Trim(row[c]);
        var length := |cell|;
        WidenRowStep(before, lengths, c);
        if c !in maxWidths || length > maxWidths[c] {
          maxWidths := maxWidths[c := length];
        }
      }
      assert lengths[..|row|] == lengths;
      assert data[..r + 1][..r] == data[..r];
    }
    assert data[..|data|] == data;
  }

  // ------------------------------------------------------------ padding

  /** `n` spaces. */
  function Spaces(n: nat): (s: string)
    ensures |s| == n
  {
    if n == 0 then "" else Spaces(n - 1) + " "
  }

  lemma {:induction false} AllSpaces(n: nat)
    ensures forall i :: 0 <= i < n ==> Spaces(n)[i] == ' '
  {
    if n > 0 {
      AllSpaces(n - 1);
    }
  }

  /**
    `formatValue(value, width)`: a value shorter than `width` is padded with
    spaces up to `width`; a longer one is left as it is, never cut.
   */
  function PadRight(value: string, width: int): string
    decreases width - |value|
  {
    if |value| < width then PadRight(value + " ", width) else value
  }

  lemma {:induction false} SpacesCons(n: nat)
    ensures Spaces(n + 1) == " " + Spaces(n)
  {
    if n > 0 {
      SpacesCons(n - 1);
    }
  }

  /** Padding a short value is appending the missing number of spaces. */
  lemma {:induction false} PadRightSpaces(value: string, width: int)
    requires |value| < width
    ensures PadRight(value, width) == value + Spaces(width - |value|)
    decreases width - |value|
  {
    if |value| + 1 < width {
      PadRightSpaces(value + " ", width);
      SpacesCons(width - |value| - 1);
      assert value + " " + Spaces(width - |value| - 1) == value + (" " + Spaces(width - |value| - 1));
    }
  }

  /**
    The padded value is as long as the width, or as the value when that is
    longer; it starts with the value, and the rest is spaces.
   */
  lemma PadRightShape(value: string, width: int)
    ensures var r := PadRight(value, width);
      && |r| == (if |value| < width then width else |value|)
      && |value| <= |r| && r[..|value|] == value
      && (forall i :: |value| <= i < |r| ==> r[i] == ' ')
  {
    if |value| < width {
      PadRightSpaces(value, width);
      AllSpaces(width - |value|);
      var r := PadRight(value, width);
      assert r[..|value|] == value;
      forall i | |value| <= i < |r| ensures r[i] == ' ' {
        assert r[i] == Spaces(width - |value|)[i - |value|];
      }
    }
  }

  /** `padding(size)`: a loop appending one space per turn; no space for a size that is not positive. */
  method Padding(size: int) returns (s: string)
    ensures s == Spaces(if size > 0 then size else 0)
  {
    s := "";
    var i := 0;
    while i < size
      invariant 0 <= i && (i <= size || i == 0)
      invariant s == Spaces(i)
    {
      s := s + " ";
      i := i + 1;
    }
  }

  method FormatValue(value: string, width: int) returns (r: string)
    ensures r == PadRight(value, width)
  {
    if |value| < width {
      var pad := Padding(width - |value|);
      PadRightSpaces(value, width);
      return value + pad;
    }
    return value;
  }

  // ------------------------------------------------------------ rows

  /**
    The width of column `c`. Every column a row uses has one (see
    `WidthsAreMax`); `0` stands in for the `null` of a column without one.
   */
  function WidthOf(widths: map<nat, nat>, c: nat): nat
  {
    if c in widths then widths[c] else 0
  }

  /** Every cell of a row trimmed and padded to its column's width. */
  function FormattedCells(row: seq<string>, widths: map<nat, nat>): (cells: seq<string>)
    ensures |cells| == |row|
    decreases |row|
  {
    if row == [] then []
    else
      var n := |row| - 1;
      FormattedCells(row[..n], widths) + [PadRight(Trim(row[n]), WidthOf(widths, n))]
  }

  lemma {:induction false} FormattedCellAt(row: seq<string>, widths: map<nat, nat>, c: nat)
    requires c < |row|
    ensures FormattedCells(row, widths)[c] == PadRight(Trim(row[c]), WidthOf(widths, c))
    decreases |row|
  {
    var n := |row| - 1;
    if c < n {
      FormattedCellAt(row[..n], widths, c);
      assert row[..n][c] == row[c];
    }
  }

  lemma FormatRowStep(row: seq<string>, widths: map<nat, nat>, separator: string, c: nat)
    requires c < |row|
    ensures Bracketed(FormattedCells(row[..c + 1], widths), separator)
         == Bracketed(FormattedCells(row[..c], widths), separator) + PadRight(Trim(row[c]), WidthOf(widths, c)) + separator
  {
    assert row[..c + 1][..c] == row[..c];
    var cells := FormattedCells(row[..c + 1], widths);
    assert cells[..c] == FormattedCells(row[..c], widths);
    assert Bracketed(cells, separator) == separator + (Terminated(cells[..c], separator) + cells[c] + separator);
  }

  /** `formatRow`: the separator, then every formatted cell followed by the separator. */
  method FormatRow(row: seq<string>, maxWidths: map<nat, nat>, separator: string) returns (line: string)
    requires forall c :: 0 <= c < |row| ==> c in maxWidths
    ensures line == Bracketed(FormattedCells(row, maxWidths), separator)
  {
    line := separator;
    assert row[..0] == [];
    for c := 0 to |row|
      invariant line == Bracketed(FormattedCells(row[..c], maxWidths), separator)
    {
      var value := FormatValue(Trim(row[c]), maxWidths[c]);
      FormatRowStep(row, maxWidths, separator, c);
      line := line + value + separator;
    }
    assert row[..|row|] == row;
  }

  /** Every row formatted with the widths. */
  function FormattedGrid(data: seq<seq<string>>, widths: map<nat, nat>): (grid: seq<seq<string>>)
    ensures |grid| == |data|
    decreases |data|
  {
    if data == [] then []
    else
      var n := |data| - 1;
      FormattedGrid(data[..n], widths) + [FormattedCells(data[n], widths)]
  }

  lemma {:induction false} FormattedGridPrefix(data: seq<seq<string>>, widths: map<nat, nat>, r: nat)
    requires r <= |data|
    ensures FormattedGrid(data, widths)[..r] == FormattedGrid(data[..r], widths)
    decreases |data|
  {
    if r < |data| {
      var n := |data| - 1;
      FormattedGridPrefix(data[..n], widths, r);
      assert data[..n][..r] == data[..r];
      assert FormattedGrid(data, widths)[..r] == FormattedGrid(data[..n], widths)[..r];
    } else {
      assert data[..r] == data;
    }
  }

  lemma FormattedGridAt(data: seq<seq<string>>, widths: map<nat, nat>, r: nat)
    requires r < |data|
    ensures FormattedGrid(data, widths)[r] == FormattedCells(data[r], widths)
  {
    FormattedGridPrefix(data, widths, r + 1);
    assert FormattedGrid(data, widths)[r] == FormattedGrid(data, widths)[..r + 1][r];
  }

  /** The result of `Formatting.transform` on `tableAsString`. */
  function Formatting(tableAsString: string, parser: RowParser, props: TableProperties): string
  {
    var data := ParsedTable(tableAsString, parser, props);
    RenderRows(FormattedGrid(data, Widths(data)), props)
  }

  // ------------------------------------------------------------ the Java method

  lemma ParseRowsStep(rows: seq<string>, i: nat, parser: RowParser, props: TableProperties)
    requires i < |rows|
    ensures ParseRows(KeptRows(rows[..i + 1], props.ignorableSeparator), parser, props)
         == ParseRows(KeptRows(rows[..i], props.ignorableSeparator), parser, props)
          + if IgnoreRow(rows[i], props.ignorableSeparator) then []
            else [parser(rows[i], Contains(rows[i], props.headerSeparator), props)]
  {
    KeptRowsStep(rows, i, props.ignorableSeparator);
    var prev := KeptRows(rows[..i], props.ignorableSeparator);
    var kept := KeptRows(rows[..i + 1], props.ignorableSeparator);
    if !IgnoreRow(rows[i], props.ignorableSeparator) {
      assert kept[..|kept| - 1] == prev;
    } else {
      assert kept == prev;
    }
  }

  /** The row loop of `Formatting.transform`: every kept row parsed into `data`. */
  method ParseTable(rows: seq<string>, parser: RowParser, props: TableProperties) returns (data: seq<seq<string>>)
    ensures data == ParseRows(KeptRows(rows, props.ignorableSeparator), parser, props)
  {
    data := [];
    for i := 0 to |rows|
      invariant data == ParseRows(KeptRows(rows[..i], props.ignorableSeparator), parser, props)
    {
      var rowAsString := rows[i];
      ParseRowsStep(rows, i, parser, props);
      if !IgnoreRow(rowAsString, props.ignorableSeparator) {
        data := data + [parser(rowAsString, Contains(rowAsString, props.headerSeparator), props)];
      }
    }
    assert rows[..|rows|] == rows;
  }

  lemma WriteRowsStep(data: seq<seq<string>>, widths: map<nat, nat>, props: TableProperties, r: nat)
    requires r < |data|
    ensures RenderRows(FormattedGrid(data[..r + 1], widths), props)
         == RenderRows(FormattedGrid(data[..r], widths), props)
          + Bracketed(FormattedCells(data[r], widths), LineSeparator(r, props)) + props.rowSeparator
  {
    var grid := FormattedGrid(data[..r + 1], widths);
    assert data[..r + 1][..r] == data[..r];
    assert grid[..r] == FormattedGrid(data[..r], widths);
  }

  /** The output loop of `Formatting.transform`: one formatted line per row, then the row separator. */
  method WriteRows(data: seq<seq<string>>, maxWidths: map<nat, nat>, props: TableProperties) returns (builder: string)
    requires Covers(data, maxWidths)
    ensures builder == RenderRows(FormattedGrid(data, maxWidths), props)
  {
    builder := "";
    assert data[..0] == [];
    for r := 0 to |data|
      invariant builder == RenderRows(FormattedGrid(data[..r], maxWidths), props)
    {
      var formattedRow := FormatRow(data[r], maxWidths, LineSeparator(r, props));
      WriteRowsStep(data, maxWidths, props, r);
      builder := builder + formattedRow + props.rowSeparator;
    }
    assert data[..|data|] == data;
  }

  /** `Formatting.transform`: parse the kept rows, compute `maxWidth`, write the formatted rows. */
  method Transform(tableAsString: string, parser: RowParser, props: TableProperties) returns (r: string)
    ensures r == Formatting(tableAsString, parser, props)
  {
    var rows := Split(tableAsString, props.rowSeparator);
    var data := ParseTable(rows, parser, props);
    var maxWidths := MaxWidth(data);
    WidthsCover(data);
    r := WriteRows(data, maxWidths, props);
  }

  // ------------------------------------------------------------ properties

  /**
    Every cell of the output is its trimmed value, never cut, padded with
    spaces to exactly the width of its column, and that width is the widest
    trimmed cell of the column.
   */
  lemma FormattedCellWidth(data: seq<seq<string>>, r: nat, c: nat)
    requires r < |data| && c < |data[r]|
    ensures IsMaxWidths(data, Widths(data))
    ensures var cell := FormattedCells(data[r], Widths(data))[c];
      var value := Trim(data[r][c]);
      && |cell| == Widths(data)[c]
      && cell[..|value|] == value
      && (forall i :: |value| <= i < |cell| ==> cell[i] == ' ')
  {
    WidthsAreMax(data);
    FormattedCellAt(data[r], Widths(data), c);
    PadRightShape(Trim(data[r][c]), Widths(data)[c]);
  }

  /**
    Where column `c` starts in a formatted line: one separator per column so
    far and the widths of the columns before it.
   */
  function ColumnStart(widths: map<nat, nat>, separatorLength: nat, c: nat): nat
  {
    if c == 0 then separatorLength
    else ColumnStart(widths, separatorLength, c - 1) + WidthOf(widths, c - 1) + separatorLength
  }

  /** In a line whose every cell is as wide as its column, every column starts where `ColumnStart` says. */
  lemma {:induction false} CellOffsetByWidths(cells: seq<string>, widths: map<nat, nat>, sep: string, c: nat)
    requires forall k :: 0 <= k < |cells| ==> |cells[k]| == WidthOf(widths, k)
    requires c <= |cells|
    ensures CellOffset(cells, sep, c) == ColumnStart(widths, |sep|, c)
  {
    if c > 0 {
      CellOffsetByWidths(cells, widths, sep, c - 1);
    }
  }

  /** Every cell of a formatted row is exactly as wide as its column. */
  lemma FormattedRowWidths(data: seq<seq<string>>, r: nat)
    requires r < |data|
    ensures forall k :: 0 <= k < |data[r]| ==> |FormattedCells(data[r], Widths(data))[k]| == WidthOf(Widths(data), k)
  {
    forall k | 0 <= k < |data[r]|
      ensures |FormattedCells(data[r], Widths(data))[k]| == WidthOf(Widths(data), k)
    {
      FormattedCellWidth(data, r, k);
    }
  }

  /**
    The columns line up: in any two rows whose separators have the same
    length, a column both rows have starts at the same position of its line.
   */
  lemma FormattedColumnsAlign(data: seq<seq<string>>, r1: nat, r2: nat, sep1: string, sep2: string, c: nat)
    requires r1 < |data| && r2 < |data|
    requires c <= |data[r1]| && c <= |data[r2]|
    requires |sep1| == |sep2|
    ensures CellOffset(FormattedCells(data[r1], Widths(data)), sep1, c)
         == CellOffset(FormattedCells(data[r2], Widths(data)), sep2, c)
  {
    FormattedRowWidths(data, r1);
    FormattedRowWidths(data, r2);
    CellOffsetByWidths(FormattedCells(data[r1], Widths(data)), Widths(data), sep1, c);
    CellOffsetByWidths(FormattedCells(data[r2], Widths(data)), Widths(data), sep2, c);
  }

  /**
    Line `r` of the output comes right after the lines of the rows before it
    and is row `r` formatted, bracketed by the header separator when `r` is 0
    and by the value separator otherwise (whether or not the row was parsed as
    a header row), then the row separator. This holds for any width map, so
    in particular for the `Widths(data)` that `Formatting` uses.
   */
  lemma FormattingLines(data: seq<seq<string>>, widths: map<nat, nat>, props: TableProperties, r: nat)
    requires r < |data|
    ensures var out := RenderRows(FormattedGrid(data, widths), props);
      var o := |RenderRows(FormattedGrid(data[..r], widths), props)|;
      var line := Bracketed(FormattedCells(data[r], widths), LineSeparator(r, props)) + props.rowSeparator;
      o + |line| <= |out| && out[o..o + |line|] == line
  {
    var grid := FormattedGrid(data, widths);
    FormattedGridPrefix(data, widths, r);
    FormattedGridAt(data, widths, r);
    RenderRowsLineAt(grid, props, r);
  }
}
