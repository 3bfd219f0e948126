/**
  What the three built-in transformers share: the table's separators and
  property bag, the row parser they delegate to, the failure a transformer
  can end in, the rule that skips blank and ignorable rows, and the layout of
  a rendered line (a separator, then every cell followed by the separator).
 */
module Tables {
  import opened Strings

  /** The separators and the property bag of one table (`ExamplesTable.TableProperties`). */
  datatype TableProperties = TableProperties(
    rowSeparator: string,
    headerSeparator: string,
    valueSeparator: string,
    ignorableSeparator: string,
    properties: map<string, string>)

  /**
    `TableParsers.parseRow(rowAsString, isHeader, properties)`: the cells of one
    row. How it cuts and trims cells is not part of this model.
   */
  type RowParser = (string, bool, TableProperties) -> seq<string>

  /** The Java exceptions a transformer ends in. */
  datatype TransformError =
    | IllegalArgument(message: string)
    | IndexOutOfBounds(index: int, size: int)

  datatype Result<T> = Success(value: T) | Failure(error: TransformError)

  // ------------------------------------------------------------ row filter

  /** A row that is empty or starts with the ignorable separator is skipped. */
  predicate IgnoreRow(row: string, ignorableSeparator: string)
  {
    StartsWith(row, ignorableSeparator) || |row| == 0
  }

  /** The rows the transformers work on, in their original order. */
  function KeptRows(rows: seq<string>, ignorableSeparator: string): (kept: seq<string>)
    ensures |kept| <= |rows|
    ensures forall k :: 0 <= k < |kept| ==> !IgnoreRow(kept[k], ignorableSeparator)
    decreases |rows|
  {
    if rows == [] then []
    else
      var head := if IgnoreRow(rows[0], ignorableSeparator) then [] else [rows[0]];
      head + KeptRows(rows[1..], ignorableSeparator)
  }

  /**
    Filtering distributes over concatenation. With the one-row case (a row is
    kept exactly when it is not ignored) this pins the filter down: every
    non-ignored row, and nothing else, in its original order.
   */
  lemma {:induction false} KeptRowsAppend(a: seq<string>, b: seq<string>, ignorableSeparator: string)
    ensures KeptRows(a + b, ignorableSeparator)
         == KeptRows(a, ignorableSeparator) + KeptRows(b, ignorableSeparator)
    decreases |a|
  {
    if a == [] {
      assert a + b == b;
    } else {
      assert (a + b)[1..] == a[1..] + b;
      KeptRowsAppend(a[1..], b, ignorableSeparator);
    }
  }

  lemma KeptRowsOne(row: string, ignorableSeparator: string)
    ensures KeptRows([row], ignorableSeparator)
         == if IgnoreRow(row, ignorableSeparator) then [] else [row]
  {
    assert [row][1..] == [];
  }

  /** Extending the scanned prefix by one row extends the kept rows by that row, unless it is ignored. */
  lemma KeptRowsStep(rows: seq<string>, i: nat, ignorableSeparator: string)
    requires i < |rows|
    ensures KeptRows(rows[..i + 1], ignorableSeparator)
         == KeptRows(rows[..i], ignorableSeparator)
          + (if IgnoreRow(rows[i], ignorableSeparator) then [] else [rows[i]])
  {
    assert rows[..i + 1] == rows[..i] + [rows[i]];
    KeptRowsAppend(rows[..i], [rows[i]], ignorableSeparator);
    KeptRowsOne(rows[i], ignorableSeparator);
  }

  // ---------------------------------------------------------- line layout

  /** Every cell followed by `sep`. */
  function Terminated(cells: seq<string>, sep: string): string
    decreases |cells|
  {
    if cells == [] then ""
    else Terminated(cells[..|cells| - 1], sep) + cells[|cells| - 1] + sep
  }

  /** `sep`, then every cell followed by `sep`: the shape of every line the built-ins write. */
  function Bracketed(cells: seq<string>, sep: string): string
  {
    sep + Terminated(cells, sep)
  }

  /** Line 0 of a rendered table is the header line, every later line a value line. */
  function LineSeparator(r: nat, props: TableProperties): string
  {
    if r == 0 then props.headerSeparator else props.valueSeparator
  }

  /** Each row as a bracketed line followed by the row separator. */
  function RenderRows(rows: seq<seq<string>>, props: TableProperties): string
    decreases |rows|
  {
    if rows == [] then ""
    else
      var n := |rows| - 1;
      RenderRows(rows[..n], props) + Bracketed(rows[n], LineSeparator(n, props)) + props.rowSeparator
  }

  /** Where cell `i` starts in `Bracketed(cells, sep)`: one separator per cell so far, plus the cells before it. */
  function CellOffset(cells: seq<string>, sep: string, i: nat): nat
    requires i <= |cells|
  {
    if i == 0 then |sep| else CellOffset(cells, sep, i - 1) + |cells[i - 1]| + |sep|
  }

  lemma {:induction false} BracketedPrefixLength(cells: seq<string>, sep: string, i: nat)
    requires i <= |cells|
    ensures |Bracketed(cells[..i], sep)| == CellOffset(cells, sep, i)
  {
    if i > 0 {
      BracketedPrefixLength(cells, sep, i - 1);
      assert cells[..i][..i - 1] == cells[..i - 1];
    }
  }

  lemma {:induction false} BracketedIsPrefix(cells: seq<string>, sep: string, i: nat)
    requires i <= |cells|
    ensures |Bracketed(cells[..i], sep)| <= |Bracketed(cells, sep)|
    ensures Bracketed(cells, sep)[..|Bracketed(cells[..i], sep)|] == Bracketed(cells[..i], sep)
    decreases |cells| - i
  {
    if i < |cells| {
      var n := |cells| - 1;
      assert cells[..n][..i] == cells[..i];
      BracketedIsPrefix(cells[..n], sep, i);
      assert cells[..|cells|] == cells;
    } else {
      assert cells[..i] == cells;
    }
  }

  /**
    Cell `i` sits in its line at `CellOffset(cells, sep, i)`, with the
    separator right after it; the line starts with the separator and is
    `CellOffset(cells, sep, |cells|)` long.
   */
  lemma BracketedCellAt(cells: seq<string>, sep: string, i: nat)
    requires i < |cells|
    ensures var o := CellOffset(cells, sep, i);
      && o + |cells[i]| + |sep| <= |Bracketed(cells, sep)|
      && Bracketed(cells, sep)[o..o + |cells[i]|] == cells[i]
      && Bracketed(cells, sep)[o + |cells[i]|..o + |cells[i]| + |sep|] == sep
  {
    var o := CellOffset(cells, sep, i);
    var line := Bracketed(cells, sep);
    var before := Bracketed(cells[..i], sep);
    var upTo := Bracketed(cells[..i + 1], sep);
    BracketedIsPrefix(cells, sep, i + 1);
    BracketedPrefixLength(cells, sep, i);
    assert upTo == before + cells[i] + sep by {
      assert cells[..i + 1][..i] == cells[..i];
    }
    PiecesAfterPrefix(line, before, cells[i], sep);
  }

  lemma BracketedShape(cells: seq<string>, sep: string)
    ensures |Bracketed(cells, sep)| == CellOffset(cells, sep, |cells|)
    ensures Bracketed(cells, sep)[..|sep|] == sep
  {
    BracketedPrefixLength(cells, sep, |cells|);
    assert cells[..|cells|] == cells;
  }

  lemma {:induction false} RenderRowsIsPrefix(rows: seq<seq<string>>, props: TableProperties, m: nat)
    requires m <= |rows|
    ensures |RenderRows(rows[..m], props)| <= |RenderRows(rows, props)|
    ensures RenderRows(rows, props)[..|RenderRows(rows[..m], props)|] == RenderRows(rows[..m], props)
    decreases |rows| - m
  {
    if m < |rows| {
      var n := |rows| - 1;
      assert rows[..n][..m] == rows[..m];
      RenderRowsIsPrefix(rows[..n], props, m);
    } else {
      assert rows[..m] == rows;
    }
  }

  /** When `s` starts with `before + piece`, `piece` sits right after `before`. */
  lemma PieceAfterPrefix(s: string, before: string, piece: string)
    requires |before| + |piece| <= |s| && s[..|before| + |piece|] == before + piece
    ensures s[|before|..|before| + |piece|] == piece
  {
    forall k | 0 <= k < |piece| ensures s[|before| + k] == piece[k] {
      assert s[..|before| + |piece|][|before| + k] == s[|before| + k];
    }
  }

  /** When `s` starts with `before + a + b`, `a` and then `b` sit right after `before`. */
  lemma PiecesAfterPrefix(s: string, before: string, a: string, b: string)
    requires |before| + |a| + |b| <= |s| && s[..|before| + |a| + |b|] == before + a + b
    ensures s[|before|..|before| + |a|] == a
    ensures s[|before| + |a|..|before| + |a| + |b|] == b
  {
    forall k | 0 <= k < |a| ensures s[|before| + k] == a[k] {
      assert s[..|before| + |a| + |b|][|before| + k] == s[|before| + k];
    }
    forall k | 0 <= k < |b| ensures s[|before| + |a| + k] == b[k] {
      assert s[..|before| + |a| + |b|][|before| + |a| + k] == s[|before| + |a| + k];
    }
  }

  /**
    Row `r` is written as one line: it starts after the lines of the rows
    before it and is the row bracketed by the header separator (row 0) or the
    value separator (later rows), then the row separator.
   */
  lemma RenderRowsLineAt(rows: seq<seq<string>>, props: TableProperties, r: nat)
    requires r < |rows|
    ensures var o := |RenderRows(rows[..r], props)|;
      var line := Bracketed(rows[r], LineSeparator(r, props)) + props.rowSeparator;
      && o + |line| <= |RenderRows(rows, props)|
      && RenderRows(rows, props)[o..o + |line|] == line
  {
    var before := RenderRows(rows[..r], props);
    var line := Bracketed(rows[r], LineSeparator(r, props)) + props.rowSeparator;
    var all := RenderRows(rows, props);
    var upTo := RenderRows(rows[..r + 1], props);
    assert upTo == before + line by {
      assert rows[..r + 1][..r] == rows[..r];
      assert before + Bracketed(rows[r], LineSeparator(r, props)) + props.rowSeparator == before + line;
    }
    RenderRowsIsPrefix(rows, props, r + 1);
    PieceAfterPrefix(all, before, line);
  }
}
