/**
  The FROM_LANDSCAPE transformer: a table written one label per line (the
  label, then that label's values) becomes a header line of labels followed
  by one line per value position. Labels must all carry the same number of
  values; otherwise the transformer fails with a message listing every label
  and its count.
 */
module LandscapeTransformer {
  import opened Strings
  import opened Tables

  /**
    The `LinkedHashMap<String, List<String>>` the transformer fills: the labels
    in the order they were first put, and the values last put under each.
   */
  datatype LinkedMap = LinkedMap(labels: seq<string>, values: map<string, seq<string>>)

  /** Every label listed once, and exactly the listed labels have values. */
  ghost predicate Valid(d: LinkedMap)
  {
    && (forall i, j :: 0 <= i < j < |d.labels| ==> d.labels[i] != d.labels[j])
    && (forall key :: key in d.values <==> key in d.labels)
  }

  const Empty := LinkedMap([], map[])

  /** `map.put(key, value)`: a new key goes last, a known key keeps its place and takes the new value. */
  function Put(d: LinkedMap, key: string, value: seq<string>): (e: LinkedMap)
    requires Valid(d)
    ensures Valid(e)
    ensures e.values == d.values[key := value]
    ensures e.labels == if key in d.values then d.labels else d.labels + [key]
  {
    LinkedMap(if key in d.values then d.labels else d.labels + [key], d.values[key := value])
  }

  // ------------------------------------------------------ collecting rows

  /**
    The loop of `FromLandscape.transform` over the kept rows: parse each row as
    a data row, put its first cell as label with the other cells as values.
    A row that parses to no cell at all ends it, as `values.get(0)` throws.
   */
  function Collect(rows: seq<string>, parser: RowParser, props: TableProperties): (r: Result<LinkedMap>)
    ensures r.Success? ==> Valid(r.value)
    decreases |rows|
  {
    if rows == [] then Success(Empty)
    else
      match Collect(rows[..|rows| - 1], parser, props)
      case Failure(e) => Failure(e)
      case Success(d) =>
        var values := parser(rows[|rows| - 1], false, props);
        if values == [] then Failure(IndexOutOfBounds(0, 0))
        else Success(Put(d, values[0], values[1..]))
  }

  /** Row `i` of `rows` parses to a first cell equal to `key`. */
  ghost predicate LabelAt(rows: seq<string>, parser: RowParser, props: TableProperties, i: int, key: string)
  {
    0 <= i < |rows| && |parser(rows[i], false, props)| > 0 && parser(rows[i], false, props)[0] == key
  }

  /** Row `i` of `rows` parses to no cell at all. */
  ghost predicate EmptyAt(rows: seq<string>, parser: RowParser, props: TableProperties, i: int)
  {
    0 <= i < |rows| && parser(rows[i], false, props) == []
  }

  lemma LabelAtPrefix(rows: seq<string>, n: nat, parser: RowParser, props: TableProperties, key: string)
    requires n <= |rows|
    ensures forall j :: 0 <= j < n ==>
              (LabelAt(rows[..n], parser, props, j, key) <==> LabelAt(rows, parser, props, j, key))
  {
    forall j | 0 <= j < n
      ensures LabelAt(rows[..n], parser, props, j, key) <==> LabelAt(rows, parser, props, j, key)
    {
      assert rows[..n][j] == rows[j];
    }
  }

  lemma EmptyAtPrefix(rows: seq<string>, n: nat, parser: RowParser, props: TableProperties)
    requires n <= |rows|
    ensures forall j :: 0 <= j < n ==>
              (EmptyAt(rows[..n], parser, props, j) <==> EmptyAt(rows, parser, props, j))
  {
    forall j | 0 <= j < n
      ensures EmptyAt(rows[..n], parser, props, j) <==> EmptyAt(rows, parser, props, j)
    {
      assert rows[..n][j] == rows[j];
    }
  }

  /** The first row labelled `key`, or -1 when there is none. */
  ghost function FirstIndex(rows: seq<string>, parser: RowParser, props: TableProperties, key: string): (i: int)
    ensures -1 <= i < |rows|
    ensures i >= 0 ==> LabelAt(rows, parser, props, i, key)
    ensures forall j :: 0 <= j < |rows| && (i < 0 || j < i) ==> !LabelAt(rows, parser, props, j, key)
    decreases |rows|
  {
    if rows == [] then -1
    else
      var n := |rows| - 1;
      var i := FirstIndex(rows[..n], parser, props, key);
      LabelAtPrefix(rows, n, parser, props, key);
      if i >= 0 then i
      else if LabelAt(rows, parser, props, n, key) then n
      else -1
  }

  /** The last row labelled `key`, or -1 when there is none. */
  ghost function LastIndex(rows: seq<string>, parser: RowParser, props: TableProperties, key: string): (i: int)
    ensures -1 <= i < |rows|
    ensures i >= 0 ==> LabelAt(rows, parser, props, i, key)
    ensures forall j :: i < j < |rows| ==> !LabelAt(rows, parser, props, j, key)
    decreases |rows|
  {
    if rows == [] then -1
    else
      var n := |rows| - 1;
      LabelAtPrefix(rows, n, parser, props, key);
      if LabelAt(rows, parser, props, n, key) then n
      else LastIndex(rows[..n], parser, props, key)
  }

  /** The first row that parses to no cell, or -1 when every row has a cell. */
  ghost function FirstEmpty(rows: seq<string>, parser: RowParser, props: TableProperties): (i: int)
    ensures -1 <= i < |rows|
    ensures i >= 0 ==> EmptyAt(rows, parser, props, i)
    ensures forall j :: 0 <= j < |rows| && (i < 0 || j < i) ==> !EmptyAt(rows, parser, props, j)
    decreases |rows|
  {
    if rows == [] then -1
    else
      var n := |rows| - 1;
      var i := FirstEmpty(rows[..n], parser, props);
      EmptyAtPrefix(rows, n, parser, props);
      if i >= 0 then i
      else if EmptyAt(rows, parser, props, n) then n
      else -1
  }

  /** Collecting fails exactly when some row parses to no cell, and then with the index error. */
  lemma {:induction false} CollectFails(rows: seq<string>, parser: RowParser, props: TableProperties)
    ensures Collect(rows, parser, props).Failure? <==> FirstEmpty(rows, parser, props) >= 0
    ensures Collect(rows, parser, props).Failure? ==>
              Collect(rows, parser, props).error == IndexOutOfBounds(0, 0)
    decreases |rows|
  {
    if rows != [] {
      CollectFails(rows[..|rows| - 1], parser, props);
    }
  }

  /** Once a prefix has failed, collecting more rows does not recover. */
  lemma {:induction false} CollectFailureStays(a: seq<string>, b: seq<string>, parser: RowParser, props: TableProperties)
    requires Collect(a, parser, props).Failure?
    ensures Collect(a + b, parser, props) == Collect(a, parser, props)
    decreases |b|
  {
    if b == [] {
      assert a + b == a;
    } else {
      var n := |b| - 1;
      CollectFailureStays(a, b[..n], parser, props);
      assert (a + b)[..|a + b| - 1] == a + b[..n];
    }
  }

  /** The labels collected are exactly the first cells of the rows. */
  lemma {:induction false} CollectLabels(rows: seq<string>, parser: RowParser, props: TableProperties, key: string)
    requires Collect(rows, parser, props).Success?
    ensures key in Collect(rows, parser, props).value.values <==> FirstIndex(rows, parser, props, key) >= 0
    decreases |rows|
  {
    if rows != [] {
      var n := |rows| - 1;
      CollectLabels(rows[..n], parser, props, key);
    }
  }

  /** A label that appears on several rows takes the values of the last of them. */
  lemma {:induction false} CollectLastWins(rows: seq<string>, parser: RowParser, props: TableProperties, key: string)
    requires Collect(rows, parser, props).Success?
    requires key in Collect(rows, parser, props).value.values
    ensures var i := LastIndex(rows, parser, props, key);
      i >= 0 && Collect(rows, parser, props).value.values[key] == parser(rows[i], false, props)[1..]
    decreases |rows|
  {
    var n := |rows| - 1;
    var pre := rows[..n];
    if !LabelAt(rows, parser, props, n, key) {
      CollectLastWins(pre, parser, props, key);
      assert pre[LastIndex(pre, parser, props, key)] == rows[LastIndex(pre, parser, props, key)];
    }
  }

  /** Labels keep first-seen order: a label listed before another is first seen on an earlier row. */
  lemma {:induction false} CollectFirstSeenOrder(rows: seq<string>, parser: RowParser, props: TableProperties, a: nat, b: nat)
    requires Collect(rows, parser, props).Success?
    requires a < b < |Collect(rows, parser, props).value.labels|
    ensures var labels := Collect(rows, parser, props).value.labels;
      0 <= FirstIndex(rows, parser, props, labels[a]) < FirstIndex(rows, parser, props, labels[b])
    decreases |rows|
  {
    var n := |rows| - 1;
    var pre := rows[..n];
    var d := Collect(rows, parser, props).value;
    var d' := Collect(pre, parser, props).value;
    assert d'.labels[a] == d.labels[a];
    assert d'.labels[a] in d'.values;
    CollectLabels(pre, parser, props, d.labels[a]);
    if b < |d'.labels| {
      CollectFirstSeenOrder(pre, parser, props, a, b);
      assert d'.labels[b] == d.labels[b];
    } else {
      // labels[b] is new on the last row, so no earlier row carries it
      assert d.labels[b] !in d'.values;
      CollectLabels(pre, parser, props, d.labels[b]);
    }
  }

  // ------------------------------------------------------------ validation

  /** The distinct numbers of values, one per key. */
  function CellCounts(d: LinkedMap): set<nat>
  {
    set key | key in d.values :: |d.values[key]|
  }

  /** There is at least one label and all labels have the same number of values. */
  ghost predicate Uniform(d: LinkedMap)
  {
    && d.values != map[]
    && forall l1, l2 :: l1 in d.values && l2 in d.values ==> |d.values[l1]| == |d.values[l2]|
  }

  /** Exactly one distinct count means: some label, and no two labels differ in their counts. */
  lemma CellCountsSingle(d: LinkedMap)
    ensures |CellCounts(d)| == 1 <==> Uniform(d)
  {
    var counts := CellCounts(d);
    if Uniform(d) {
      var l0 :| l0 in d.values;
      assert counts == {|d.values[l0]|};
    } else if d.values == map[] {
      assert counts == {};
    } else {
      var l1, l2 :| l1 in d.values && l2 in d.values && |d.values[l1]| != |d.values[l2]|;
      assert {|d.values[l1]|, |d.values[l2]|} <= counts;
      assert |{|d.values[l1]|, |d.values[l2]|}| == 2;
      SubsetSize({|d.values[l1]|, |d.values[l2]|}, counts);
    }
  }

  lemma UniformFirstLabel(d: LinkedMap)
    requires Valid(d) && Uniform(d)
    ensures d.labels != [] && d.labels[0] in d.values
    ensures forall key :: key in d.values ==> |d.values[key]| == |d.values[d.labels[0]]|
  {
    var l0 :| l0 in d.values;
    assert l0 in d.labels;
  }

  lemma SubsetSize(a: set<nat>, b: set<nat>)
    requires a <= b
    ensures |a| <= |b|
  {
    assert b == a + (b - a);
  }

  /** `"<key> -> <n> cell"`, with an `s` appended when `n` is more than one. */
  function CellDescription(key: string, n: nat): string
  {
    key + " -> " + NatToString(n) + " cell" + (if n > 1 then "s" else "")
  }

  const UnequalCellsPrefix := "The table rows have unequal numbers of cells: "

  /** One description per key, in key order. */
  function CellDescriptions(d: LinkedMap): seq<string>
    requires Valid(d)
  {
    seq(|d.labels|, j requires 0 <= j < |d.labels| => CellDescription(d.labels[j], |d.values[d.labels[j]]|))
  }

  /** The message of the `IllegalArgumentException`. */
  function UnequalCellsMessage(d: LinkedMap): string
    requires Valid(d)
  {
    UnequalCellsPrefix + Join(CellDescriptions(d), ", ")
  }

  /**
    The message starts with the fixed prefix, and the entry of label `j` sits
    right after the prefix and the entries of the labels before it, each
    followed by `", "`.
   */
  lemma UnequalCellsMessageAt(d: LinkedMap, j: nat)
    requires Valid(d) && j < |d.labels|
    ensures var m := UnequalCellsMessage(d);
      var e := CellDescription(d.labels[j], |d.values[d.labels[j]]|);
      var o := |UnequalCellsPrefix| + JoinOffset(CellDescriptions(d), ", ", j);
      && StartsWith(m, UnequalCellsPrefix)
      && o + |e| <= |m| && m[o..o + |e|] == e
  {
    PrefixedPartAt(UnequalCellsPrefix, CellDescriptions(d), ", ", j);
  }

  /** The message names every label with its number of values. */
  lemma UnequalCellsMessageNames(d: LinkedMap, key: string)
    requires Valid(d) && key in d.values
    ensures Contains(UnequalCellsMessage(d), CellDescription(key, |d.values[key]|))
  {
    var j :| 0 <= j < |d.labels| && d.labels[j] == key;
    var m := UnequalCellsMessage(d);
    var e := CellDescription(d.labels[j], |d.values[d.labels[j]]|);
    var o := |UnequalCellsPrefix| + JoinOffset(CellDescriptions(d), ", ", j);
    UnequalCellsMessageAt(d, j);
    ContainsAt(m, e, o);
  }

  // ------------------------------------------------------------ the pivot

  /** Every key carries exactly `k` values. */
  ghost predicate HasCounts(d: LinkedMap, k: nat)
  {
    forall key :: key in d.values ==> |d.values[key]| == k
  }

  /**
    The table the transformer writes: the labels as the header row, then for
    every value position `c` the row of every key's `c`-th value.
   */
  function PivotGrid(d: LinkedMap, k: nat): (grid: seq<seq<string>>)
    requires Valid(d)
    requires HasCounts(d, k)
    ensures |grid| == k + 1 && grid[0] == d.labels
    ensures forall c :: 1 <= c <= k ==> |grid[c]| == |d.labels|
  {
    [d.labels] + seq(k, c requires 0 <= c < k => ValueLine(d, c))
  }

  /**
    Reading the pivoted rows back column by column gives every key its
    values again.
   */
  lemma PivotTransposesBack(d: LinkedMap, k: nat, j: nat)
    requires Valid(d)
    requires HasCounts(d, k)
    requires j < |d.labels|
    ensures seq(k, c requires 0 <= c < k => PivotGrid(d, k)[c + 1][j]) == d.values[d.labels[j]]
  {
    var grid := PivotGrid(d, k);
    assert d.labels[j] in d.values;
    forall c | 0 <= c < k ensures grid[c + 1][j] == d.values[d.labels[j]][c] {
    }
  }

  /** The result of `FromLandscape.transform` on `tableAsString`. */
  function FromLandscape(tableAsString: string, parser: RowParser, props: TableProperties): Result<string>
  {
    var rows := KeptRows(Split(tableAsString, props.rowSeparator), props.ignorableSeparator);
    match Collect(rows, parser, props)
    case Failure(e) => Failure(e)
    case Success(d) =>
      if |CellCounts(d)| != 1 then Failure(IllegalArgument(UnequalCellsMessage(d)))
      else
        CellCountsSingle(d);
        UniformFirstLabel(d);
        Success(RenderRows(PivotGrid(d, |d.values[d.labels[0]]|), props))
  }

  /**
    The transformer rejects its input with the unequal-cells message exactly
    when the kept rows parse but there is no key, or two labels have
    different numbers of values.
   */
  lemma FromLandscapeRejects(tableAsString: string, parser: RowParser, props: TableProperties)
    ensures var rows := KeptRows(Split(tableAsString, props.rowSeparator), props.ignorableSeparator);
      var r := FromLandscape(tableAsString, parser, props);
      && ((r.Failure? && r.error.IllegalArgument?)
            <==> (Collect(rows, parser, props).Success? && !Uniform(Collect(rows, parser, props).value)))
      && (r.Failure? && r.error.IllegalArgument? ==>
            r.error.message == UnequalCellsMessage(Collect(rows, parser, props).value))
  {
    var rows := KeptRows(Split(tableAsString, props.rowSeparator), props.ignorableSeparator);
    if Collect(rows, parser, props).Success? {
      CellCountsSingle(Collect(rows, parser, props).value);
    } else {
      CollectFails(rows, parser, props);
    }
  }

  /**
    On uniform input with `k` values per key, the output is the header line
    (the header separator, then each key followed by it, then the row
    separator) and `k` value lines, line `c` holding each key's `c`-th value.
   */
  lemma FromLandscapeAccepts(tableAsString: string, parser: RowParser, props: TableProperties, k: nat)
    requires var rows := KeptRows(Split(tableAsString, props.rowSeparator), props.ignorableSeparator);
      && Collect(rows, parser, props).Success?
      && Uniform(Collect(rows, parser, props).value)
      && forall key :: key in Collect(rows, parser, props).value.values ==>
           |Collect(rows, parser, props).value.values[key]| == k
    ensures var rows := KeptRows(Split(tableAsString, props.rowSeparator), props.ignorableSeparator);
      var d := Collect(rows, parser, props).value;
      FromLandscape(tableAsString, parser, props) == Success(RenderRows(PivotGrid(d, k), props))
  {
    var rows := KeptRows(Split(tableAsString, props.rowSeparator), props.ignorableSeparator);
    var d := Collect(rows, parser, props).value;
    CellCountsSingle(d);
    assert d.labels[0] in d.values;
  }

  // ---------------------------------------------------- the Java method

  /** One more scanned row: an ignored row changes nothing, a parsed row is put into the map. */
  lemma CollectStep(rows: seq<string>, i: nat, parser: RowParser, props: TableProperties, data: LinkedMap)
    requires i < |rows|
    requires Collect(KeptRows(rows[..i], props.ignorableSeparator), parser, props) == Success(data)
    requires !IgnoreRow(rows[i], props.ignorableSeparator) ==> parser(rows[i], false, props) != []
    ensures var values := parser(rows[i], false, props);
      Collect(KeptRows(rows[..i + 1], props.ignorableSeparator), parser, props)
      == if IgnoreRow(rows[i], props.ignorableSeparator) then Success(data)
         else Success(Put(data, values[0], values[1..]))
  {
    KeptRowsStep(rows, i, props.ignorableSeparator);
    var prev := KeptRows(rows[..i], props.ignorableSeparator);
    var kept := KeptRows(rows[..i + 1], props.ignorableSeparator);
    if !IgnoreRow(rows[i], props.ignorableSeparator) {
      assert kept == prev + [rows[i]];
      assert kept[..|kept| - 1] == prev;
      assert kept[|kept| - 1] == rows[i];
      assert Collect(kept[..|kept| - 1], parser, props) == Success(data);
      var values := parser(rows[i], false, props);
      assert values != [];
      assert Valid(data);
      assert Collect(kept, parser, props) == Success(Put(data, values[0], values[1..]));
    } else {
      assert kept == prev;
    }
  }

  /** A kept row that parses to no cell makes the whole transformation fail with the index error. */
  lemma CollectStepFails(tableAsString: string, i: nat, parser: RowParser, props: TableProperties, data: LinkedMap)
    requires var rows := Split(tableAsString, props.rowSeparator);
      && i < |rows|
      && Collect(KeptRows(rows[..i], props.ignorableSeparator), parser, props) == Success(data)
      && !IgnoreRow(rows[i], props.ignorableSeparator) && parser(rows[i], false, props) == []
    ensures FromLandscape(tableAsString, parser, props) == Failure(IndexOutOfBounds(0, 0))
  {
    var rows := Split(tableAsString, props.rowSeparator);
    var ign := props.ignorableSeparator;
    KeptRowsStep(rows, i, ign);
    var kept := KeptRows(rows[..i + 1], ign);
    assert kept[..|kept| - 1] == KeptRows(rows[..i], ign);
    assert rows == rows[..i + 1] + rows[i + 1..];
    KeptRowsAppend(rows[..i + 1], rows[i + 1..], ign);
    CollectFailureStays(kept, KeptRows(rows[i + 1..], ign), parser, props);
  }

  /** The result once the rows have been collected into `data`. */
  lemma FromLandscapeCollected(tableAsString: string, parser: RowParser, props: TableProperties, data: LinkedMap)
    requires Collect(KeptRows(Split(tableAsString, props.rowSeparator), props.ignorableSeparator), parser, props)
             == Success(data)
    ensures |CellCounts(data)| != 1 ==>
              FromLandscape(tableAsString, parser, props) == Failure(IllegalArgument(UnequalCellsMessage(data)))
    ensures |CellCounts(data)| == 1 ==>
              && Uniform(data) && data.labels != [] && data.labels[0] in data.values
              && FromLandscape(tableAsString, parser, props)
                 == Success(RenderRows(PivotGrid(data, |data.values[data.labels[0]]|), props))
  {
    CellCountsSingle(data);
    if Uniform(data) {
      UniformFirstLabel(data);
    }
  }

  lemma TerminatedStep(cells: seq<string>, j: nat, sep: string)
    requires j < |cells|
    ensures Terminated(cells[..j + 1], sep) == Terminated(cells[..j], sep) + cells[j] + sep
  {
    assert cells[..j + 1][..j] == cells[..j];
  }

  lemma RenderRowsStep(grid: seq<seq<string>>, c: nat, props: TableProperties)
    requires c + 1 < |grid|
    ensures RenderRows(grid[..c + 2], props)
         == RenderRows(grid[..c + 1], props) + Bracketed(grid[c + 1], props.valueSeparator) + props.rowSeparator
  {
    assert grid[..c + 2][..c + 1] == grid[..c + 1];
  }

  /** `FromLandscape.transform`: the row loop filling the map, the check, then the nested loops writing the pivot. */
  method Transform(tableAsString: string, parser: RowParser, props: TableProperties) returns (r: Result<string>)
    ensures r == FromLandscape(tableAsString, parser, props)
  {
    var rows := Split(tableAsString, props.rowSeparator);
    var data := Empty;
    var i := 0;
    while i < |rows|
      invariant 0 <= i <= |rows|
      invariant Collect(KeptRows(rows[..i], props.ignorableSeparator), parser, props) == Success(data)
    {
      var rowAsString := rows[i];
      if IgnoreRow(rowAsString, props.ignorableSeparator) {
        CollectStep(rows, i, parser, props, data);
        i := i + 1;
        continue;
      }
      var values := parser(rowAsString, false, props);
      if |values| == 0 {
        CollectStepFails(tableAsString, i, parser, props, data);
        return Failure(IndexOutOfBounds(0, 0));
      }
      CollectStep(rows, i, parser, props, data);
      var header := values[0];
      var rowValues := values[1..];
      data := Put(data, header, rowValues);
      i := i + 1;
    }
    assert rows[..|rows|] == rows;
    FromLandscapeCollected(tableAsString, parser, props, data);

    if |CellCounts(data)| != 1 {
      return Failure(IllegalArgument(UnequalCellsMessage(data)));
    }
    UniformFirstLabel(data);
    var pivot := WritePivot(data, props);
    r := Success(pivot);
  }

  /** Row `c` of the values: every key's `c`-th value, in key order. */
  function ValueLine(d: LinkedMap, c: nat): seq<string>
    requires Valid(d)
    requires forall key :: key in d.values ==> c < |d.values[key]|
  {
    seq(|d.labels|, j requires 0 <= j < |d.labels| => d.values[d.labels[j]][c])
  }

  /** One line written into the builder: the separator, then each cell followed by the separator. */
  method AppendLine(builder: string, cells: seq<string>, sep: string) returns (b: string)
    ensures b == builder + Bracketed(cells, sep)
  {
    b := builder + sep;
    assert Terminated(cells[..0], sep) == "";
    for j := 0 to |cells|
      invariant b == builder + sep + Terminated(cells[..j], sep)
    {
      TerminatedStep(cells, j, sep);
      assert builder + sep + Terminated(cells[..j], sep) + cells[j] + sep
          == builder + sep + (Terminated(cells[..j], sep) + cells[j] + sep);
      b := b + cells[j] + sep;
    }
    assert cells[..|cells|] == cells;
    assert builder + sep + Terminated(cells, sep) == builder + (sep + Terminated(cells, sep));
  }

  /** The header line is the first line written. */
  lemma PivotHeader(d: LinkedMap, k: nat, props: TableProperties)
    requires Valid(d)
    requires HasCounts(d, k)
    ensures RenderRows(PivotGrid(d, k)[..1], props) == Bracketed(d.labels, props.headerSeparator) + props.rowSeparator
  {
    var grid := PivotGrid(d, k);
    assert grid[..1][..0] == [];
    assert "" + Bracketed(d.labels, props.headerSeparator) == Bracketed(d.labels, props.headerSeparator);
  }

  /** Value line `c` is written after the lines before it. */
  lemma PivotStep(d: LinkedMap, k: nat, c: nat, props: TableProperties, before: string, after: string)
    requires Valid(d)
    requires HasCounts(d, k)
    requires c < k
    requires before == RenderRows(PivotGrid(d, k)[..c + 1], props)
    requires after == before + Bracketed(ValueLine(d, c), props.valueSeparator) + props.rowSeparator
    ensures after == RenderRows(PivotGrid(d, k)[..c + 2], props)
  {
    var grid := PivotGrid(d, k);
    assert grid[c + 1] == ValueLine(d, c);
    RenderRowsStep(grid, c, props);
  }

  /** The header line: the labels bracketed by the header separator, then the row separator. */
  method WriteHeader(data: LinkedMap, k: nat, props: TableProperties) returns (builder: string)
    requires Valid(data) && HasCounts(data, k)
    ensures builder == RenderRows(PivotGrid(data, k)[..1], props)
  {
    builder := AppendLine("", data.labels, props.headerSeparator);
    builder := builder + props.rowSeparator;
    PivotHeader(data, k, props);
  }

  /** The `StringBuilder` part of `FromLandscape.transform`: the header line, then one line per value position. */
  method WritePivot(data: LinkedMap, props: TableProperties) returns (builder: string)
    requires Valid(data) && data.labels != [] && data.labels[0] in data.values
    requires HasCounts(data, |data.values[data.labels[0]]|)
    ensures builder == RenderRows(PivotGrid(data, |data.values[data.labels[0]]|), props)
  {
    var numberOfCells := |data.values[data.labels[0]]|;
    builder := WriteHeader(data, numberOfCells, props);
    for c := 0 to numberOfCells
      invariant builder == RenderRows(PivotGrid(data, numberOfCells)[..c + 1], props)
    {
      var line := ValueLine(data, c);
      ghost var before := builder;
      builder := AppendLine(builder, line, props.valueSeparator);
      builder := builder + props.rowSeparator;
      PivotStep(data, numberOfCells, c, props, before, builder);
    }
    assert PivotGrid(data, numberOfCells)[..numberOfCells + 1] == PivotGrid(data, numberOfCells);
  }
}
