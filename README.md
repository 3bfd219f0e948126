# JBehave table transformers, modelled in Dafny

JBehave lets a story's examples table be rewritten before it is parsed. The
rewriting is done by `TableTransformers`, a registry of named
transformers. The registry starts with three built-ins:

- `FROM_LANDSCAPE` pivots a table written one label per line (the label, then
  its values) into a header line of labels plus one line per value position.
  It fails when the labels do not all carry the same number of values.
- `FORMATTING` trims every cell and pads it with spaces to the widest trimmed
  cell of its column. The first line is written with the header separator and
  every later line with the value separator.
- `REPLACING` replaces every occurrence of the `replacing` property with the
  `replacement` property. When either property is missing it leaves the text alone.

Callers can register more transformers, or replace a built-in, under any
name. Asking for a name nothing is registered under, or one registered as `null`,
gives the table text back unchanged.

The project has six modules, one file each:

| file | module | what it holds |
|---|---|---|
| `strings.dfy` | `Strings` | The parts of Java's string library the transformers call: `startsWith`, `contains`, `trim`, `split` (read literally), `replace`, joining with a delimiter, and the decimal text of a count. |
| `tables.dfy` | `Tables` | The shared parts: `TableProperties` (the four separators and the property bag), the row parser as a function parameter, the failure result, the row filter, and the layout of a written line. |
| `from_landscape.dfy` | `LandscapeTransformer` | The pivot. A specification function, `FromLandscape`, is built on an insertion-ordered map, `LinkedMap`. The Java loops are methods proved equal to it. |
| `formatting.dfy` | `FormattingTransformer` | The aligner. The specification function `Formatting` is built on the width fold `Widths`. The Java loops (`maxWidth`, `formatRow`, `padding` and the row loops) are methods proved equal to it. |
| `replacing.dfy` | `ReplacingTransformer` | The property-driven replace. |
| `registry.dfy` | `Registry` | The `TableTransformers` class. Its name-to-transformer map is a field that the constructor fills and `UseTransformer` updates. |

How the Java constructs are modelled:

- **Exceptions become results.** A Java exception is a `Failure` result.
  - `IllegalArgument(message)` models the unequal-cells exception.
  - `IndexOutOfBounds(0, 0)` models `values.get(0)` on a row that parses to no cells.
- **The row parser is a parameter.** `TableParsers.parseRow` is the function-typed parameter `parser: RowParser`.
- **Custom transformers are total functions.** A user-registered transformer is `Custom(f)`, where `f` maps the table text, parser and properties to a result.

Two behaviours of the code that are easy to miss:

- **Empty landscape table.** `FromLandscape` also rejects a table with no labels at all: zero distinct counts is not exactly one. The message is then the fixed prefix alone.
- **Which rows use the header separator.** `Formatting` picks it by line position (line 0), not by whether the parser was told the row is a header row.

## Model

| member | source | states |
|---|---|---|
| Tables.IgnoreRow | jbehave-core/src/main/java/org/jbehave/core/model/TableTransformers.java:115-118 | `ignoreRow` (the same in both transformers, lines 145-148): a row is skipped when it starts with the ignorable separator or is empty. `KeptRows`, `KeptRowsStep` and `KeptRowsAppend` state what filtering with it keeps. |
| Tables.KeptRowsAppend | jbehave-core/src/main/java/org/jbehave/core/model/TableTransformers.java:69-72 | The row filter distributes over concatenation of the rows. |
| Tables.KeptRowsStep | jbehave-core/src/main/java/org/jbehave/core/model/TableTransformers.java:127-130 | Scanning one more row adds that row to the kept rows exactly when it is non-empty and does not start with the ignorable separator (`ignoreRow`, lines 115-118 and 145-148). Order is kept. |
| Tables.KeptRows | jbehave-core/src/main/java/org/jbehave/core/model/TableTransformers.java:145-148 | No kept row is empty or starts with the ignorable separator. |
| Tables.BracketedCellAt | jbehave-core/src/main/java/org/jbehave/core/model/TableTransformers.java:167-176 | In a written line, cell `i` starts at `CellOffset` and is followed by the separator. |
| Tables.BracketedShape | jbehave-core/src/main/java/org/jbehave/core/model/TableTransformers.java:169-175 | A written line starts with its separator and is one separator per cell plus one, plus the cells, long. |
| Tables.RenderRowsLineAt | jbehave-core/src/main/java/org/jbehave/core/model/TableTransformers.java:137-141 | Each row is written as one line, in order, right after the lines of earlier rows. Row 0 uses the header separator and later rows the value separator; every line ends with the row separator. |
| Strings.Split | jbehave-core/src/main/java/org/jbehave/core/model/TableTransformers.java:69 | `split` on the row separator (line 127 too): at least one piece. `JoinSplit` shows no text is lost, `SplitPiecesFree` that no piece contains the separator, and `SplitLeftmost` that each cut is at the leftmost occurrence. |
| Strings.JoinSplit | jbehave-core/src/main/java/org/jbehave/core/model/TableTransformers.java:69 | Splitting on the row separator and joining back with it gives the text back: the split loses nothing. |
| Strings.SplitPiecesFree | jbehave-core/src/main/java/org/jbehave/core/model/TableTransformers.java:127 | No piece of a split on a non-empty separator contains that separator. |
| Strings.SplitLeftmost | jbehave-core/src/main/java/org/jbehave/core/model/TableTransformers.java:69 | Each cut is made at the leftmost occurrence of the separator: no occurrence starts inside a piece that is followed by a cut, counting occurrences that run into the cut. So for a separator that overlaps itself, such as `"aa"` in `"aaa"`, the cut falls where a left-to-right scan finds it first. |
| Strings.Trim | jbehave-core/src/main/java/org/jbehave/core/model/TableTransformers.java:154 | `trim`: never longer than the text. `TrimIsSlice` states exactly which characters it cuts. |
| Strings.TrimIsSlice | jbehave-core/src/main/java/org/jbehave/core/model/TableTransformers.java:154 | `trim` cuts only blank characters (code at most a space) from the two ends. What is left neither starts nor ends with one. |
| Strings.NatToStringRoundTrip | jbehave-core/src/main/java/org/jbehave/core/model/TableTransformers.java:87 | The decimal text appended for a count reads back as that count. |
| Strings.NatToString | jbehave-core/src/main/java/org/jbehave/core/model/TableTransformers.java:87 | The text of a count is a non-empty run of decimal digits, with no leading zero unless the count is 0. |
| Strings.NatToStringCanonical | jbehave-core/src/main/java/org/jbehave/core/model/TableTransformers.java:87 | Any digit string without a leading zero (or the single digit `0`) is the text of its own value. With `NatToStringRoundTrip` this makes the text the one canonical decimal form `append(int)` writes. |
| LandscapeTransformer.Collect | jbehave-core/src/main/java/org/jbehave/core/model/TableTransformers.java:68-78 | The first loop, as a fold over the kept rows: when it succeeds the insertion-ordered map has no duplicate label and holds a value list for exactly its labels. `CollectFails`, `CollectLabels`, `CollectLastWins` and `CollectFirstSeenOrder` state what it holds. |
| LandscapeTransformer.Put | jbehave-core/src/main/java/org/jbehave/core/model/TableTransformers.java:77 | `LinkedHashMap.put`: a new label is appended to the key order and a known label keeps its place. The label then maps to the new values, and the map stays duplicate-free. |
| LandscapeTransformer.CollectFails | jbehave-core/src/main/java/org/jbehave/core/model/TableTransformers.java:73-74 | Collecting the rows fails exactly when some kept row parses to no cells, and the failure is the index error. |
| LandscapeTransformer.CollectFailureStays | jbehave-core/src/main/java/org/jbehave/core/model/TableTransformers.java:69-78 | Once a row has failed, later rows do not change the outcome. |
| LandscapeTransformer.CollectLabels | jbehave-core/src/main/java/org/jbehave/core/model/TableTransformers.java:74-77 | The labels are exactly the first cells of the kept rows. |
| LandscapeTransformer.CollectLastWins | jbehave-core/src/main/java/org/jbehave/core/model/TableTransformers.java:75-77 | A label holds the other cells of the last row that carries it. |
| LandscapeTransformer.CollectFirstSeenOrder | jbehave-core/src/main/java/org/jbehave/core/model/TableTransformers.java:68-77 | Labels are ordered by the row where each first appears. |
| LandscapeTransformer.CellCountsSingle | jbehave-core/src/main/java/org/jbehave/core/model/TableTransformers.java:80 | Exactly one distinct count holds exactly when there is a label and all labels have the same number of values. |
| LandscapeTransformer.UniformFirstLabel | jbehave-core/src/main/java/org/jbehave/core/model/TableTransformers.java:104 | For uniform data, the first label exists and its count is every label's count. |
| LandscapeTransformer.UnequalCellsMessageAt | jbehave-core/src/main/java/org/jbehave/core/model/TableTransformers.java:81-94 | The message starts with the fixed prefix, and label `j`'s entry `"<label> -> <n> cell"` (with `s` when `n > 1`) sits at the offset after the prefix and the entries of the labels before it. |
| LandscapeTransformer.UnequalCellsMessageNames | jbehave-core/src/main/java/org/jbehave/core/model/TableTransformers.java:81-95 | The message names every label together with its number of values. |
| LandscapeTransformer.FromLandscape | jbehave-core/src/main/java/org/jbehave/core/model/TableTransformers.java:67-113 | `FromLandscape.transform` as a function. `FromLandscapeRejects`, `FromLandscapeAccepts`, `CollectFails` and `PivotTransposesBack` state what it gives. |
| LandscapeTransformer.FromLandscapeRejects | jbehave-core/src/main/java/org/jbehave/core/model/TableTransformers.java:80-95 | The transformer fails with `IllegalArgument` exactly when the rows parse and the counts are not uniform; this includes having no label. The message is the fixed prefix followed by the per-label entries joined with `", "`. |
| LandscapeTransformer.FromLandscapeAccepts | jbehave-core/src/main/java/org/jbehave/core/model/TableTransformers.java:98-112 | For uniform data with `k` values per label, the output is the header line of labels, then `k` value lines, each followed by the row separator. |
| LandscapeTransformer.PivotGrid | jbehave-core/src/main/java/org/jbehave/core/model/TableTransformers.java:98-111 | The written table has `k + 1` rows: row 0 is the labels and every later row has one cell per label. |
| LandscapeTransformer.PivotTransposesBack | jbehave-core/src/main/java/org/jbehave/core/model/TableTransformers.java:105-111 | Reading the pivoted rows back column by column gives every label its values again. |
| LandscapeTransformer.CollectStep | jbehave-core/src/main/java/org/jbehave/core/model/TableTransformers.java:69-78 | One loop turn: an ignored row leaves the map alone, and a parsed row is put into it. |
| LandscapeTransformer.CollectStepFails | jbehave-core/src/main/java/org/jbehave/core/model/TableTransformers.java:73-74 | A kept row that parses to no cells makes the whole transformation fail with the index error. |
| LandscapeTransformer.FromLandscapeCollected | jbehave-core/src/main/java/org/jbehave/core/model/TableTransformers.java:80-112 | Once the rows are collected, the result is the unequal-cells failure or the written pivot, depending on the number of distinct counts. |
| LandscapeTransformer.AppendLine | jbehave-core/src/main/java/org/jbehave/core/model/TableTransformers.java:99-102 | The builder gains the separator, then each cell followed by the separator. |
| LandscapeTransformer.WriteHeader | jbehave-core/src/main/java/org/jbehave/core/model/TableTransformers.java:98-103 | The builder holds the pivot's first line: the labels between header separators, then the row separator. |
| LandscapeTransformer.WritePivot | jbehave-core/src/main/java/org/jbehave/core/model/TableTransformers.java:98-112 | The nested loops write exactly the rendered pivot grid. |
| LandscapeTransformer.Transform | jbehave-core/src/main/java/org/jbehave/core/model/TableTransformers.java:67-113 | `FromLandscape.transform` returns exactly `FromLandscape(...)`, including both failure paths. |
| FormattingTransformer.ParseRows | jbehave-core/src/main/java/org/jbehave/core/model/TableTransformers.java:131-132 | Row `r` is the parser's result for row `r`, parsed as a header row exactly when it contains the header separator. |
| FormattingTransformer.ParseTable | jbehave-core/src/main/java/org/jbehave/core/model/TableTransformers.java:126-133 | The first loop parses exactly the kept rows, in order. |
| FormattingTransformer.Widths | jbehave-core/src/main/java/org/jbehave/core/model/TableTransformers.java:150-165 | `maxWidth` as a fold over the rows. `WidthsAreMax` and `WidthsCover` state that it gives each used column its maximum trimmed length. |
| FormattingTransformer.WidenRow | jbehave-core/src/main/java/org/jbehave/core/model/TableTransformers.java:153-161 | One row's pass adds a key for each of its columns. Each such column gets the cell's length when it had no width or the cell is longer. Other columns are untouched. |
| FormattingTransformer.WidthsAreMax | jbehave-core/src/main/java/org/jbehave/core/model/TableTransformers.java:150-165 | The computed map has a key for exactly the columns some row uses. Each width bounds every trimmed cell of its column and equals one of them, so it is the column's maximum trimmed length. |
| FormattingTransformer.WidenRowIsMax | jbehave-core/src/main/java/org/jbehave/core/model/TableTransformers.java:152-162 | Folding one more row in keeps the widths the maxima over the rows seen. |
| FormattingTransformer.WidthsCover | jbehave-core/src/main/java/org/jbehave/core/model/TableTransformers.java:172 | Every column a row uses has a width, so the lookup in `formatRow` never finds none. |
| FormattingTransformer.MaxWidth | jbehave-core/src/main/java/org/jbehave/core/model/TableTransformers.java:150-165 | The nested loops compute exactly `Widths(data)`. |
| FormattingTransformer.PadRight | jbehave-core/src/main/java/org/jbehave/core/model/TableTransformers.java:178-183 | `formatValue`: pads with spaces up to the width. `PadRightShape` and `PadRightSpaces` state its shape. |
| FormattingTransformer.Spaces | jbehave-core/src/main/java/org/jbehave/core/model/TableTransformers.java:185-191 | `padding`: exactly `n` characters long. `AllSpaces` shows they are all spaces. |
| FormattingTransformer.PadRightShape | jbehave-core/src/main/java/org/jbehave/core/model/TableTransformers.java:178-183 | The padded value is as long as the width, or as the value when the value is longer. It starts with the value, the rest is spaces, and nothing is cut. |
| FormattingTransformer.PadRightSpaces | jbehave-core/src/main/java/org/jbehave/core/model/TableTransformers.java:179-181 | A short value is padded by appending exactly the missing number of spaces. |
| FormattingTransformer.AllSpaces | jbehave-core/src/main/java/org/jbehave/core/model/TableTransformers.java:185-191 | Padding consists of spaces only. |
| FormattingTransformer.Padding | jbehave-core/src/main/java/org/jbehave/core/model/TableTransformers.java:185-191 | The loop produces `size` spaces, and none when `size` is not positive. |
| FormattingTransformer.FormatValue | jbehave-core/src/main/java/org/jbehave/core/model/TableTransformers.java:178-183 | `formatValue` returns exactly the padded value. |
| FormattingTransformer.FormattedCellAt | jbehave-core/src/main/java/org/jbehave/core/model/TableTransformers.java:172 | Cell `c` of a formatted row is the trimmed cell, padded to column `c`'s width. |
| FormattingTransformer.FormatRow | jbehave-core/src/main/java/org/jbehave/core/model/TableTransformers.java:167-176 | `formatRow` writes the separator, then every trimmed, padded cell followed by the separator. |
| FormattingTransformer.FormattedGridAt | jbehave-core/src/main/java/org/jbehave/core/model/TableTransformers.java:137-139 | Formatted row `r` is row `r` with its cells trimmed and padded. |
| FormattingTransformer.WriteRows | jbehave-core/src/main/java/org/jbehave/core/model/TableTransformers.java:135-142 | The second loop writes exactly the rendered formatted rows. |
| FormattingTransformer.Transform | jbehave-core/src/main/java/org/jbehave/core/model/TableTransformers.java:125-143 | `Formatting.transform` returns exactly `Formatting(...)`. |
| FormattingTransformer.Formatting | jbehave-core/src/main/java/org/jbehave/core/model/TableTransformers.java:125-143 | `Formatting.transform` as a function. `FormattingLines`, `FormattedCellWidth` and `FormattedColumnsAlign` state what it writes. |
| FormattingTransformer.FormattedCellWidth | jbehave-core/src/main/java/org/jbehave/core/model/TableTransformers.java:150-183 | Every written cell is exactly as long as the widest trimmed cell of its column, starts with its own trimmed value, and continues only with spaces. |
| FormattingTransformer.FormattedRowWidths | jbehave-core/src/main/java/org/jbehave/core/model/TableTransformers.java:171-173 | Every cell of a formatted row has its column's width. |
| FormattingTransformer.FormattedColumnsAlign | jbehave-core/src/main/java/org/jbehave/core/model/TableTransformers.java:167-176 | In any two rows whose separators have the same length, a column both rows have starts at the same position of its line. |
| FormattingTransformer.CellOffsetByWidths | jbehave-core/src/main/java/org/jbehave/core/model/TableTransformers.java:169-174 | When every cell has its column's width, a column's start depends only on the widths and the separator length. |
| FormattingTransformer.FormattingLines | jbehave-core/src/main/java/org/jbehave/core/model/TableTransformers.java:137-141 | Line `r` follows the lines before it. It is row `r` formatted, bracketed by the header separator for `r == 0` and the value separator otherwise, whatever header flag the row was parsed with. Each line ends with the row separator. |
| ReplacingTransformer.Replacing | jbehave-core/src/main/java/org/jbehave/core/model/TableTransformers.java:198-205 | `Replacing.transform` as a function. `ReplacingNoOp` and `ReplacingReplacesAll` state what it gives. |
| ReplacingTransformer.ReplacingNoOp | jbehave-core/src/main/java/org/jbehave/core/model/TableTransformers.java:199-203 | The text comes back unchanged when either property is missing, when the replacement equals the replaced text, or when a non-empty replaced text does not occur in the table. |
| ReplacingTransformer.ReplacingReplacesAll | jbehave-core/src/main/java/org/jbehave/core/model/TableTransformers.java:204 | With both properties set and a non-empty replaced text, the result is the table cut at every occurrence found scanning left to right and glued back with the replacement. `SplitLeftmost` fixes where the cuts fall, and `SplitPiecesFree` shows no occurrence is left inside a piece. |
| Strings.Replace | jbehave-core/src/main/java/org/jbehave/core/model/TableTransformers.java:204 | `String.replace`. `ReplaceIsJoinOfSplit`, `ReplaceBySelf` and `ReplaceAbsent` state what it does. |
| Strings.ReplaceIsJoinOfSplit | jbehave-core/src/main/java/org/jbehave/core/model/TableTransformers.java:204 | `String.replace` with a non-empty target is the split on the target, joined with the replacement. |
| Strings.ReplaceBySelf | jbehave-core/src/main/java/org/jbehave/core/model/TableTransformers.java:204 | Replacing a text by itself changes nothing, for an empty text too. |
| Strings.ReplaceAbsent | jbehave-core/src/main/java/org/jbehave/core/model/TableTransformers.java:204 | A non-empty target that does not occur leaves the text unchanged. |
| Registry.Apply | jbehave-core/src/main/java/org/jbehave/core/model/TableTransformers.java:51 | A registered transformer's `transform`: the built-ins go to their specification functions, a custom one to its own function. |
| Registry.Dispatch | jbehave-core/src/main/java/org/jbehave/core/model/TableTransformers.java:47-54 | What `transform` gives for a given map. `RegisterDispatch`, `RegisterNullUnregisters`, `RegisterOverwrites` and `UnknownNameKeepsTable` state how it follows registrations. |
| Registry.BuiltInsDispatch | jbehave-core/src/main/java/org/jbehave/core/model/TableTransformers.java:35-45 | A new registry knows exactly `FROM_LANDSCAPE`, `FORMATTING` and `REPLACING`, each dispatching to its transformer. |
| Registry.RegisterDispatch | jbehave-core/src/main/java/org/jbehave/core/model/TableTransformers.java:56-58 | After registering `t` under a name, that name dispatches to `t` and every other name dispatches as before. |
| Registry.RegisterOverwrites | jbehave-core/src/main/java/org/jbehave/core/model/TableTransformers.java:56-58 | Registering twice under one name: the second registration wins. |
| Registry.RegisterNullUnregisters | jbehave-core/src/main/java/org/jbehave/core/model/TableTransformers.java:56-58 | Registering `null` under a name makes that name pass the table through, whatever it stood for before (lines 49-50), and leaves every other name alone. |
| Registry.UnknownNameKeepsTable | jbehave-core/src/main/java/org/jbehave/core/model/TableTransformers.java:49-53 | A name with no entry, or with a `null` entry, gives the table text back unchanged, never a failure. |
| Registry.TableTransformers.constructor | jbehave-core/src/main/java/org/jbehave/core/model/TableTransformers.java:41-45 | A new registry holds exactly the three built-ins. |
| Registry.TableTransformers.UseTransformer | jbehave-core/src/main/java/org/jbehave/core/model/TableTransformers.java:56-58 | The map gains or overwrites the one entry, `null` included, and nothing else changes. |
| Registry.TableTransformers.Transform | jbehave-core/src/main/java/org/jbehave/core/model/TableTransformers.java:47-54 | Dispatch to the registered transformer's method, or the table itself when the name has no entry or a `null` one. |

## Left out

- `String.split` is a regular-expression split in Java. Here the row separator is taken literally, so a separator with regex metacharacters (such as `|`) is not modelled as Java would read it. Java also drops trailing empty pieces. Both transformers discard empty rows, so that difference cannot change a result.
- The internals of `TableParsers.parseRow` (how a row is cut into cells and trimmed) are not part of this model. The parser is an arbitrary function argument.
- The parsing of `TableProperties` from its configuration string, and its defaults, are not part of this model. The separators and the property map are inputs.
- The idempotence of `Formatting` on already aligned input depends on how the parser cuts and trims cells, so it cannot be stated over an arbitrary parser. It is not proved.
- Custom transformers are modelled as pure functions of their inputs. A Java implementation with state or side effects is not.
- Thread safety of the registry's `HashMap` is not modelled; the model is sequential.
- FormattingTransformer.Widths: lengths count Unicode characters (`char` here is a code point), while Java's `String.length()` counts UTF-16 code units. For a cell holding characters outside the Basic Multilingual Plane, the Java widths are larger than the model's.
- FormattingTransformer.PadRight: pads to a length in Unicode characters, not UTF-16 code units, so for cells with characters outside the Basic Multilingual Plane it adds more spaces than Java does.
- Strings.Replace: with an empty target the replacement is inserted before and after every code point. Java's `String.replace("", r)` inserts it between UTF-16 code units, so also between the two halves of a surrogate pair; for text outside the Basic Multilingual Plane the model inserts fewer copies.
- Strings.Trim: `char` here is a code point, so a surrogate pair is one character. Both surrogates are above `U+0020`, so `trim` cuts the same characters either way.
- Integer widths are unbounded. Java `int` overflow would need a string longer than `Integer.MAX_VALUE`, which cannot exist.
- FormattingTransformer.FormatRow: `maxWidths.get(c)` returning `null` would throw a `NullPointerException` when unboxed. `WidthsCover` shows this cannot happen for the map `maxWidth` builds, so the method requires every column to have a width. The specification function `FormattedCells` reads a missing width as `0`.
- FormattingTransformer.FormattingLines: stated for any width map, rather than only `Widths(data)`. `Formatting` is the instance with `Widths(data)`.
- `StringBuilder` appends are modelled as string concatenation on a local `string`.
- The two Java loops of `FromLandscape.transform` that write the pivot are split across `WriteHeader`, `AppendLine` and `WritePivot`.
- The row loops of `Formatting.transform` are split into `ParseTable` and `WriteRows`.
- The message that Java's `IndexOutOfBoundsException` carries is not modelled; the failure records only the index and the size.
