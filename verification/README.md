# Format-preserving rendering of a TOML document tree

This project models the renderer of a format-preserving TOML library in Dafny. The library keeps every lexeme's raw text and decor, which is the whitespace and comments around it. Its renderer turns an immutable document tree back into text. It works in four layers:

- **Leaf renderers.**
  - A decorated lexeme (`Repr`) is written as prefix, raw text, suffix.
  - A formatted value is written as its `Repr`.
  - An array is written as its bracketed, comma-joined elements, an optional trailing comma and its trailing text.
  - An inline table is written as `key=value` pairs for the entries that hold plain values, comma-joined.
- **The plain walk.** `visit_nested_tables` is a pre-order walk over nested tables and arrays of tables. It carries the path of raw keys and an "array member" flag.
- **One table's text.** `visit_table` writes the header line followed by the body:
  - `[[a.b]]` for an array member;
  - `[a.b]` for a plain table, unless it is implicit and has no values;
  - nothing for the start table;
  - then one `key=value` line per plain-value entry.
- **Original order.** `visit_nested_tables_in_original_order` collects the tables' source positions and sorts them. It then walks the tree again and again. A cursor into the sorted positions and a `should_print` flag carry from table to table, so tables come out in source order. A table without a position follows the positioned table before it.

Because rendering never changes the tree, every walk visits the same sequence. The walk is therefore modelled as a function that returns the pre-order sequence of visits `(table, path, isArrayMember)`. The original-order algorithm is modelled as a state machine `State(cursor, shouldPrint)` run over that sequence once per pass. A method, `OriginalOrder.VisitInOriginalOrder`, runs the loops the way the library does, and it is proved equal to the functional model.

Modules:

- `Wrappers`: `Option`.
- `Toml`: the document tree.
- `Text`: concatenation and `join`.
- `ValueDisplay`: leaf renderers.
- `Traversal`: the plain walk.
- `TableDisplay`: `visit_table` and the plain renderings.
- `Sorting`: the ascending sort of positions.
- `OriginalOrder`: the multi-pass reconstruction.
- `DocumentDisplay`: `to_string_in_original_order`.

## Model

| member | source | states |
|---|---|---|
| Text.WriteJoined | src/display.rs:236-248 | The separator-before-every-later-element loop builds the joined text; n ≥ 1 parts carry exactly n − 1 separators |
| Text.JoinLength | src/display.rs:236-248 | A join of n ≥ 1 parts is as long as the parts plus n − 1 separators; an empty join is empty |
| Text.JoinCons | src/display.rs:241-246 | Read from the front, a join is the first part, then one separator before each later part |
| ValueDisplay.ReprTextSplits | src/display.rs:7-15 | A lexeme's text splits back into its decor prefix, its raw value verbatim and its decor suffix |
| ValueDisplay.FormattedIgnoresParsedValue | src/display.rs:17-21 | Two formatted values with the same representation render alike whatever value was parsed; the text is the representation's |
| ValueDisplay.ArrayTextLength | src/display.rs:48-58 | An array of n elements writes n − 1 separating commas, plus one when it has a trailing comma, around its elements, brackets, trailing text and decor |
| ValueDisplay.ArrayAppendElement | src/display.rs:48-58 | Appending an element to a non-empty array inserts exactly one comma and the element's text before the trailing-comma marker |
| ValueDisplay.InlineEntriesAreValueEntries | src/display.rs:64-68 | The inline table's written pairs are exactly its plain-value entries, in entry order; no other entry is written |
| ValueDisplay.InlineTableSkipInsert | src/display.rs:60-78 | Inserting a non-value entry anywhere in an inline table leaves its text unchanged: commas are counted over written entries only |
| ValueDisplay.InlineTableSkipsMiddle | src/display.rs:60-78 | With a non-value entry between two values, the inline table is written as the two pairs separated by exactly one comma |
| Toml.NoValuesIff | src/display.rs:179 | A table's count of plain values is zero exactly when none of its entries holds a plain value |
| Toml.ValueEntriesSkipInsert | src/display.rs:185-189 | Inserting a non-value entry anywhere does not change the sequence of plain-value entries |
| Traversal.Walk | src/display.rs:140-169 | The walk starts with the table itself, and every later visit's path strictly extends the start path |
| Traversal.WalkIsPreOrder | src/display.rs:149-167 | The walk is the table, then the walks of its direct children in entry order: a nested table as a plain child, each array member in stored order as an array-member child under the same key, values and empty entries not at all |
| Traversal.WalkParentFirst | src/display.rs:149-167 | Every table visited after the start table is a direct child of a table visited earlier, reached by that table's path plus the entry's raw key |
| Traversal.WalkLength | src/display.rs:149-167 | The callback runs once for the start table and once for every table nested inside it, each array member counted |
| TableDisplay.HeaderWrittenIff | src/display.rs:172-183 | A header is written exactly when the path is non-empty and the table is an array member, or is not implicit, or holds a plain value |
| TableDisplay.HeaderNamesPath | src/display.rs:175-183 | A written header splits back into the decor prefix, one or two opening brackets, the dot-joined path verbatim, and the matching closing brackets with the suffix and a newline |
| TableDisplay.RootHasNoHeader | src/display.rs:173-174 | The start table (empty path) writes only its body |
| TableDisplay.ImplicitTableWritesNothing | src/display.rs:179-189 | An implicit plain table with no plain values writes nothing at all |
| TableDisplay.BodySkipsNonValues | src/display.rs:184-189 | Nested tables, arrays of tables and empty entries add nothing to the body wherever they sit |
| TableDisplay.BodyAppendValue | src/display.rs:184-189 | Appending a plain-value entry appends exactly its `key=value` line to the body |
| TableDisplay.PlainRenderOnlyRootHeaderless | src/display.rs:193-202 | In the plain rendering the start table writes only its body and every other visited table has a non-empty path |
| Sorting.Sort | src/display.rs:97 | The sorted positions are in ascending order and are a permutation of the collected ones |
| OriginalOrder.CollectPositions | src/display.rs:90-96 | The first walk collects the positions of the visited tables, in walk order; a value is collected exactly when some visited table holds it |
| OriginalOrder.StepMoves | src/display.rs:114-129 | One callback step moves the cursor by at most one, exactly when the table holds the awaited position; the table is then written; unpositioned tables leave the state alone |
| OriginalOrder.PassMatchesSchedule | src/display.rs:113-134 | The positions of the tables a pass writes are exactly the stretch of the sorted schedule the cursor moved over, in order |
| OriginalOrder.PassAdvances | src/display.rs:112-135 | Every pass that starts with a position left matches at least one, so the loop terminates |
| OriginalOrder.PassFollowsOwner | src/display.rs:126-132 | Within a pass, a table without a position is written exactly when the nearest positioned table before it was, or, with none before it, when the pass began with the flag up |
| OriginalOrder.RunPass | src/display.rs:113-134 | One walk with the callback's state updates ends in the modelled state and writes the modelled indices, which match the schedule stretch consumed |
| OriginalOrder.ReconstructInPositionOrder | src/display.rs:90-136 | Positioned tables reach the callback in ascending position order, each collected position as often as collected; there are at most as many passes as positions, and none exactly when no table has a position |
| OriginalOrder.ReconstructFollowsOwner | src/display.rs:100-135 | A table without a position is written in exactly the passes where the nearest positioned table before it is written; with none before it, in the first pass only |
| OriginalOrder.PassSuccessor | src/display.rs:126-132 | Within a pass, a table without a position that directly follows a written table in the walk is written immediately after it |
| OriginalOrder.ReconstructWritesBlock | src/display.rs:100-135 | In every pass that writes a table's owner, the owner and the unpositioned tables after it up to that table are written as one contiguous run |
| OriginalOrder.ReconstructOrderHasBlock | src/display.rs:100-135 | In the order the callback receives tables across all passes, wherever the owner appears, the unpositioned tables after it up to the given one follow it at once, in walk order |
| OriginalOrder.ReconstructEmitsEachOnce | src/display.rs:100-136 | With distinct positions and at least one of them, every visited table reaches the callback exactly once |
| OriginalOrder.ReconstructUnmutated | src/display.rs:109-135 | With at least one position, and the walk meeting the positions already in ascending order, one pass writes every table in walk order |
| OriginalOrder.ReorderedScenario | src/display.rs:109-135 | For a table moved ahead of an earlier sibling, two passes restore source order: the root, `b`, `b.c`, then the moved table |
| OriginalOrder.VisitInOriginalOrder | src/display.rs:89-137 | The library's loops hand the callback the tables in the modelled order; their positions come sorted; with no positions the callback never runs |
| DocumentDisplay.ToStringInOriginalOrder | src/display.rs:212-226 | The rendered string is each received table's text in original order, followed by the trailing text; with no positions it is the trailing text alone |
| DocumentDisplay.NoPositionsWritesOnlyTrailing | src/display.rs:111-112 | With no positioned table the loop never runs, so the original-order text is exactly the trailing text |
| DocumentDisplay.BothEndWithTrailing | src/display.rs:224-232 | Both the plain and the original-order rendering end with the document's trailing text |
| DocumentDisplay.UnmutatedRendersAlike | src/display.rs:212-226 | A document with at least one position, whose positions are met in ascending walk order, renders the same in original order and in plain order |
| DocumentDisplay.OriginalOrderIsPermutation | src/display.rs:212-226 | With distinct positions and at least one, the original-order rendering writes a permutation of the walk's tables, positioned ones in ascending position order |

## Left out

- `fmt::Result` error propagation is not modelled: the `?` plumbing and the `unwrap` at src/display.rs:222. Writing to a string is treated as infallible concatenation.
- The display of the inner date/time types (src/display.rs:26-29) belongs to an external library. Each variant carries its text opaquely (`DateTimeText`).
- Key quoting (`Display for Key`, used at src/display.rs:74 and 187) is not modelled. A key carries its raw text, which is pushed on the path, and its written text as opaque strings.
- `is_value`, `as_value` and `values_len`, and the ordered map behind `items`, live outside this file. Entries are a sequence in map order, and `values_len` counts plain-value entries. The `as_value().unwrap()` at src/display.rs:68 cannot fail in the model, because the match selects plain values only.
- Numbers, booleans and strings carry their parsed values, but the renderer only copies raw text. No numeric or floating-point reasoning is modelled; a float's parsed value is a `real` the renderer never reads.
- Parsing, the mutation API, and how `position` and `implicit` are assigned are external inputs to the renderer.
- The path stack's push and pop (src/display.rs:154-162) are not modelled. The path is passed by value, so the property that "the path is restored on return" is structural rather than proved.
- Implicit suppression applies only to plain tables (src/display.rs:179). An implicit array member still gets its `[[...]]` header.
- The loop makes at most as many passes as there are collected positions (`OriginalOrder.ReconstructInPositionOrder`).
- A table without a position follows the nearest positioned table before it in walk order, whether or not that table is a sibling.
- Duplicate positions are handled as the code handles them. The write-once property is stated only for distinct positions.
