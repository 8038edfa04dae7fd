# Spreadsheet-to-topology extraction, modelled in Dafny

`excel-act.py` reads the first sheet of a workbook with no header row and
turns it into a YAML topology description. This project models the part of
that script that runs between loading the sheet and writing the file (lines
31-92). That part works on the in-memory frame:

1. It scans column 0 for the section labels `node_types`, `nodes` and `links`.
2. It parses the node-type table into `name -> {header: str(value)}`.
3. It parses the node table into an ordered list of `{name: {header: value}}`.
4. It builds the `links:` block of three lines per complete link row.
5. It assembles the output text: the serialized mapping, right-stripped, then a
   blank line, the links block and a final line break.

The frame is a `Grid`, a sequence of rows of cells. A `Cell` is `Absent`
(NaN), `Str(s)` or `Num(n)`. Rows may be ragged, and a cell past a row's end
reads as absent, as it does in the padded frame. Python dictionaries are
ordered association lists (`OrderedDict`). Assigning to an existing key
replaces its value in place, and assigning to a new key appends it. Two
things the script calls cannot be seen from the model, so they become
parameters of every operation:

- `numText: int -> string` is how a number cell prints.
- `dump: Doc -> string` is the serializer.

A run either produces the text or fails with a `Failure`. These failures
correspond to the exceptions the script raises before it writes anything:

- `NoColumns`: the frame has no column 0.
- `MissingSection(label)`: a label was never found. This is the `KeyError` of
  lines 40, 42 and 60. (Line 58 reads `sections["nodes"]` again after line 42
  has read it, so it cannot fail.)
- `HeaderRowMissing`: `node_types` is on the last row, so line 41 reads past
  the frame.
- `EmptyHeader(section)`: the `node_types` header row has no present cell, but
  the section has a data row on which line 47 reads `row[0]`. The `nodes`
  header row is the labelled row itself, so it always holds at least the label
  cell (`Extract.NodesHeaderPresent`).
- `NoLabelZero(section)`: a header row holds a number, and none of its cells is
  the number 0, while the section has a data row. The columns then carry a
  numeric label, so `row[0]` at line 47 or line 66 looks up the column label 0,
  which does not exist, and raises `KeyError`. With only text headers, pandas
  before 3.0 falls back to reading `row[0]` by position, and the model follows
  that behaviour (see "## Left out").
- `NarrowLinks(row)`: the frame has fewer than four columns, and the existing
  columns of a link row are all present. Line 82 then reads a column that does
  not exist.

The imperative parts of the script are methods with loops:

- `Sections.FindSections` is the scan.
- `TypeTable.ParseNodeTypes` and `NodeTable.ParseNodes` are the table loops.
- `Links.AnyAbsent`, `Links.RowLines` and `Links.BuildLinkLines` are the links
  loop.
- `Extract.LocateTables` and `Extract.Run` are the script itself.

Each method is proved equal to a function: `Locate`, `TypeTableUpTo`,
`NodeListUpTo`, `LinksOutcome`, `Plan` and `Extract`. The lemmas state what
those functions mean. The comprehensions, the header extraction and the
assembly are functions.

Two behaviours of the code are easy to miss:

- A repeated section label is recorded at its **last** row, because line 37
  overwrites the entry on every match (`Sections.LocateSpec`).
- If a type is named `nodes`, line 91 replaces that entry's value in place with
  the node list, so `nodes` is then not the last key (`Extract.DocumentSpec`).
  Otherwise `nodes` is appended last.

## Model

| member | source | states |
|---|---|---|
| Sections.FindSections | excel-act.py:32-37 | The scan loop yields exactly `Locate(g)`, the dictionary of the whole scan. |
| Sections.SectionsUpToKeys | excel-act.py:33-37 | After scanning rows `0..n-1`, a label is recorded if and only if one of those rows marks it. |
| Sections.SectionsUpToLast | excel-act.py:33-37 | A recorded label sits at a scanned row that marks it, and no later scanned row marks it (the last occurrence wins). |
| Sections.SectionsUpToReadsColumnZero | excel-act.py:33-37 | Only column 0 is scanned: frames that agree on column 0 of the scanned rows record the same sections. |
| Sections.LocateReadsColumnZero | excel-act.py:32-37 | Frames of the same height that agree on column 0 have the same sections. |
| Sections.LocateSpec | excel-act.py:32-37 | The keys of `sections` are only the three labels. A label is present if and only if some row's column-0 string, stripped and lower-cased, equals it. Its row is the last such row. |
| Text.RStripSpec | excel-act.py:92 | `rstrip` returns a prefix, removes only whitespace, and leaves text that does not end in whitespace. |
| Text.LStripSpec | excel-act.py:35 | `lstrip` returns a suffix, removes only whitespace, and leaves text that does not start with whitespace. |
| Text.StripEmptyIff | excel-act.py:53 | `strip()` gives the empty string exactly when every character is whitespace. |
| Text.LowerOfLowerCase | excel-act.py:35 | `lower()` leaves text without upper-case letters unchanged. |
| Text.LowerEqualsIff | excel-act.py:35-36 | A string lowers to a label exactly when it has the label's length and each character is the label's character or its upper-case form (K also matches KELVIN SIGN). |
| Text.JoinStartsWithFirst | excel-act.py:88 | A joined text begins with its first line. |
| Text.SplitNoSeparator | excel-act.py:88 | Splitting a separator-free piece followed by the separator gives back the piece, then the split of the rest. |
| Text.SplitJoin | excel-act.py:88 | Splitting the `"\n".join` of lines that contain no line break gives the lines back. |
| OrderedDict.LookupSomeIff | excel-act.py:55 | A key has a value exactly when it is among the keys. |
| OrderedDict.PutKeys | excel-act.py:55 | After `d[k] = v`, the key order is unchanged if `k` was a key; otherwise `k` is appended last. |
| OrderedDict.PutLookup | excel-act.py:55 | After `d[k] = v`, `k` maps to `v`, and every other key keeps its value. |
| OrderedDict.PutKeepsKeysUnique | excel-act.py:55 | Assignment never creates a second entry for a key. |
| OrderedDict.MapValuesKeys | excel-act.py:91 | Mapping the values keeps the keys in order, and keeps them unique. |
| OrderedDict.MapValuesLookup | excel-act.py:91 | Each key of the mapped dictionary holds the image of its old value. |
| Cells.WidthSpec | excel-act.py:29-33 | The frame's width is the length of its longest row. |
| Cells.AbsentBeyondWidth | excel-act.py:78 | No cell at or beyond the width is present. |
| Cells.KeptIff | excel-act.py:53 | The comprehension filter holds exactly for a present cell whose text does not strip to empty. |
| Cells.HeadersSpec | excel-act.py:41 | `dropna().tolist()` keeps exactly the present cells, each as often as it occurs, so there are as many header names as present cells. |
| Cells.HeadersAppend | excel-act.py:41 | The header names keep column order: the headers of two adjoining stretches are the first stretch's, then the second's. |
| Rows.EntriesUpToHas | excel-act.py:50-54 | After columns `0..j-1`, a detail key is present exactly when one of those columns contributes under that header name. |
| Rows.LastColumnSpec | excel-act.py:50-54 | The column `LastColumn` picks is the last one among the first `j` to contribute under the key. |
| Rows.EntriesUpToLookup | excel-act.py:50-54 | The value under a key is the cell of the last column contributing under it, or nothing. |
| Rows.EntriesUpToValue | excel-act.py:50-54 | A present key's value is the cell of the last contributing column, and that column is returned. |
| Rows.EntriesUpToOrder | excel-act.py:50-54 | Detail keys are in the order of their first contributing columns: whenever key `p` precedes key `q`, every column contributing under `q` has an earlier column contributing under `p`. |
| Rows.EntriesUpToUnique | excel-act.py:50-54 | Detail keys appear once. |
| Rows.EntriesSpec | excel-act.py:50-54 | Over all header columns: keys are unique; a key is present exactly when a column other than the key column, with a present non-blank value, carries that header name; the value is such a column's cell. |
| Rows.EntriesReadsPrefix | excel-act.py:42 | Only the first `len(headers)` columns are read: rows that agree there give the same details. |
| TypeTable.ParseNodeTypes | excel-act.py:45-55 | The loop over data rows `lo..hi-1` yields `TypeTableUpTo` over those rows. In a run these are the rows from `node_types + 2` up to the `nodes` row (`Extract.ParseOkSpec`). |
| TypeTable.TypeTableStep | excel-act.py:46-55 | One more row: a row named `name` sets that name's details, and any other row leaves them unchanged. |
| TypeTable.TypeTableKeys | excel-act.py:42-55 | A type name is in the table exactly when some data row in range has a present first cell that prints as that name. |
| TypeTable.TypeTableValue | excel-act.py:45-55 | A name's details come from the last data row with that name. |
| TypeTable.TypeTableOrder | excel-act.py:45-55 | The type names are in the order of their first rows: whenever name `i` precedes name `j`, every row named as `j` has an earlier row named as `i`. A name repeated by a later row keeps its place, because line 55 assigns to an existing key in place. |
| TypeTable.TypeTableUnique | excel-act.py:55 | Each type name appears once. |
| TypeTable.TypeDetailsSpec | excel-act.py:50-54 | Type details have the row's entry keys in the same order (so `Rows.EntriesUpToOrder` gives their order), and those keys are unique. Each value is the text of a present, non-blank cell from a non-key column, stored under that column's header. |
| NodeTable.ParseNodes | excel-act.py:64-74 | The loop over data rows `lo..hi-1` yields `NodeListUpTo` over those rows. In a run these are the rows from `nodes + 1` up to the `links` row (`Extract.ParseOkSpec`). |
| NodeTable.RowsWithNameSpec | excel-act.py:65-67 | The rows with a present first cell form a strictly increasing sequence holding exactly those rows. |
| NodeTable.RowsWithNameSnoc | excel-act.py:65-67 | Extending the range by one row appends that row when its first cell is present. |
| NodeTable.NodeListRows | excel-act.py:64-74 | The list has one entry per row with a present first cell, in row order, duplicates kept; entry `i` is the `i`-th such row's node. |
| NodeTable.NodeInfoSpec | excel-act.py:69-73 | Node info has unique keys, in the order `Rows.EntriesUpToOrder` gives. Each value is the cell itself (its type kept), a present, non-blank cell from a non-key column, stored under that column's header. |
| Links.AnyAbsent | excel-act.py:82 | The `any(...)` test either fails on a missing column or reports exactly whether one of columns 0-3 is absent. |
| Links.RowLines | excel-act.py:82-86 | One row: either the read fails, or the row gives its three lines if complete and nothing otherwise. |
| Links.BuildLinkLines | excel-act.py:77-88 | The loop yields `LinksOutcome`: the failure at the first failing row, or `links:` followed by each complete row's block. |
| Links.LinkBlocksCount | excel-act.py:80-86 | The blocks hold three lines per complete row. |
| Links.LinkLinesShape | excel-act.py:80-86 | The links lines start with `links:` and number `1 + 3k`, where `k` is the number of complete rows. |
| Links.LinkBlocksReadOnlyFourColumns | excel-act.py:78-86 | Only columns 0-3 matter, and incomplete rows contribute nothing: frames that agree on which rows are complete, and on columns 0-3 of those rows, give the same lines. |
| Links.NarrowFrameHasNoLinks | excel-act.py:78-82 | A frame narrower than four columns has no complete row, so no block. |
| Links.WideFrameNeverFails | excel-act.py:82 | A frame at least four columns wide never fails the read. |
| Links.LinksTextLines | excel-act.py:88 | If no endpoint text contains a line break, the joined links text has exactly `1 + 3k` lines, and they are the link lines. |
| Extract.LocateTables | excel-act.py:31-62 | The checks before the loops yield `Plan`. That is the layout of the three sections, or the first failure in source order. The failures include a header row whose numeric labels make `row[0]` fail. |
| Extract.NodesHeaderPresent | excel-act.py:58-59 | The `nodes` header row always has a header, and its first header is the label cell itself. |
| Extract.PlanOkIff | excel-act.py:31-66 | The checks pass exactly when all three labels are found, `node_types` is not on the last row, and each table with a data row has a header row on which `row[0]` can read. |
| Extract.Run | excel-act.py:31-92 | The script's result equals `Extract`: the assembled text, or the failure that stops it. |
| Extract.PlanFails | excel-act.py:40-66 | A failed layout is the run's failure. |
| Extract.LinksFail | excel-act.py:82 | A failed link read is the run's failure. |
| Extract.ExtractOfPlan | excel-act.py:45-92 | Given the layout and the link lines, the text is the assembly of the two tables and the lines. |
| Extract.MissingSectionFails | excel-act.py:40-60 | A label that no row marks makes the run fail, and a failed run has no text. |
| Extract.PlanOkSpec | excel-act.py:40-61 | A layout exists only if all three labels were found. The type headers are the row below `node_types`, and its data rows run from `node_types + 2` up to `nodes`. The node headers are the `nodes` row, and its data rows run up to `links`. The links block starts at `links + 2`. |
| Extract.ParseOkLinks | excel-act.py:77-88 | The links of a successful parse are the lines of the links stage. |
| Extract.ParseOkSpec | excel-act.py:40-88 | A successful parse found all three labels. The type table is `TypeTableUpTo` over the rows `[node_types+2, nodes)` with the headers of row `node_types + 1`. The node list is `NodeListUpTo` over `(nodes, links)` with the headers of the `nodes` row. The links are read from `links + 2` on, start with `links:` and number `1 + 3k`. |
| Extract.ExtractOkParse | excel-act.py:91-92 | A successful run's text is the line-92 assembly of the parsed tables. |
| Extract.ExtractOkSpec | excel-act.py:31-92 | A successful run found all three labels. Its tables come from the rows and header rows above, and its links block has the shape above. Its text is `rstrip(dump(mapping)) + "\n\n" + links + "\n"`. |
| Extract.OutputSpec | excel-act.py:92 | The output is the serializer's text with only its trailing whitespace removed, then `"\n\n"`, then text beginning with the first links line, and it ends in one `"\n"`. |
| Extract.DocumentSpec | excel-act.py:91 | The mapping has unique keys, the type names in table order, and `nodes` appended unless already a key. `nodes` holds the node list, and every other key holds its type's details. |
| Scenario.PlainMarker | excel-act.py:34-36 | A plain lower-case cell marks a section exactly when it is a label. |
| Scenario.ExampleMarkers | excel-act.py:33-36 | In the example sheet, rows 0, 3 and 5 mark `node_types`, `nodes` and `links`, and no other row marks anything. |
| Scenario.ExampleLabelFound | excel-act.py:32-37 | Each label of the example is found at its row. |
| Scenario.ExampleOnlyLabels | excel-act.py:36 | No other key is recorded. |
| Scenario.ExampleSections | excel-act.py:32-37 | The example's section dictionary is `{node_types: 0, nodes: 3, links: 5}`. |
| Scenario.ExampleWidth | excel-act.py:29 | The example frame has 8 rows and 4 columns. |
| Scenario.WidthOfShape | excel-act.py:29 | A frame whose longest row is row `r` has the width of row `r`. |
| Scenario.HeadersOfFullRow | excel-act.py:41 | A row without absent cells is its own header list. |
| Scenario.ExampleHeaders | excel-act.py:41-59 | The example's header rows give `[type, color]` and `[nodes, type]`. |
| Scenario.PlanOfExampleShape | excel-act.py:40-62 | A frame with the example's labels and headers has the example's layout. |
| Scenario.ExamplePlan | excel-act.py:40-62 | The example's layout: types from row 2 to row 3, nodes from row 4 to row 5, links from row 7. |
| Scenario.LinksOfExampleShape | excel-act.py:77-88 | A 4-wide, 8-row frame with the example's link row gives the example's four lines. |
| Scenario.ExampleLinks | excel-act.py:77-88 | The example's links lines are `links:`, `    - connection:`, `        - n1:eth0` and `        - n2:eth1`. |
| Scenario.EntriesOfTwoColumns | excel-act.py:50-54 | With two distinct headers and a plain non-empty value in column 1, the details are that single entry. |
| Scenario.TypesOfExampleShape | excel-act.py:45-55 | The example's type row gives `{server: {color: blue}}`. |
| Scenario.NodesOfExampleShape | excel-act.py:64-74 | The example's node row gives `[{n1: {type: server}}]`. |
| Scenario.ExampleTypes | excel-act.py:45-55 | The example's type table is `{server: {color: blue}}`. |
| Scenario.ExampleNodes | excel-act.py:64-74 | The example's node list is `[{n1: {type: server}}]`. |
| Scenario.ParseOfExampleShape | excel-act.py:40-88 | A frame with the example's layout, links and tables parses to the example's tables. |
| Scenario.ExampleParse | excel-act.py:40-88 | The example parses to its type table, node list and four links lines. |
| Scenario.ExampleDocument | excel-act.py:91 | The example's mapping is `{server: {color: blue}, nodes: [{n1: {type: server}}]}`. |
| Scenario.ExtractOfExampleTables | excel-act.py:91-92 | Those tables give the example's output. |
| Scenario.ExampleExtract | excel-act.py:31-92 | The example sheet's output is the right-stripped dump of that mapping, then a blank line, the four links lines and a final line break. |
| Scenario.HeaderGapDropped | excel-act.py:41 | An empty header cell is dropped, not kept as a placeholder. |
| Scenario.WidthOfNonEmptyRow | excel-act.py:33 | A frame with a non-empty row has a column 0. |
| Scenario.LocateAfterRowUpdate | excel-act.py:32-37 | Replacing a row by one with the same first cell keeps the sections. |
| Scenario.PlanOfNumericHeaderShape | excel-act.py:40-47 | A frame with the example's labels, whose type header row is `type, 2`, fails the checks with `NoLabelZero(node_types)`. |
| Scenario.NumericHeaderFails | excel-act.py:31-47 | The example with `2` as its second type header stops with `NoLabelZero(node_types)` instead of producing text. |
| Scenario.HeaderGapShiftsNames | excel-act.py:41-54 | With header row `name, <empty>, colour`, the name `colour` lands on column 1. So a row `x, red, big` gives `{colour: red}`, and column 2 is never read. |

## Left out

- Command-line arguments and the usage exit (lines 11-20): process plumbing.
- The progress prints (lines 22-23, 98), `os.makedirs` (line 26) and the file write (lines 95-96): I/O. A failing run stops before the write, which the model states as an `Err` with no text.
- `pd.read_excel` (line 29): the frame it returns is the `Grid` input.
- `yaml.dump` (line 91): its formatting rules are not modelled. It is the parameter `dump`, and only the text assembled around it is modelled.
- How numbers print (`str(1.0)` is `"1.0"`, integers read as floats, and so on): the parameter `numText`. Numbers are `Num(int)`. Float and NaN semantics beyond "absent" are not modelled.
- `str.lower`: only `A`-`Z` and KELVIN SIGN are lowered. KELVIN SIGN is the only non-ASCII character whose lower-case form is a single ASCII letter. Other characters whose lower-case form contains an ASCII letter lower to more than one character (U+0130 gives `i` plus a combining dot), so they cannot match a label either. This is enough to decide label matches.
- Extract.LocateTables: `row[0]` at lines 47 and 66 is a label lookup once a header is a number. The model fails with `NoLabelZero` when no header is the number 0. It does not model a header row that holds the number 0: the skip test then reads the column labelled 0, while the model still reads column 0.
- Extract.LocateTables: `Num(int)` cannot tell an integer from a float. Integer headers, alone or mixed with text, and float headers with no text among them all make `row[0]` a label lookup, and the model's `NoLabelZero` matches those. Float headers mixed with text keep the read by position, which the model does not capture: it treats every `Num` header as an integer. Other mixes, such as integers with floats, are not modelled either.
- Extract.LocateTables: the model follows pandas before 3.0, where `row[0]` on a Series whose labels are not numeric falls back to reading by position. pandas 2.1 deprecates that fallback, and pandas 3.0 removes it, so `row[0]` is always a label lookup. Under pandas 3.0, lines 47 and 66 raise `KeyError` for text headers too, unless a header is the number 0, and the script then fails on every non-empty table. That version is not modelled.
- Extract.Run: `row[node_headers[0]]` (lines 49 and 68) reads column 0 in the model. When the key header appears again in a later column, pandas returns a series there. That case is not modelled.
- A detail key equal to the key header is dropped by name, so a later column that repeats the key header is dropped too. This is modelled. A duplicate header name in other columns is modelled as the last column winning, as the comprehension does.
- Extract.Run: it performs every header and label check (lines 40-62) before the three loops. The script interleaves them with the type loop. Those loops cannot fail once the checks pass, so the outcome is the same, but the order of the work is not modelled.
- Determinism of the output: nothing in the model is stated as a separate property. `Extract.Run` is specified by the function `Extract`, so two runs on the same frame give the same text.
