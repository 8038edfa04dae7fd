/** A worked example: a small sheet with one type, one node and one link. */
module Scenario {
  import opened Outcomes
  import opened Text
  import opened OrderedDict
  import opened Cells
  import opened Sections
  import opened Rows
  import opened TypeTable
  import opened NodeTable
  import opened Links
  import opened Extract

  function ExampleGrid(): Grid
  {
    [ [Str("node_types")],
      [Str("type"), Str("color")],
      [Str("server"), Str("blue")],
      [Str("nodes"), Str("type")],
      [Str("n1"), Str("server")],
      [Str("links")],
      [Str("connection")],
      [Str("n1"), Str("eth0"), Str("n2"), Str("eth1")] ]
  }

  /** Lower-case letters, digits and `_`. */
  predicate Plain(s: string)
  {
    forall i :: 0 <= i < |s| ==> ('a' <= s[i] <= 'z') || ('0' <= s[i] <= '9') || s[i] == '_'
  }

  /** A plain cell marks a section exactly when it is a label. */
  lemma PlainMarker(s: string)
    requires Plain(s) && |s| > 0
    ensures Marker(Str(s)) == if IsLabel(s) then Some(s) else None
  {
    assert !IsSpace(s[0]) && !IsSpace(s[|s| - 1]);
    assert LStrip(s) == s;
    assert Strip(s) == s;
    LowerOfLowerCase(s);
  }

  /** Which rows of the example mark which label: rows 0, 3 and 5. */
  lemma ExampleMarkers(g: Grid, r: int, k: string)
    requires g == ExampleGrid() && 0 <= r < |g|
    ensures MarksAt(g, r, k) <==>
      (r == 0 && k == NodeTypesLabel) || (r == 3 && k == NodesLabel) || (r == 5 && k == LinksLabel)
  {
    var text := ["node_types", "type", "server", "nodes", "n1", "links", "connection", "n1"];
    assert At(g, r, 0) == Str(text[r]);
    PlainMarker(text[r]);
  }

  lemma ExampleLabelFound(g: Grid, k: string, r: nat)
    requires g == ExampleGrid()
    requires (r == 0 && k == NodeTypesLabel) || (r == 3 && k == NodesLabel) || (r == 5 && k == LinksLabel)
    ensures k in Locate(g) && Locate(g)[k] == r
  {
    ExampleMarkers(g, r, k);
    LocateSpec(g, k);
    var at := Locate(g)[k];
    ExampleMarkers(g, at, k);
    if at < r {
      ExampleMarkers(g, r, k);
    }
  }

  lemma ExampleOnlyLabels(g: Grid, k: string)
    requires g == ExampleGrid()
    requires k !in {NodeTypesLabel, NodesLabel, LinksLabel}
    ensures k !in Locate(g)
  {
    LocateSpec(g, k);
  }

  lemma ExampleSections(g: Grid)
    requires g == ExampleGrid()
    ensures Locate(g) == map[NodeTypesLabel := 0, NodesLabel := 3, LinksLabel := 5]
  {
    ExampleLabelFound(g, NodeTypesLabel, 0);
    ExampleLabelFound(g, NodesLabel, 3);
    ExampleLabelFound(g, LinksLabel, 5);
    forall k | k !in {NodeTypesLabel, NodesLabel, LinksLabel} ensures k !in Locate(g) {
      ExampleOnlyLabels(g, k);
    }
  }

  lemma ExampleWidth(g: Grid)
    requires g == ExampleGrid()
    ensures |g| == 8 && Width(g) == 4
  {
    assert |g| == 8;
    assert |g[0]| == 1 && |g[1]| == 2 && |g[2]| == 2 && |g[3]| == 2;
    assert |g[4]| == 2 && |g[5]| == 1 && |g[6]| == 1 && |g[7]| == 4;
    WidthOfShape(g, 7);
  }

  /** A frame whose row `r` is the longest has the width of that row. */
  lemma WidthOfShape(g: Grid, r: int)
    requires 0 <= r < |g|
    requires forall r' :: 0 <= r' < |g| ==> |g[r']| <= |g[r]|
    ensures Width(g) == |g[r]|
  {
    WidthSpec(g);
  }

  /** Headers of a row with no absent cell are the row itself. */
  lemma HeadersOfFullRow(row: Row)
    requires forall i :: 0 <= i < |row| ==> Present(row[i])
    ensures Headers(row) == row
  {
    if row != [] {
      HeadersOfFullRow(row[1..]);
    }
  }

  lemma ExampleHeaders(g: Grid)
    requires g == ExampleGrid()
    ensures Headers(RowAt(g, 1)) == [Str("type"), Str("color")]
    ensures Headers(RowAt(g, 3)) == [Str("nodes"), Str("type")]
  {
    assert RowAt(g, 1) == [Str("type"), Str("color")];
    assert RowAt(g, 3) == [Str("nodes"), Str("type")];
    HeadersOfFullRow([Str("type"), Str("color")]);
    HeadersOfFullRow([Str("nodes"), Str("type")]);
  }

  /** The layout of any frame whose sections and header rows are those of the example. */
  lemma PlanOfExampleShape(g: Grid)
    requires |g| == 8 && Width(g) == 4
    requires NodeTypesLabel in Locate(g) && Locate(g)[NodeTypesLabel] == 0
    requires NodesLabel in Locate(g) && Locate(g)[NodesLabel] == 3
    requires LinksLabel in Locate(g) && Locate(g)[LinksLabel] == 5
    requires Headers(RowAt(g, 1)) == [Str("type"), Str("color")]
    requires Headers(RowAt(g, 3)) == [Str("nodes"), Str("type")]
    ensures Plan(g) == Ok(Layout([Str("type"), Str("color")], 2, 3, [Str("nodes"), Str("type")], 4, 5, 7))
  {
    var s := Locate(g);
    assert s[NodeTypesLabel] + 1 == 1 && s[NodesLabel] == 3 && s[LinksLabel] + 2 == 7;
  }

  lemma ExamplePlan(g: Grid)
    requires g == ExampleGrid()
    ensures Plan(g) == Ok(Layout([Str("type"), Str("color")], 2, 3, [Str("nodes"), Str("type")], 4, 5, 7))
  {
    ExampleSections(g);
    ExampleWidth(g);
    ExampleHeaders(g);
    PlanOfExampleShape(g);
  }

  /** The links block of a frame whose last row, row 7, is the example's link row. */
  lemma LinksOfExampleShape(g: Grid, numText: int -> string)
    requires |g| == 8 && Width(g) == 4
    requires At(g, 7, 0) == Str("n1") && At(g, 7, 1) == Str("eth0")
    requires At(g, 7, 2) == Str("n2") && At(g, 7, 3) == Str("eth1")
    ensures LinksOutcome(g, 7, numText) ==
      Ok(["links:", "    - connection:", "        - n1:eth0", "        - n2:eth1"])
  {
    WideFrameNeverFails(g, 7, 4);
    assert Complete(g, 7);
    assert Endpoint(At(g, 7, 0), At(g, 7, 1), numText) == "        - n1:eth0";
    assert Endpoint(At(g, 7, 2), At(g, 7, 3), numText) == "        - n2:eth1";
    assert LinkBlocks(g, 7, 8, numText) == Block(g, 7, numText);
    assert Block(g, 7, numText) == ["    - connection:", "        - n1:eth0", "        - n2:eth1"];
    assert LinkLines(g, 7, numText) == ["links:"] + Block(g, 7, numText);
    assert LinkLines(g, 7, numText) == ["links:", "    - connection:", "        - n1:eth0", "        - n2:eth1"];
    assert LinksOutcome(g, 7, numText) == Ok(LinkLines(g, 7, numText));
  }

  lemma ExampleLinks(g: Grid, numText: int -> string)
    requires g == ExampleGrid()
    ensures LinksOutcome(g, 7, numText) ==
      Ok(["links:", "    - connection:", "        - n1:eth0", "        - n2:eth1"])
  {
    ExampleWidth(g);
    assert g[7] == [Str("n1"), Str("eth0"), Str("n2"), Str("eth1")];
    LinksOfExampleShape(g, numText);
  }

  /** A two-column row whose second cell holds a plain word contributes that
      cell under the second header only. */
  lemma EntriesOfTwoColumns(g: Grid, a: string, b: string, r: int, v: string, numText: int -> string)
    requires a != b && Plain(v) && |v| > 0 && At(g, r, 1) == Str(v)
    ensures Entries(g, [Str(a), Str(b)], r, numText) == [(b, Str(v))]
  {
    var hdrs := [Str(a), Str(b)];
    assert !IsSpace(v[0]);
    assert !Contributes(g, hdrs, r, 0, numText);
    assert Contributes(g, hdrs, r, 1, numText);
    assert EntriesUpTo(g, hdrs, r, 1, numText) == [];
  }

  /** The type table of a frame whose row 2 is the example's type row. */
  lemma TypesOfExampleShape(g: Grid, numText: int -> string)
    requires At(g, 2, 0) == Str("server") && At(g, 2, 1) == Str("blue")
    ensures TypeTableUpTo(g, [Str("type"), Str("color")], 2, 3, numText) == [("server", [("color", "blue")])]
  {
    var hdrs := [Str("type"), Str("color")];
    EntriesOfTwoColumns(g, "type", "color", 2, "blue", numText);
    var entries: Dict<Cell> := [("color", Str("blue"))];
    assert MapValues(entries, (v: Cell) => Render(v, numText)) == [("color", "blue")] by {
      assert entries[1..] == [];
    }
    assert TypeDetails(g, hdrs, 2, numText) == [("color", "blue")];
  }

  /** The node list of a frame whose row 4 is the example's node row. */
  lemma NodesOfExampleShape(g: Grid, numText: int -> string)
    requires At(g, 4, 0) == Str("n1") && At(g, 4, 1) == Str("server")
    ensures NodeListUpTo(g, [Str("nodes"), Str("type")], 4, 5, numText) == [NodeEntry("n1", [("type", Str("server"))])]
  {
    EntriesOfTwoColumns(g, "nodes", "type", 4, "server", numText);
  }

  lemma ExampleTypes(g: Grid, numText: int -> string)
    requires g == ExampleGrid()
    ensures TypeTableUpTo(g, [Str("type"), Str("color")], 2, 3, numText) == [("server", [("color", "blue")])]
  {
    assert g[2] == [Str("server"), Str("blue")];
    TypesOfExampleShape(g, numText);
  }

  lemma ExampleNodes(g: Grid, numText: int -> string)
    requires g == ExampleGrid()
    ensures NodeListUpTo(g, [Str("nodes"), Str("type")], 4, 5, numText) == [NodeEntry("n1", [("type", Str("server"))])]
  {
    assert g[4] == [Str("n1"), Str("server")];
    NodesOfExampleShape(g, numText);
  }

  /** Parse assembles the plan, the two tables and the links block. */
  lemma ParseOfExampleShape(g: Grid, numText: int -> string)
    requires Plan(g) == Ok(Layout([Str("type"), Str("color")], 2, 3, [Str("nodes"), Str("type")], 4, 5, 7))
    requires LinksOutcome(g, 7, numText) ==
      Ok(["links:", "    - connection:", "        - n1:eth0", "        - n2:eth1"])
    requires TypeTableUpTo(g, [Str("type"), Str("color")], 2, 3, numText) == [("server", [("color", "blue")])]
    requires NodeListUpTo(g, [Str("nodes"), Str("type")], 4, 5, numText) == [NodeEntry("n1", [("type", Str("server"))])]
    ensures Parse(g, numText) == Ok(Tables(
      [("server", [("color", "blue")])],
      [NodeEntry("n1", [("type", Str("server"))])],
      ["links:", "    - connection:", "        - n1:eth0", "        - n2:eth1"]))
  {
  }

  /** The example sheet parses to the type `server` with `color: blue`, the
      node `n1` with `type: server`, and one link `n1:eth0` to `n2:eth1`. */
  lemma ExampleParse(g: Grid, numText: int -> string)
    requires g == ExampleGrid()
    ensures Parse(g, numText) == Ok(Tables(
      [("server", [("color", "blue")])],
      [NodeEntry("n1", [("type", Str("server"))])],
      ["links:", "    - connection:", "        - n1:eth0", "        - n2:eth1"]))
  {
    ExamplePlan(g);
    ExampleLinks(g, numText);
    ExampleTypes(g, numText);
    ExampleNodes(g, numText);
    ParseOfExampleShape(g, numText);
  }

  /** The serialized mapping of the example: the type `server`, then `nodes`. */
  lemma ExampleDocument()
    ensures Document([("server", [("color", "blue")])], [NodeEntry("n1", [("type", Str("server"))])]) ==
      [("server", TypeEntry([("color", "blue")])), ("nodes", NodeList([NodeEntry("n1", [("type", Str("server"))])]))]
  {
    var types: Dict<Dict<string>> := [("server", [("color", "blue")])];
    assert MapValues(types, (d: Dict<string>) => TypeEntry(d)) == [("server", TypeEntry([("color", "blue")]))];
  }

  /** The output of any frame that parses to the example's tables. */
  lemma ExtractOfExampleTables(g: Grid, numText: int -> string, dump: Doc -> string)
    requires Parse(g, numText) == Ok(Tables(
      [("server", [("color", "blue")])],
      [NodeEntry("n1", [("type", Str("server"))])],
      ["links:", "    - connection:", "        - n1:eth0", "        - n2:eth1"]))
    ensures Extract.Extract(g, numText, dump) == Ok(
      Output([("server", TypeEntry([("color", "blue")])), ("nodes", NodeList([NodeEntry("n1", [("type", Str("server"))])]))],
             ["links:", "    - connection:", "        - n1:eth0", "        - n2:eth1"], dump))
  {
    ExampleDocument();
  }

  /** The example's output: the mapping with `server` first and `nodes`
      second, followed by the four lines of the links block. */
  lemma ExampleExtract(g: Grid, numText: int -> string, dump: Doc -> string)
    requires g == ExampleGrid()
    ensures Extract.Extract(g, numText, dump) == Ok(
      Output([("server", TypeEntry([("color", "blue")])), ("nodes", NodeList([NodeEntry("n1", [("type", Str("server"))])]))],
             ["links:", "    - connection:", "        - n1:eth0", "        - n2:eth1"], dump))
  {
    ExampleParse(g, numText);
    ExtractOfExampleTables(g, numText, dump);
  }

  /** An empty header cell is dropped, not skipped over. */
  lemma HeaderGapDropped()
    ensures Headers([Str("name"), Absent, Str("colour")]) == [Str("name"), Str("colour")]
  {
    assert [Str("name"), Absent, Str("colour")][1..] == [Absent, Str("colour")];
    assert [Absent, Str("colour")][1..] == [Str("colour")];
  }

  /** The positional shift: with header row `name, <empty>, colour`, the name
      `colour` lands on column 1, so row `x, red, big` yields `colour: red`
      and `big` in column 2 is never read. */
  lemma HeaderGapShiftsNames(numText: int -> string)
    ensures
      var hdrs := Headers([Str("name"), Absent, Str("colour")]);
      && hdrs == [Str("name"), Str("colour")]
      && Entries([[Str("x"), Str("red"), Str("big")]], hdrs, 0, numText) == [("colour", Str("red"))]
  {
    HeaderGapDropped();
    var g := [[Str("x"), Str("red"), Str("big")]];
    assert At(g, 0, 1) == Str("red");
    EntriesOfTwoColumns(g, "name", "colour", 0, "red", numText);
  }

  /** The example with the number 2 as the second type header: `row[0]` on the
      type row then looks for the column label 0, which no column has. */
  function NumericHeaderGrid(): Grid
  {
    ExampleGrid()[1 := [Str("type"), Num(2)]]
  }

  /** The layout check of a frame whose sections are the example's and whose
      type header row holds a number other than 0. */
  lemma PlanOfNumericHeaderShape(g: Grid)
    requires Width(g) > 0 && |g| == 8
    requires NodeTypesLabel in Locate(g) && Locate(g)[NodeTypesLabel] == 0
    requires NodesLabel in Locate(g) && Locate(g)[NodesLabel] == 3
    requires Headers(RowAt(g, 1)) == [Str("type"), Num(2)]
    ensures Plan(g) == Err(NoLabelZero(NodeTypesLabel))
  {
    var hdrs := Headers(RowAt(g, 1));
    assert hdrs[1] in hdrs && hdrs[1].Num?;
    assert ZeroLabelMissing(hdrs);
  }

  /** A frame with a non-empty row has a column. */
  lemma WidthOfNonEmptyRow(g: Grid, r: int)
    requires 0 <= r < |g| && |g[r]| > 0
    ensures Width(g) > 0
  {
    WidthSpec(g);
  }

  /** Replacing a row by one with the same first cell keeps the sections. */
  lemma LocateAfterRowUpdate(g: Grid, r: nat, row: Row)
    requires r < |g| && |row| > 0 && At(g, r, 0) == row[0]
    ensures Locate(g[r := row]) == Locate(g)
  {
    var g' := g[r := row];
    assert forall r' :: 0 <= r' < |g| ==> At(g', r', 0) == At(g, r', 0);
    LocateReadsColumnZero(g', g);
  }

  /** That frame stops at its first type row instead of producing text. */
  lemma NumericHeaderFails(g: Grid, numText: int -> string, dump: Doc -> string)
    requires g == NumericHeaderGrid()
    ensures Extract.Extract(g, numText, dump) == Err(NoLabelZero(NodeTypesLabel))
  {
    var e := ExampleGrid();
    assert |e| == 8 && At(e, 1, 0) == Str("type");
    LocateAfterRowUpdate(e, 1, [Str("type"), Num(2)]);
    ExampleSections(e);
    assert RowAt(g, 1) == [Str("type"), Num(2)];
    HeadersOfFullRow([Str("type"), Num(2)]);
    assert |g[0]| == 1;
    WidthOfNonEmptyRow(g, 0);
    PlanOfNumericHeaderShape(g);
    PlanFails(g, numText, dump);
  }
}
