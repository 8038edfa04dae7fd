/** The whole extraction (lines 31-92): locate the sections, parse the type
    table, the node table and the links block, and assemble the output text as
    the serialized mapping, right-stripped, a blank line, the links block and a
    final line break.  Every failure happens before any text exists. */
module Extract {
  import opened Outcomes
  import opened Text
  import opened OrderedDict
  import opened Cells
  import opened Sections
  import opened Rows
  import opened TypeTable
  import opened NodeTable
  import opened Links

  /** A top-level value of the serialized mapping. */
  datatype DocValue = TypeEntry(details: Dict<string>) | NodeList(nodes: seq<NodeEntry>)

  /** The mapping handed to the serializer, in insertion order. */
  type Doc = Dict<DocValue>

  /** The three parsed sections. */
  datatype Tables = Tables(types: Dict<Dict<string>>, nodes: seq<NodeEntry>, links: seq<string>)

  /** `{**node_types_dict, "nodes": nodes_yaml_list}`. */
  function Document(types: Dict<Dict<string>>, nodes: seq<NodeEntry>): Doc
  {
    Put(MapValues(types, (d: Dict<string>) => TypeEntry(d)), NodesLabel, NodeList(nodes))
  }

  /** Line 92, given the serializer `dump` (`yaml.dump(..., sort_keys=False)`). */
  function Output(doc: Doc, links: seq<string>, dump: Doc -> string): string
  {
    RStrip(dump(doc)) + "\n\n" + Join(links, "\n") + "\n"
  }

  /** Row `r` of the frame, or no cells outside it. */
  function RowAt(g: Grid, r: int): Row
  {
    if 0 <= r < |g| then g[r] else []
  }

  /** Where the sections lie: each table's header names and the rows its
      loop runs over, and the first row of the links block. */
  datatype Layout = Layout(
    typeHeaders: seq<Cell>, typeLo: int, typeHi: int,
    nodeHeaders: seq<Cell>, nodeLo: int, nodeHi: int,
    linksLo: nat)

  /** The `nodes` header row is the labelled row itself, so its first header
      is the label cell: the node table always has a key header. */
  lemma NodesHeaderPresent(g: Grid)
    requires NodesLabel in Locate(g)
    ensures 0 < |Headers(RowAt(g, Locate(g)[NodesLabel]))|
    ensures Headers(RowAt(g, Locate(g)[NodesLabel]))[0] == At(g, Locate(g)[NodesLabel], 0)
  {
    LocateSpec(g, NodesLabel);
    var r := Locate(g)[NodesLabel];
    assert At(g, r, 0).Str?;
    assert RowAt(g, r) == g[r];
  }

  /** Lines 31-62 and the first read of each table loop: the layout, or the
      first failure in source order.  The first read of a data row, `row[0]`,
      fails when the header row is empty or names a column by a number other
      than 0 (see `ZeroLabelMissing`); the `nodes` header row always holds
      its label cell, so only the second can stop the node table. */
  function Plan(g: Grid): (r: Result<Layout>)
    ensures r.Ok? ==> 0 < |r.value.typeHeaders| || r.value.typeHi <= r.value.typeLo
    ensures r.Ok? ==> 0 < |r.value.nodeHeaders|
  {
    if Width(g) == 0 then Err(NoColumns)
    else
      var s := Locate(g);
      if NodeTypesLabel !in s then Err(MissingSection(NodeTypesLabel))
      else if s[NodeTypesLabel] + 1 >= |g| then Err(HeaderRowMissing)
      else if NodesLabel !in s then Err(MissingSection(NodesLabel))
      else
        var typeHeaders := Headers(RowAt(g, s[NodeTypesLabel] + 1));
        var typeLo, typeHi := s[NodeTypesLabel] + 2, s[NodesLabel];
        if |typeHeaders| == 0 && typeLo < typeHi then Err(EmptyHeader(NodeTypesLabel))
        else if ZeroLabelMissing(typeHeaders) && typeLo < typeHi then Err(NoLabelZero(NodeTypesLabel))
        else if LinksLabel !in s then Err(MissingSection(LinksLabel))
        else
          var nodeHeaders := Headers(RowAt(g, s[NodesLabel]));
          var nodeLo, nodeHi := s[NodesLabel] + 1, s[LinksLabel];
          if ZeroLabelMissing(nodeHeaders) && nodeLo < nodeHi then Err(NoLabelZero(NodesLabel))
          else
            NodesHeaderPresent(g);
            Ok(Layout(typeHeaders, typeLo, typeHi, nodeHeaders, nodeLo, nodeHi, s[LinksLabel] + 2))
  }

  /** Lines 31-88: the parsed sections, or the first failure in source order. */
  function Parse(g: Grid, numText: int -> string): Result<Tables>
  {
    match Plan(g)
    case Err(e) => Err(e)
    case Ok(p) =>
      match LinksOutcome(g, p.linksLo, numText)
      case Err(e) => Err(e)
      case Ok(lines) =>
        Ok(Tables(TypeTableUpTo(g, p.typeHeaders, p.typeLo, p.typeHi, numText),
                  NodeListUpTo(g, p.nodeHeaders, p.nodeLo, p.nodeHi, numText),
                  lines))
  }

  /** The output text of a run, or the failure that stops it. */
  function Extract(g: Grid, numText: int -> string, dump: Doc -> string): Result<string>
  {
    match Parse(g, numText)
    case Err(e) => Err(e)
    case Ok(t) => Ok(Output(Document(t.types, t.nodes), t.links, dump))
  }

  /** Lines 31-43 and 58-62, step by step: find the sections, then each
      check that can stop the script before its loops, in source order. */
  method LocateTables(g: Grid) returns (plan: Result<Layout>)
    ensures plan == Plan(g)
  {
    if Width(g) == 0 {
      return Err(NoColumns);
    }
    var sections := FindSections(g);
    if NodeTypesLabel !in sections {
      return Err(MissingSection(NodeTypesLabel));
    }
    var nodeTypesStart := sections[NodeTypesLabel] + 1;
    if nodeTypesStart >= |g| {
      return Err(HeaderRowMissing);
    }
    var typeHeaders := Headers(g[nodeTypesStart]);
    assert RowAt(g, nodeTypesStart) == g[nodeTypesStart];
    if NodesLabel !in sections {
      return Err(MissingSection(NodesLabel));
    }
    var nodesRow := sections[NodesLabel];
    if |typeHeaders| == 0 && nodeTypesStart + 1 < nodesRow {
      return Err(EmptyHeader(NodeTypesLabel));
    }
    if ZeroLabelMissing(typeHeaders) && nodeTypesStart + 1 < nodesRow {
      return Err(NoLabelZero(NodeTypesLabel));
    }
    var nodeHeaders := Headers(g[nodesRow]);
    assert RowAt(g, nodesRow) == g[nodesRow];
    if LinksLabel !in sections {
      return Err(MissingSection(LinksLabel));
    }
    var linksRow := sections[LinksLabel];
    if ZeroLabelMissing(nodeHeaders) && nodesRow + 1 < linksRow {
      return Err(NoLabelZero(NodesLabel));
    }
    plan := Ok(Layout(typeHeaders, nodeTypesStart + 1, nodesRow, nodeHeaders, nodesRow + 1, linksRow, linksRow + 2));
  }

  /** The script from line 31 to line 92: the checks, the three loops and the
      assembly of the text. */
  method Run(g: Grid, numText: int -> string, dump: Doc -> string) returns (res: Result<string>)
    ensures res == Extract(g, numText, dump)
  {
    var plan := LocateTables(g);
    if plan.Err? {
      PlanFails(g, numText, dump);
      return Err(plan.error);
    }
    var p := plan.value;
    var types := ParseNodeTypes(g, p.typeHeaders, p.typeLo, p.typeHi, numText);
    var nodes := ParseNodes(g, p.nodeHeaders, p.nodeLo, p.nodeHi, numText);
    var links := BuildLinkLines(g, p.linksLo, numText);
    if links.Err? {
      LinksFail(g, numText, dump);
      return Err(links.error);
    }
    var linksText := Join(links.value, "\n");
    var yamlText := dump(Document(types, nodes));
    ExtractOfPlan(g, numText, dump, p, links.value);
    res := Ok(RStrip(yamlText) + "\n\n" + linksText + "\n");
  }

  /** A failed plan is the run's failure. */
  lemma PlanFails(g: Grid, numText: int -> string, dump: Doc -> string)
    requires Plan(g).Err?
    ensures Extract(g, numText, dump) == Err(Plan(g).error)
  {
  }

  /** A failed read of the links block is the run's failure. */
  lemma LinksFail(g: Grid, numText: int -> string, dump: Doc -> string)
    requires Plan(g).Ok? && LinksOutcome(g, Plan(g).value.linksLo, numText).Err?
    ensures Extract(g, numText, dump) == Err(LinksOutcome(g, Plan(g).value.linksLo, numText).error)
  {
  }

  /** With a layout and the links lines, the run's text is the assembly of the two tables and the lines. */
  lemma ExtractOfPlan(g: Grid, numText: int -> string, dump: Doc -> string, p: Layout, lines: seq<string>)
    requires Plan(g) == Ok(p) && LinksOutcome(g, p.linksLo, numText) == Ok(lines)
    ensures Extract(g, numText, dump) == Ok(Output(Document(
      TypeTableUpTo(g, p.typeHeaders, p.typeLo, p.typeHi, numText),
      NodeListUpTo(g, p.nodeHeaders, p.nodeLo, p.nodeHi, numText)), lines, dump))
  {
  }

  /** A section label that no row of column 0 marks makes the run fail. */
  lemma MissingSectionFails(g: Grid, numText: int -> string, dump: Doc -> string, k: string)
    requires IsLabel(k)
    requires forall r :: 0 <= r < |g| ==> !MarksAt(g, r, k)
    ensures Extract(g, numText, dump).Err?
  {
    LocateSpec(g, k);
  }

  /** A successful run found all three labels; its tables and links block come
      from the rows `ParseOkSpec` names; and its text is the line-92 assembly of
      the mapping and that block (whose form `OutputSpec` gives). */
  lemma ExtractOkSpec(g: Grid, numText: int -> string, dump: Doc -> string)
    requires Extract(g, numText, dump).Ok?
    ensures NodeTypesLabel in Locate(g) && NodesLabel in Locate(g) && LinksLabel in Locate(g)
    ensures
      var s := Locate(g);
      var t := Parse(g, numText).value;
      && 0 < |Headers(RowAt(g, s[NodesLabel]))|
      && (0 < |Headers(RowAt(g, s[NodeTypesLabel] + 1))| || s[NodesLabel] <= s[NodeTypesLabel] + 2)
      && t.types == TypeTableUpTo(g, Headers(RowAt(g, s[NodeTypesLabel] + 1)), s[NodeTypesLabel] + 2, s[NodesLabel], numText)
      && t.nodes == NodeListUpTo(g, Headers(RowAt(g, s[NodesLabel])), s[NodesLabel] + 1, s[LinksLabel], numText)
    ensures
      var t := Parse(g, numText).value;
      var lo := Locate(g)[LinksLabel] + 2;
      && t.links == LinkLines(g, lo, numText)
      && t.links[0] == LinksHeader
      && |t.links| == 1 + 3 * CompleteRows(g, lo, |g|)
      && Extract(g, numText, dump).value == Output(Document(t.types, t.nodes), t.links, dump)
  {
    ExtractOkParse(g, numText, dump);
    ParseOkSpec(g, numText);
  }

  /** A successful run parsed the sheet and assembled its tables. */
  lemma ExtractOkParse(g: Grid, numText: int -> string, dump: Doc -> string)
    requires Extract(g, numText, dump).Ok?
    ensures Parse(g, numText).Ok?
    ensures
      var t := Parse(g, numText).value;
      Extract(g, numText, dump).value == Output(Document(t.types, t.nodes), t.links, dump)
  {
  }

  /** A successful parse found all three labels.  Its type table comes from the
      header row below `node_types` and the rows from `node_types + 2` up to the
      `nodes` row; its node list from the `nodes` row as header row and the rows
      between `nodes` and `links`; its links block is read from two rows below
      `links` on, starts with `links:` and has one line plus three per complete
      link row. */
  lemma ParseOkSpec(g: Grid, numText: int -> string)
    requires Parse(g, numText).Ok?
    ensures NodeTypesLabel in Locate(g) && NodesLabel in Locate(g) && LinksLabel in Locate(g)
    ensures
      var s := Locate(g);
      var t := Parse(g, numText).value;
      && 0 < |Headers(RowAt(g, s[NodesLabel]))|
      && (0 < |Headers(RowAt(g, s[NodeTypesLabel] + 1))| || s[NodesLabel] <= s[NodeTypesLabel] + 2)
      && t.types == TypeTableUpTo(g, Headers(RowAt(g, s[NodeTypesLabel] + 1)), s[NodeTypesLabel] + 2, s[NodesLabel], numText)
      && t.nodes == NodeListUpTo(g, Headers(RowAt(g, s[NodesLabel])), s[NodesLabel] + 1, s[LinksLabel], numText)
    ensures
      var t := Parse(g, numText).value;
      var lo := Locate(g)[LinksLabel] + 2;
      && t.links == LinkLines(g, lo, numText)
      && t.links[0] == LinksHeader
      && |t.links| == 1 + 3 * CompleteRows(g, lo, |g|)
  {
    ParseOkLinks(g, numText);
    PlanOkSpec(g);
    LinkLinesShape(g, Locate(g)[LinksLabel] + 2, numText);
  }

  /** A layout exists only when all three labels were found, and it is the one
      lines 40-42 and 58-61 compute from their rows: the type headers are the
      row below `node_types`, whose data rows run from two below it up to the
      `nodes` row; the node headers are the `nodes` row, whose data rows run up
      to the `links` row; the links block starts two rows below `links`. */
  lemma PlanOkSpec(g: Grid)
    requires Plan(g).Ok?
    ensures NodeTypesLabel in Locate(g) && NodesLabel in Locate(g) && LinksLabel in Locate(g)
    ensures
      var s := Locate(g);
      Plan(g).value == Layout(
        Headers(RowAt(g, s[NodeTypesLabel] + 1)), s[NodeTypesLabel] + 2, s[NodesLabel],
        Headers(RowAt(g, s[NodesLabel])), s[NodesLabel] + 1, s[LinksLabel],
        s[LinksLabel] + 2)
  {
  }

  /** When the checks before the loops pass: exactly when all three labels are
      found, the `node_types` label is not on the last row, and each table
      that has a data row has a header row whose first cell `row[0]` can read. */
  lemma PlanOkIff(g: Grid)
    ensures Plan(g).Ok? <==>
      var s := Locate(g);
      && NodeTypesLabel in s && NodesLabel in s && LinksLabel in s
      && s[NodeTypesLabel] + 1 < |g|
      && (s[NodeTypesLabel] + 2 < s[NodesLabel] ==>
            0 < |Headers(RowAt(g, s[NodeTypesLabel] + 1))| && !ZeroLabelMissing(Headers(RowAt(g, s[NodeTypesLabel] + 1))))
      && (s[NodesLabel] + 1 < s[LinksLabel] ==> !ZeroLabelMissing(Headers(RowAt(g, s[NodesLabel]))))
  {
    LocateSpec(g, NodeTypesLabel);
    if NodeTypesLabel in Locate(g) {
      WidthSpec(g);
      assert |g[Locate(g)[NodeTypesLabel]]| <= Width(g);
    }
  }

  /** The links of a successful parse are the lines of the links stage. */
  lemma ParseOkLinks(g: Grid, numText: int -> string)
    requires Parse(g, numText).Ok?
    ensures Plan(g).Ok?
    ensures Parse(g, numText).value.links == LinkLines(g, Plan(g).value.linksLo, numText)
  {
    var p := Plan(g).value;
    assert LinksOutcome(g, p.linksLo, numText).Ok?;
  }

  /** What line 92 produces: the serializer's text without its trailing
      whitespace (and nothing else removed), a blank line, the links text, which
      begins with its first line, and one final line break. */
  lemma OutputSpec(doc: Doc, links: seq<string>, dump: Doc -> string)
    requires |links| > 0
    ensures
      var head := RStrip(dump(doc));
      var out := Output(doc, links, dump);
      && head <= dump(doc)
      && AllSpace(dump(doc)[|head|..])
      && (head == [] || !IsSpace(head[|head| - 1]))
      && out[..|head|] == head
      && out[|head|..|head| + 2] == "\n\n"
      && links[0] <= out[|head| + 2..]
      && out[|out| - 1] == '\n'
  {
    var head := RStrip(dump(doc));
    RStripSpec(dump(doc));
    JoinStartsWithFirst(links, "\n");
    var out := Output(doc, links, dump);
    assert out == head + "\n\n" + Join(links, "\n") + "\n";
    assert out[|head| + 2..] == Join(links, "\n") + "\n";
  }

  /** The serialized mapping holds the types in table order and the node list
      under `nodes`, appended last unless a type is itself named `nodes`, in
      which case that type's entry keeps its place and is replaced by the list. */
  lemma DocumentSpec(types: Dict<Dict<string>>, nodes: seq<NodeEntry>, k: string)
    requires UniqueKeys(types)
    ensures UniqueKeys(Document(types, nodes))
    ensures Keys(Document(types, nodes)) ==
      if NodesLabel in Keys(types) then Keys(types) else Keys(types) + [NodesLabel]
    ensures Lookup(Document(types, nodes), NodesLabel) == Some(NodeList(nodes))
    ensures k != NodesLabel ==>
      Lookup(Document(types, nodes), k) == match Lookup(types, k) case None => None case Some(d) => Some(TypeEntry(d))
  {
    var m := MapValues(types, (d: Dict<string>) => TypeEntry(d));
    MapValuesKeys(types, (d: Dict<string>) => TypeEntry(d));
    PutKeepsKeysUnique(m, NodesLabel, NodeList(nodes));
    PutKeys(m, NodesLabel, NodeList(nodes));
    PutLookup(m, NodesLabel, NodeList(nodes), k);
    MapValuesLookup(types, (d: Dict<string>) => TypeEntry(d), k);
    PutLookup(m, NodesLabel, NodeList(nodes), NodesLabel);
  }
}
