/** The node table (lines 57-74): the header row is the `nodes` row itself,
    data rows run from `nodes + 1` up to the `links` row, and each row with a
    present first cell becomes a one-key mapping `name -> {header: value}`.
    Values keep their cell type and duplicate names are all kept, in row order. */
module NodeTable {
  import opened Outcomes
  import opened OrderedDict
  import opened Cells
  import opened Rows

  /** `{node_name: node_info}`. */
  datatype NodeEntry = NodeEntry(name: string, info: Dict<Cell>)

  /** The entry data row `r` produces. */
  function NodeOf(g: Grid, hdrs: seq<Cell>, r: int, numText: int -> string): NodeEntry
    requires 0 < |hdrs|
  {
    NodeEntry(Render(At(g, r, 0), numText), Entries(g, hdrs, r, numText))
  }

  /** `nodes_yaml_list` after the loop has seen rows `lo .. hi-1`. */
  function NodeListUpTo(g: Grid, hdrs: seq<Cell>, lo: int, hi: int, numText: int -> string): seq<NodeEntry>
    requires 0 < |hdrs| || hi <= lo
    decreases hi - lo
  {
    if hi <= lo then []
    else
      var nodes := NodeListUpTo(g, hdrs, lo, hi - 1, numText);
      if Present(At(g, hi - 1, 0)) then nodes + [NodeOf(g, hdrs, hi - 1, numText)] else nodes
  }

  /** The loop of lines 64-74 over the data rows `lo .. hi-1`. */
  method ParseNodes(g: Grid, hdrs: seq<Cell>, lo: int, hi: int, numText: int -> string)
      returns (nodes: seq<NodeEntry>)
    requires 0 < |hdrs| || hi <= lo
    ensures nodes == NodeListUpTo(g, hdrs, lo, hi, numText)
  {
    nodes := [];
    var i := lo;
    while i < hi
      invariant lo <= i && (i <= hi || i == lo)
      invariant nodes == NodeListUpTo(g, hdrs, lo, i, numText)
    {
      var first := At(g, i, 0);
      if Present(first) {
        var nodeName := Render(first, numText);
        var nodeInfo := Entries(g, hdrs, i, numText);
        nodes := nodes + [NodeEntry(nodeName, nodeInfo)];
      }
      i := i + 1;
    }
  }

  /** The data rows of `lo .. hi-1` whose first cell is present, in row order:
      an independent description of which rows the node list draws from. */
  function RowsWithName(g: Grid, lo: int, hi: int): (rows: seq<int>)
    decreases hi - lo
  {
    if hi <= lo then []
    else if Present(At(g, lo, 0)) then [lo] + RowsWithName(g, lo + 1, hi)
    else RowsWithName(g, lo + 1, hi)
  }

  /** `RowsWithName` is strictly increasing and holds exactly the rows in
      range whose first cell is present. */
  lemma {:induction false} RowsWithNameSpec(g: Grid, lo: int, hi: int)
    ensures forall i, j :: 0 <= i < j < |RowsWithName(g, lo, hi)| ==> RowsWithName(g, lo, hi)[i] < RowsWithName(g, lo, hi)[j]
    ensures forall r :: r in RowsWithName(g, lo, hi) <==> lo <= r < hi && Present(At(g, r, 0))
    decreases hi - lo
  {
    if hi > lo {
      RowsWithNameSpec(g, lo + 1, hi);
      var rest := RowsWithName(g, lo + 1, hi);
      assert forall j :: 0 <= j < |rest| ==> rest[j] in rest && lo < rest[j];
    }
  }

  /** Appending the last row to the range appends it to `RowsWithName`. */
  lemma {:induction false} RowsWithNameSnoc(g: Grid, lo: int, hi: int)
    requires lo < hi
    ensures RowsWithName(g, lo, hi) ==
      RowsWithName(g, lo, hi - 1) + (if Present(At(g, hi - 1, 0)) then [hi - 1] else [])
    decreases hi - lo
  {
    if lo < hi - 1 {
      RowsWithNameSnoc(g, lo + 1, hi);
    }
  }

  /** The node list has one entry per row with a present first cell, in row
      order, duplicates included: entry `i` is the `i`-th such row's node. */
  lemma {:induction false} NodeListRows(g: Grid, hdrs: seq<Cell>, lo: int, hi: int, numText: int -> string)
    requires 0 < |hdrs|
    ensures |NodeListUpTo(g, hdrs, lo, hi, numText)| == |RowsWithName(g, lo, hi)|
    ensures forall i :: 0 <= i < |RowsWithName(g, lo, hi)| ==>
      NodeListUpTo(g, hdrs, lo, hi, numText)[i] == NodeOf(g, hdrs, RowsWithName(g, lo, hi)[i], numText)
    decreases hi - lo
  {
    if hi > lo {
      NodeListRows(g, hdrs, lo, hi - 1, numText);
      RowsWithNameSnoc(g, lo, hi);
    }
  }

  /** A node's details keep the cell itself: every value is a present,
      non-blank cell of the node's row from a column other than the key column,
      stored under that column's printed header. */
  lemma NodeInfoSpec(g: Grid, hdrs: seq<Cell>, r: int, numText: int -> string, k: string)
    requires 0 < |hdrs|
    ensures UniqueKeys(NodeOf(g, hdrs, r, numText).info)
    ensures Lookup(NodeOf(g, hdrs, r, numText).info, k).Some? ==>
      exists c :: 0 < c < |hdrs| && hdrs[c] != hdrs[0] && Kept(At(g, r, c), numText)
        && Render(hdrs[c], numText) == k
        && Lookup(NodeOf(g, hdrs, r, numText).info, k).value == At(g, r, c)
  {
    EntriesUpToUnique(g, hdrs, r, |hdrs|, numText);
    if Lookup(NodeOf(g, hdrs, r, numText).info, k).Some? {
      var c := EntriesUpToValue(g, hdrs, r, |hdrs|, numText, k);
    }
  }
}
