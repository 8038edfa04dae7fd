/** Locating the three sections: the loop that scans column 0 for the labels
    `node_types`, `nodes` and `links` and records each label's row.  The
    dictionary is overwritten on every match, so a repeated label ends up
    at its last row. */
module Sections {
  import opened Outcomes
  import opened Text
  import opened Cells

  const NodeTypesLabel := "node_types"
  const NodesLabel := "nodes"
  const LinksLabel := "links"

  predicate IsLabel(v: string)
  {
    v == NodeTypesLabel || v == NodesLabel || v == LinksLabel
  }

  /** The label a column-0 cell marks, if any: only string cells count, after
      stripping and lower-casing. */
  function Marker(c: Cell): Option<string>
  {
    if c.Str? && IsLabel(Lower(Strip(c.s))) then Some(Lower(Strip(c.s))) else None
  }

  /** The section dictionary after the scan has seen rows `0 .. n-1`. */
  function SectionsUpTo(g: Grid, n: nat): (m: map<string, nat>)
    requires n <= |g|
    ensures forall k :: k in m ==> m[k] < n
  {
    if n == 0 then map[]
    else
      var m := SectionsUpTo(g, n - 1);
      var found := Marker(At(g, n - 1, 0));
      if found.Some? then m[found.value := n - 1] else m
  }

  /** The dictionary `sections` once the scan is complete. */
  function Locate(g: Grid): (m: map<string, nat>)
    ensures forall k :: k in m ==> m[k] < |g|
  {
    SectionsUpTo(g, |g|)
  }

  /** Row `r`'s column-0 cell marks label `k`. */
  predicate MarksAt(g: Grid, r: int, k: string)
  {
    Marker(At(g, r, 0)) == Some(k)
  }

  /** A label is recorded exactly when some scanned row's column 0 marks it. */
  lemma {:induction false} SectionsUpToKeys(g: Grid, n: nat, k: string)
    requires n <= |g|
    ensures k in SectionsUpTo(g, n) <==> exists r :: 0 <= r < n && MarksAt(g, r, k)
  {
    if n > 0 {
      SectionsUpToKeys(g, n - 1, k);
      if MarksAt(g, n - 1, k) {
        assert SectionsUpTo(g, n) == SectionsUpTo(g, n - 1)[k := n - 1];
      } else {
        assert k in SectionsUpTo(g, n) <==> k in SectionsUpTo(g, n - 1);
      }
    }
  }

  /** A recorded label sits at the last scanned row that marks it. */
  lemma {:induction false} SectionsUpToLast(g: Grid, n: nat, k: string)
    requires n <= |g|
    requires k in SectionsUpTo(g, n)
    ensures SectionsUpTo(g, n)[k] < n
    ensures MarksAt(g, SectionsUpTo(g, n)[k], k)
    ensures forall r :: SectionsUpTo(g, n)[k] < r < n ==> !MarksAt(g, r, k)
  {
    if MarksAt(g, n - 1, k) {
      assert SectionsUpTo(g, n) == SectionsUpTo(g, n - 1)[k := n - 1];
    } else {
      assert k in SectionsUpTo(g, n - 1) && SectionsUpTo(g, n)[k] == SectionsUpTo(g, n - 1)[k];
      SectionsUpToLast(g, n - 1, k);
    }
  }

  /** The scan over the whole frame (lines 32-37). */
  lemma LocateSpec(g: Grid, k: string)
    ensures k in Locate(g) ==> IsLabel(k)
    ensures k in Locate(g) <==> exists r :: 0 <= r < |g| && MarksAt(g, r, k)
    ensures k in Locate(g) ==>
      && Locate(g)[k] < |g|
      && MarksAt(g, Locate(g)[k], k)
      && forall r :: Locate(g)[k] < r < |g| ==> !MarksAt(g, r, k)
  {
    SectionsUpToKeys(g, |g|, k);
    if k in Locate(g) {
      SectionsUpToLast(g, |g|, k);
    }
  }

  /** Only column 0 is scanned: frames of the same height that agree there
      have the same sections. */
  lemma {:induction false} SectionsUpToReadsColumnZero(g: Grid, g': Grid, n: nat)
    requires n <= |g| && n <= |g'|
    requires forall r :: 0 <= r < n ==> At(g, r, 0) == At(g', r, 0)
    ensures SectionsUpTo(g, n) == SectionsUpTo(g', n)
  {
    if n > 0 {
      SectionsUpToReadsColumnZero(g, g', n - 1);
    }
  }

  lemma LocateReadsColumnZero(g: Grid, g': Grid)
    requires |g| == |g'|
    requires forall r :: 0 <= r < |g| ==> At(g, r, 0) == At(g', r, 0)
    ensures Locate(g) == Locate(g')
  {
    SectionsUpToReadsColumnZero(g, g', |g|);
  }

  /** The loop of lines 32-37, updating the dictionary row by row. */
  method FindSections(g: Grid) returns (sections: map<string, nat>)
    ensures sections == Locate(g)
  {
    sections := map[];
    var i := 0;
    while i < |g|
      invariant i <= |g|
      invariant sections == SectionsUpTo(g, i)
    {
      var val := At(g, i, 0);
      if val.Str? {
        var v := Lower(Strip(val.s));
        if v == NodeTypesLabel || v == NodesLabel || v == LinksLabel {
          sections := sections[v := i];
        }
      }
      i := i + 1;
    }
  }
}
