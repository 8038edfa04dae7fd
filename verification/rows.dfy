/** The dictionary comprehension shared by the type table and the node table
    (lines 50-54 and 69-73): for one data row, every column whose header is
    not the key header and whose value is present and not blank contributes
    `str(header) -> value`.  Header names are the present cells of the header
    row, assigned to the first columns by position, so a gap in the header row
    shifts every later name one column to the left. */
module Rows {
  import opened Outcomes
  import opened Text
  import opened OrderedDict
  import opened Cells

  /** Column `c` of row `r` contributes an entry. */
  predicate Contributes(g: Grid, hdrs: seq<Cell>, r: int, c: int, numText: int -> string)
    requires |hdrs| > 0
  {
    0 <= c < |hdrs| && hdrs[c] != hdrs[0] && Kept(At(g, r, c), numText)
  }

  /** The comprehension after it has seen columns `0 .. j-1`. */
  function EntriesUpTo(g: Grid, hdrs: seq<Cell>, r: int, j: nat, numText: int -> string): Dict<Cell>
    requires 0 < |hdrs| && j <= |hdrs|
  {
    if j == 0 then []
    else
      var d := EntriesUpTo(g, hdrs, r, j - 1, numText);
      if Contributes(g, hdrs, r, j - 1, numText)
      then Put(d, Render(hdrs[j - 1], numText), At(g, r, j - 1))
      else d
  }

  /** The comprehension over all `len(headers)` columns of row `r`. */
  function Entries(g: Grid, hdrs: seq<Cell>, r: int, numText: int -> string): Dict<Cell>
    requires 0 < |hdrs|
  {
    EntriesUpTo(g, hdrs, r, |hdrs|, numText)
  }

  /** Column `c` of row `r` contributes an entry under the name `k`. */
  predicate ContributesAs(g: Grid, hdrs: seq<Cell>, r: int, c: int, numText: int -> string, k: string)
    requires |hdrs| > 0
  {
    Contributes(g, hdrs, r, c, numText) && Render(hdrs[c], numText) == k
  }

  /** One more column: a contribution under `k` sets `k`; anything else leaves it. */
  lemma EntriesUpToStep(g: Grid, hdrs: seq<Cell>, r: int, j: nat, numText: int -> string, k: string)
    requires 0 < j <= |hdrs|
    ensures ContributesAs(g, hdrs, r, j - 1, numText, k) ==>
      Lookup(EntriesUpTo(g, hdrs, r, j, numText), k) == Some(At(g, r, j - 1))
    ensures !ContributesAs(g, hdrs, r, j - 1, numText, k) ==>
      Lookup(EntriesUpTo(g, hdrs, r, j, numText), k) == Lookup(EntriesUpTo(g, hdrs, r, j - 1, numText), k)
  {
    var d := EntriesUpTo(g, hdrs, r, j - 1, numText);
    if Contributes(g, hdrs, r, j - 1, numText) {
      PutLookup(d, Render(hdrs[j - 1], numText), At(g, r, j - 1), k);
    }
  }

  /** A key is present exactly when some contributing column has that header name. */
  lemma {:induction false} EntriesUpToHas(g: Grid, hdrs: seq<Cell>, r: int, j: nat, numText: int -> string, k: string)
    requires 0 < |hdrs| && j <= |hdrs|
    ensures Lookup(EntriesUpTo(g, hdrs, r, j, numText), k).Some? <==>
      exists c :: 0 <= c < j && ContributesAs(g, hdrs, r, c, numText, k)
  {
    if j > 0 {
      EntriesUpToHas(g, hdrs, r, j - 1, numText, k);
      EntriesUpToStep(g, hdrs, r, j, numText, k);
    }
  }

  /** Column `c` is the last of columns `0 .. j-1` to contribute under name `k`. */
  predicate LastContributor(g: Grid, hdrs: seq<Cell>, r: int, j: nat, numText: int -> string, k: string, c: int)
    requires 0 < |hdrs|
  {
    && 0 <= c < j
    && ContributesAs(g, hdrs, r, c, numText, k)
    && forall c' :: c < c' < j ==> !ContributesAs(g, hdrs, r, c', numText, k)
  }

  /** A column that does not contribute under `k` leaves the last contributor as it was. */
  lemma LastContributorExtends(g: Grid, hdrs: seq<Cell>, r: int, j: nat, numText: int -> string, k: string, c: int)
    requires 0 < j <= |hdrs|
    requires LastContributor(g, hdrs, r, j - 1, numText, k, c)
    requires !ContributesAs(g, hdrs, r, j - 1, numText, k)
    ensures LastContributor(g, hdrs, r, j, numText, k, c)
  {
  }

  /** The last of columns `0 .. j-1` to contribute under name `k`, if any. */
  function LastColumn(g: Grid, hdrs: seq<Cell>, r: int, j: nat, numText: int -> string, k: string): Option<nat>
    requires 0 < |hdrs| && j <= |hdrs|
  {
    if j == 0 then None
    else if ContributesAs(g, hdrs, r, j - 1, numText, k) then Some(j - 1)
    else LastColumn(g, hdrs, r, j - 1, numText, k)
  }

  lemma {:induction false} LastColumnSpec(g: Grid, hdrs: seq<Cell>, r: int, j: nat, numText: int -> string, k: string)
    requires 0 < |hdrs| && j <= |hdrs|
    ensures LastColumn(g, hdrs, r, j, numText, k).Some? ==>
      LastContributor(g, hdrs, r, j, numText, k, LastColumn(g, hdrs, r, j, numText, k).value)
  {
    if j > 0 && !ContributesAs(g, hdrs, r, j - 1, numText, k) {
      LastColumnSpec(g, hdrs, r, j - 1, numText, k);
      if LastColumn(g, hdrs, r, j - 1, numText, k).Some? {
        LastContributorExtends(g, hdrs, r, j, numText, k, LastColumn(g, hdrs, r, j - 1, numText, k).value);
      }
    }
  }

  /** The entry under `k` is the cell of the last column contributing under `k`. */
  lemma {:induction false} EntriesUpToLookup(g: Grid, hdrs: seq<Cell>, r: int, j: nat, numText: int -> string, k: string)
    requires 0 < |hdrs| && j <= |hdrs|
    ensures Lookup(EntriesUpTo(g, hdrs, r, j, numText), k) ==
      if LastColumn(g, hdrs, r, j, numText, k).Some? then Some(At(g, r, LastColumn(g, hdrs, r, j, numText, k).value)) else None
  {
    if j > 0 {
      EntriesUpToLookup(g, hdrs, r, j - 1, numText, k);
      EntriesUpToStep(g, hdrs, r, j, numText, k);
    } else {
      assert EntriesUpTo(g, hdrs, r, j, numText) == [];
    }
  }

  /** A present key holds the cell of the LAST contributing column with that
      header name; the lemma returns that column. */
  lemma EntriesUpToValue(g: Grid, hdrs: seq<Cell>, r: int, j: nat, numText: int -> string, k: string)
      returns (c: nat)
    requires 0 < |hdrs| && j <= |hdrs|
    requires Lookup(EntriesUpTo(g, hdrs, r, j, numText), k).Some?
    ensures LastContributor(g, hdrs, r, j, numText, k, c)
    ensures Lookup(EntriesUpTo(g, hdrs, r, j, numText), k) == Some(At(g, r, c))
  {
    EntriesUpToLookup(g, hdrs, r, j, numText, k);
    LastColumnSpec(g, hdrs, r, j, numText, k);
    c := LastColumn(g, hdrs, r, j, numText, k).value;
  }

  /** Every entry's key appears once. */
  lemma {:induction false} EntriesUpToUnique(g: Grid, hdrs: seq<Cell>, r: int, j: nat, numText: int -> string)
    requires 0 < |hdrs| && j <= |hdrs|
    ensures UniqueKeys(EntriesUpTo(g, hdrs, r, j, numText))
  {
    if j > 0 {
      EntriesUpToUnique(g, hdrs, r, j - 1, numText);
      var d := EntriesUpTo(g, hdrs, r, j - 1, numText);
      if Contributes(g, hdrs, r, j - 1, numText) {
        PutKeepsKeysUnique(d, Render(hdrs[j - 1], numText), At(g, r, j - 1));
      }
    }
  }

  /** A detail key is carried by some contributing column; the lemma returns
      such a column. */
  lemma KeyColumn(g: Grid, hdrs: seq<Cell>, r: int, j: nat, numText: int -> string, k: string)
      returns (c: int)
    requires 0 < |hdrs| && j <= |hdrs|
    requires k in Keys(EntriesUpTo(g, hdrs, r, j, numText))
    ensures 0 <= c < j && ContributesAs(g, hdrs, r, c, numText, k)
  {
    LookupSomeIff(EntriesUpTo(g, hdrs, r, j, numText), k);
    EntriesUpToHas(g, hdrs, r, j, numText, k);
    c :| 0 <= c < j && ContributesAs(g, hdrs, r, c, numText, k);
  }

  /** The header name of any contributing column is a detail key. */
  lemma ColumnKey(g: Grid, hdrs: seq<Cell>, r: int, j: nat, numText: int -> string, k: string, c: int)
    requires 0 < |hdrs| && j <= |hdrs|
    requires 0 <= c < j && ContributesAs(g, hdrs, r, c, numText, k)
    ensures k in Keys(EntriesUpTo(g, hdrs, r, j, numText))
  {
    LookupSomeIff(EntriesUpTo(g, hdrs, r, j, numText), k);
    EntriesUpToHas(g, hdrs, r, j, numText, k);
  }

  /** Detail keys are in the order of their FIRST contributing columns: a
      header name repeated in a later column keeps its place.  Whenever key
      `p` comes before key `q`, every column contributing under key `q` has
      an earlier column contributing under key `p`; the lemma returns it. */
  lemma {:induction false} EntriesUpToOrder(g: Grid, hdrs: seq<Cell>, r: int, j: nat, numText: int -> string,
                                            p: int, q: int, c: int) returns (c': int)
    requires 0 < |hdrs| && j <= |hdrs|
    requires 0 <= p < q < |EntriesUpTo(g, hdrs, r, j, numText)|
    requires 0 <= c < j && ContributesAs(g, hdrs, r, c, numText, Keys(EntriesUpTo(g, hdrs, r, j, numText))[q])
    ensures 0 <= c' < c && ContributesAs(g, hdrs, r, c', numText, Keys(EntriesUpTo(g, hdrs, r, j, numText))[p])
    decreases j, 1
  {
    var d := EntriesUpTo(g, hdrs, r, j, numText);
    var d0 := EntriesUpTo(g, hdrs, r, j - 1, numText);
    if !Contributes(g, hdrs, r, j - 1, numText) {
      assert d == d0;
      c' := EntriesUpToOrder(g, hdrs, r, j - 1, numText, p, q, c);
    } else {
      var k := Render(hdrs[j - 1], numText);
      assert d == Put(d0, k, At(g, r, j - 1));
      PutKeysIndex(d0, k, At(g, r, j - 1), p);
      PutKeysIndex(d0, k, At(g, r, j - 1), q);
      c' := EntriesUpToOrderStep(g, hdrs, r, j, numText, p, q, c);
    }
  }

  /** The step of `EntriesUpToOrder` for a contributing last column, stated on
      the entries before that column: key `q` is an old key, or the new name
      at the end. */
  lemma {:induction false} EntriesUpToOrderStep(g: Grid, hdrs: seq<Cell>, r: int, j: nat, numText: int -> string,
                                                p: int, q: int, c: int) returns (c': int)
    requires 0 < j <= |hdrs| && Contributes(g, hdrs, r, j - 1, numText)
    requires 0 <= p < q <= |EntriesUpTo(g, hdrs, r, j - 1, numText)|
    requires q == |EntriesUpTo(g, hdrs, r, j - 1, numText)| ==>
      Render(hdrs[j - 1], numText) !in Keys(EntriesUpTo(g, hdrs, r, j - 1, numText))
    requires 0 <= c < j
    requires ContributesAs(g, hdrs, r, c, numText,
      if q < |EntriesUpTo(g, hdrs, r, j - 1, numText)| then Keys(EntriesUpTo(g, hdrs, r, j - 1, numText))[q]
      else Render(hdrs[j - 1], numText))
    ensures 0 <= c' < c && ContributesAs(g, hdrs, r, c', numText, Keys(EntriesUpTo(g, hdrs, r, j - 1, numText))[p])
    decreases j, 0
  {
    var d0 := EntriesUpTo(g, hdrs, r, j - 1, numText);
    if q < |d0| {
      var c0 := c;
      if c == j - 1 {
        c0 := KeyColumn(g, hdrs, r, j - 1, numText, Keys(d0)[q]);
      }
      c' := EntriesUpToOrder(g, hdrs, r, j - 1, numText, p, q, c0);
    } else {
      if c < j - 1 {
        ColumnKey(g, hdrs, r, j - 1, numText, Render(hdrs[j - 1], numText), c);
      }
      c' := KeyColumn(g, hdrs, r, j - 1, numText, Keys(d0)[p]);
    }
  }

  /** What a row's entries are, over all header columns: keys are unique; a key
      is there exactly when a column other than the key column, with a present
      non-blank value, carries that header name; the value is that column's
      cell, from the last such column.  In particular column 0, whose header is
      the key header, never contributes. */
  lemma EntriesSpec(g: Grid, hdrs: seq<Cell>, r: int, numText: int -> string, k: string)
    requires 0 < |hdrs|
    ensures UniqueKeys(Entries(g, hdrs, r, numText))
    ensures Lookup(Entries(g, hdrs, r, numText), k).Some? <==>
      exists c :: 0 < c < |hdrs| && ContributesAs(g, hdrs, r, c, numText, k)
    ensures Lookup(Entries(g, hdrs, r, numText), k).Some? ==>
      var v := Lookup(Entries(g, hdrs, r, numText), k).value;
      Present(v) && Strip(Render(v, numText)) != [] &&
      exists c :: 0 < c < |hdrs| && hdrs[c] != hdrs[0] && v == At(g, r, c) && Render(hdrs[c], numText) == k
  {
    EntriesUpToUnique(g, hdrs, r, |hdrs|, numText);
    EntriesUpToHas(g, hdrs, r, |hdrs|, numText, k);
    if Lookup(Entries(g, hdrs, r, numText), k).Some? {
      var c := EntriesUpToValue(g, hdrs, r, |hdrs|, numText, k);
      KeptIff(At(g, r, c), numText);
    }
  }

  /** Only the first `len(headers)` columns are read: rows that agree there
      give the same entries, whatever lies beyond. */
  lemma {:induction false} EntriesUpToReadsPrefix(g: Grid, r: int, g': Grid, r': int, hdrs: seq<Cell>, j: nat, numText: int -> string)
    requires 0 < |hdrs| && j <= |hdrs|
    requires forall c :: 0 <= c < j ==> At(g, r, c) == At(g', r', c)
    ensures EntriesUpTo(g, hdrs, r, j, numText) == EntriesUpTo(g', hdrs, r', j, numText)
  {
    if j > 0 {
      EntriesUpToReadsPrefix(g, r, g', r', hdrs, j - 1, numText);
    }
  }

  lemma EntriesReadsPrefix(g: Grid, r: int, g': Grid, r': int, hdrs: seq<Cell>, numText: int -> string)
    requires 0 < |hdrs|
    requires forall c :: 0 <= c < |hdrs| ==> At(g, r, c) == At(g', r', c)
    ensures Entries(g, hdrs, r, numText) == Entries(g', hdrs, r', numText)
  {
    EntriesUpToReadsPrefix(g, r, g', r', hdrs, |hdrs|, numText);
  }
}
