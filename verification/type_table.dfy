/** The node-type table (lines 39-55): header row at `node_types + 1`, data
    rows from `node_types + 2` up to the `nodes` row, each row with a present
    first cell becoming `name -> {header: str(value)}`.  A later row with the
    same name replaces the earlier row's details in place. */
module TypeTable {
  import opened Outcomes
  import opened OrderedDict
  import opened Cells
  import opened Rows

  /** Row `r`'s first cell is present and prints as `name`. */
  predicate NamedRow(g: Grid, r: int, numText: int -> string, name: string)
  {
    Present(At(g, r, 0)) && Render(At(g, r, 0), numText) == name
  }

  /** The details of type row `r`: the shared comprehension with every value
      turned into its text. */
  function TypeDetails(g: Grid, hdrs: seq<Cell>, r: int, numText: int -> string): Dict<string>
    requires 0 < |hdrs|
  {
    MapValues(Entries(g, hdrs, r, numText), (v: Cell) => Render(v, numText))
  }

  /** `node_types_dict` after the loop has seen rows `lo .. hi-1`. */
  function TypeTableUpTo(g: Grid, hdrs: seq<Cell>, lo: int, hi: int, numText: int -> string): Dict<Dict<string>>
    requires 0 < |hdrs| || hi <= lo
    decreases hi - lo
  {
    if hi <= lo then []
    else
      var table := TypeTableUpTo(g, hdrs, lo, hi - 1, numText);
      if Present(At(g, hi - 1, 0))
      then Put(table, Render(At(g, hi - 1, 0), numText), TypeDetails(g, hdrs, hi - 1, numText))
      else table
  }

  /** The loop of lines 45-55 over the data rows `lo .. hi-1`; an empty range
      when `lo >= hi`, as the slice gives. */
  method ParseNodeTypes(g: Grid, hdrs: seq<Cell>, lo: int, hi: int, numText: int -> string)
      returns (table: Dict<Dict<string>>)
    requires 0 < |hdrs| || hi <= lo
    ensures table == TypeTableUpTo(g, hdrs, lo, hi, numText)
  {
    table := [];
    var i := lo;
    while i < hi
      invariant lo <= i && (i <= hi || i == lo)
      invariant table == TypeTableUpTo(g, hdrs, lo, i, numText)
    {
      var first := At(g, i, 0);
      if Present(first) {
        var name := Render(first, numText);
        var details := TypeDetails(g, hdrs, i, numText);
        table := Put(table, name, details);
      }
      i := i + 1;
    }
  }

  /** One more row: a row named `name` sets its details; any other row leaves them. */
  lemma TypeTableStep(g: Grid, hdrs: seq<Cell>, lo: int, hi: int, numText: int -> string, name: string)
    requires 0 < |hdrs| && lo < hi
    ensures Lookup(TypeTableUpTo(g, hdrs, lo, hi, numText), name) ==
      if NamedRow(g, hi - 1, numText, name) then Some(TypeDetails(g, hdrs, hi - 1, numText))
      else Lookup(TypeTableUpTo(g, hdrs, lo, hi - 1, numText), name)
  {
    var table := TypeTableUpTo(g, hdrs, lo, hi - 1, numText);
    if Present(At(g, hi - 1, 0)) {
      PutLookup(table, Render(At(g, hi - 1, 0), numText), TypeDetails(g, hdrs, hi - 1, numText), name);
    }
  }

  /** The table's names are exactly the printed first cells of the data rows
      whose first cell is present. */
  lemma {:induction false} TypeTableKeys(g: Grid, hdrs: seq<Cell>, lo: int, hi: int, numText: int -> string, name: string)
    requires 0 < |hdrs| || hi <= lo
    ensures Lookup(TypeTableUpTo(g, hdrs, lo, hi, numText), name).Some? <==>
      exists r :: lo <= r < hi && NamedRow(g, r, numText, name)
    decreases hi - lo
  {
    if hi > lo {
      TypeTableKeys(g, hdrs, lo, hi - 1, numText, name);
      TypeTableStep(g, hdrs, lo, hi, numText, name);
      assert (exists r :: lo <= r < hi && NamedRow(g, r, numText, name)) <==>
        (exists r :: lo <= r < hi - 1 && NamedRow(g, r, numText, name)) || NamedRow(g, hi - 1, numText, name);
    }
  }

  /** A name among the table's keys is carried by some row in range; the
      lemma returns such a row. */
  lemma KeyRow(g: Grid, hdrs: seq<Cell>, lo: int, hi: int, numText: int -> string, name: string)
      returns (r: int)
    requires 0 < |hdrs| || hi <= lo
    requires name in Keys(TypeTableUpTo(g, hdrs, lo, hi, numText))
    ensures lo <= r < hi && NamedRow(g, r, numText, name)
  {
    LookupSomeIff(TypeTableUpTo(g, hdrs, lo, hi, numText), name);
    TypeTableKeys(g, hdrs, lo, hi, numText, name);
    r :| lo <= r < hi && NamedRow(g, r, numText, name);
  }

  /** The name of any row in range is among the table's keys. */
  lemma RowKey(g: Grid, hdrs: seq<Cell>, lo: int, hi: int, numText: int -> string, name: string, r: int)
    requires 0 < |hdrs| || hi <= lo
    requires lo <= r < hi && NamedRow(g, r, numText, name)
    ensures name in Keys(TypeTableUpTo(g, hdrs, lo, hi, numText))
  {
    LookupSomeIff(TypeTableUpTo(g, hdrs, lo, hi, numText), name);
    TypeTableKeys(g, hdrs, lo, hi, numText, name);
  }

  /** The names are in the order of their FIRST rows: a name that a later row
      repeats keeps its place.  Whenever key `i` comes before key `j`, every
      row named as key `j` has an earlier row named as key `i`; the lemma
      returns that row. */
  lemma {:induction false} TypeTableOrder(g: Grid, hdrs: seq<Cell>, lo: int, hi: int, numText: int -> string,
                                          i: int, j: int, r: int) returns (r': int)
    requires 0 < |hdrs| || hi <= lo
    requires 0 <= i < j < |TypeTableUpTo(g, hdrs, lo, hi, numText)|
    requires lo <= r < hi && NamedRow(g, r, numText, Keys(TypeTableUpTo(g, hdrs, lo, hi, numText))[j])
    ensures lo <= r' < r && NamedRow(g, r', numText, Keys(TypeTableUpTo(g, hdrs, lo, hi, numText))[i])
    decreases hi - lo, 1
  {
    var t := TypeTableUpTo(g, hdrs, lo, hi, numText);
    var t0 := TypeTableUpTo(g, hdrs, lo, hi - 1, numText);
    if !Present(At(g, hi - 1, 0)) {
      assert t == t0;
      r' := TypeTableOrder(g, hdrs, lo, hi - 1, numText, i, j, r);
    } else {
      var name := Render(At(g, hi - 1, 0), numText);
      var details := TypeDetails(g, hdrs, hi - 1, numText);
      assert t == Put(t0, name, details);
      PutKeysIndex(t0, name, details, i);
      PutKeysIndex(t0, name, details, j);
      r' := TypeTableOrderStep(g, hdrs, lo, hi, numText, i, j, r);
    }
  }

  /** The step of `TypeTableOrder` for a named last row, stated on the table
      before that row: key `j` is an old key, or the new name at the end. */
  lemma {:induction false} TypeTableOrderStep(g: Grid, hdrs: seq<Cell>, lo: int, hi: int, numText: int -> string,
                                              i: int, j: int, r: int) returns (r': int)
    requires 0 < |hdrs| && lo < hi && Present(At(g, hi - 1, 0))
    requires 0 <= i < j <= |TypeTableUpTo(g, hdrs, lo, hi - 1, numText)|
    requires j == |TypeTableUpTo(g, hdrs, lo, hi - 1, numText)| ==>
      Render(At(g, hi - 1, 0), numText) !in Keys(TypeTableUpTo(g, hdrs, lo, hi - 1, numText))
    requires lo <= r < hi
    requires NamedRow(g, r, numText,
      if j < |TypeTableUpTo(g, hdrs, lo, hi - 1, numText)| then Keys(TypeTableUpTo(g, hdrs, lo, hi - 1, numText))[j]
      else Render(At(g, hi - 1, 0), numText))
    ensures lo <= r' < r && NamedRow(g, r', numText, Keys(TypeTableUpTo(g, hdrs, lo, hi - 1, numText))[i])
    decreases hi - lo, 0
  {
    var t0 := TypeTableUpTo(g, hdrs, lo, hi - 1, numText);
    if j < |t0| {
      var r0 := r;
      if r == hi - 1 {
        r0 := KeyRow(g, hdrs, lo, hi - 1, numText, Keys(t0)[j]);
      }
      r' := TypeTableOrder(g, hdrs, lo, hi - 1, numText, i, j, r0);
    } else {
      if r < hi - 1 {
        RowKey(g, hdrs, lo, hi - 1, numText, Render(At(g, hi - 1, 0), numText), r);
      }
      r' := KeyRow(g, hdrs, lo, hi - 1, numText, Keys(t0)[i]);
    }
  }

  /** Row `r` is the last of rows `lo .. hi-1` named `name`. */
  predicate LastNamedRow(g: Grid, lo: int, hi: int, numText: int -> string, name: string, r: int)
  {
    && lo <= r < hi
    && NamedRow(g, r, numText, name)
    && forall r' :: r < r' < hi ==> !NamedRow(g, r', numText, name)
  }

  /** A row not named `name` leaves the last row named `name` as it was. */
  lemma LastNamedRowExtends(g: Grid, lo: int, hi: int, numText: int -> string, name: string, r: int)
    requires lo < hi
    requires LastNamedRow(g, lo, hi - 1, numText, name, r)
    requires !NamedRow(g, hi - 1, numText, name)
    ensures LastNamedRow(g, lo, hi, numText, name, r)
  {
  }

  /** A name's details come from the LAST data row with that name; the lemma
      returns that row. */
  lemma {:induction false} TypeTableValue(g: Grid, hdrs: seq<Cell>, lo: int, hi: int, numText: int -> string, name: string)
      returns (r: int)
    requires 0 < |hdrs|
    requires Lookup(TypeTableUpTo(g, hdrs, lo, hi, numText), name).Some?
    ensures LastNamedRow(g, lo, hi, numText, name, r)
    ensures Lookup(TypeTableUpTo(g, hdrs, lo, hi, numText), name) == Some(TypeDetails(g, hdrs, r, numText))
    decreases hi - lo
  {
    TypeTableStep(g, hdrs, lo, hi, numText, name);
    if NamedRow(g, hi - 1, numText, name) {
      r := hi - 1;
    } else {
      r := TypeTableValue(g, hdrs, lo, hi - 1, numText, name);
      LastNamedRowExtends(g, lo, hi, numText, name, r);
    }
  }

  /** Each type name appears once in the table. */
  lemma {:induction false} TypeTableUnique(g: Grid, hdrs: seq<Cell>, lo: int, hi: int, numText: int -> string)
    requires 0 < |hdrs| || hi <= lo
    ensures UniqueKeys(TypeTableUpTo(g, hdrs, lo, hi, numText))
    decreases hi - lo
  {
    if hi > lo {
      TypeTableUnique(g, hdrs, lo, hi - 1, numText);
      var table := TypeTableUpTo(g, hdrs, lo, hi - 1, numText);
      if Present(At(g, hi - 1, 0)) {
        PutKeepsKeysUnique(table, Render(At(g, hi - 1, 0), numText), TypeDetails(g, hdrs, hi - 1, numText));
      }
    }
  }

  /** A type's details are text: they have the row's entry keys, in the same
      order; each detail name is the printed header of a column other than
      the key column, and its value is the printed form of that column's
      present, non-blank cell in the type's row. */
  lemma TypeDetailsSpec(g: Grid, hdrs: seq<Cell>, r: int, numText: int -> string, k: string)
    requires 0 < |hdrs|
    ensures Keys(TypeDetails(g, hdrs, r, numText)) == Keys(Entries(g, hdrs, r, numText))
    ensures UniqueKeys(TypeDetails(g, hdrs, r, numText))
    ensures Lookup(TypeDetails(g, hdrs, r, numText), k).Some? ==>
      exists c :: 0 < c < |hdrs| && hdrs[c] != hdrs[0] && Kept(At(g, r, c), numText)
        && Render(hdrs[c], numText) == k
        && Lookup(TypeDetails(g, hdrs, r, numText), k).value == Render(At(g, r, c), numText)
  {
    var entries := Entries(g, hdrs, r, numText);
    EntriesUpToUnique(g, hdrs, r, |hdrs|, numText);
    MapValuesKeys(entries, (v: Cell) => Render(v, numText));
    if Lookup(TypeDetails(g, hdrs, r, numText), k).Some? {
      MapValuesLookup(entries, (v: Cell) => Render(v, numText), k);
      assert Lookup(entries, k).Some?;
      var c := EntriesUpToValue(g, hdrs, r, |hdrs|, numText, k);
      assert Lookup(TypeDetails(g, hdrs, r, numText), k).value == Render(At(g, r, c), numText);
    }
  }
}
