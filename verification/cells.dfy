/** The spreadsheet as the reader hands it over: a frame of rows of cells,
    read without a header row.  A cell is absent (NaN), a string or a number.
    Rows may be ragged; a cell beyond a row's end reads as absent, as it does
    in the padded frame. */
module Cells {
  import opened Text

  datatype Cell = Absent | Str(s: string) | Num(n: int)

  type Row = seq<Cell>
  type Grid = seq<Row>

  /** `pd.notna(v)`. */
  predicate Present(c: Cell)
  {
    !c.Absent?
  }

  /** `df.iloc[r, c]`, reading absent outside the cells the reader produced. */
  function At(g: Grid, r: int, c: int): Cell
  {
    if 0 <= r < |g| && 0 <= c < |g[r]| then g[r][c] else Absent
  }

  /** The number of columns of the frame: the length of its longest row. */
  function Width(g: Grid): nat
  {
    if g == [] then 0
    else
      var w' := Width(g[..|g| - 1]);
      var last := |g[|g| - 1]|;
      if last >= w' then last else w'
  }

  /** The width is the length of the longest row: no row is longer, and some
      row is that long unless the width is 0. */
  lemma {:induction false} WidthSpec(g: Grid)
    ensures forall r :: 0 <= r < |g| ==> |g[r]| <= Width(g)
    ensures Width(g) == 0 || exists r :: 0 <= r < |g| && |g[r]| == Width(g)
  {
    if g != [] {
      WidthSpec(g[..|g| - 1]);
      assert forall r :: 0 <= r < |g| - 1 ==> g[..|g| - 1][r] == g[r];
    }
  }

  /** No cell at or beyond the frame's width is present. */
  lemma AbsentBeyondWidth(g: Grid, r: int, c: int)
    requires c >= Width(g)
    ensures At(g, r, c) == Absent
  {
    WidthSpec(g);
  }

  /** `str(v)`, and equally the text an f-string puts in for `v`.  How a number
      prints (an integer, or a float such as `1.0`) is decided by the reader
      and by Python, so it is the parameter `numText`. */
  function Render(c: Cell, numText: int -> string): string
  {
    match c
    case Absent => "nan"
    case Str(s) => s
    case Num(n) => numText(n)
  }

  /** The filter of the comprehensions, `pd.notna(v) and str(v).strip() != ""`,
      with the blank test stated as "every character is whitespace" (see `KeptIff`). */
  predicate Kept(c: Cell, numText: int -> string)
  {
    Present(c) && !AllSpace(Render(c, numText))
  }

  /** `Kept` is exactly the source's test. */
  lemma KeptIff(c: Cell, numText: int -> string)
    ensures Kept(c, numText) <==> Present(c) && Strip(Render(c, numText)) != []
  {
    StripEmptyIff(Render(c, numText));
  }

  /** `row.dropna().tolist()`: the present cells of a row, in column order. */
  function Headers(row: Row): seq<Cell>
  {
    if row == [] then []
    else if Present(row[0]) then [row[0]] + Headers(row[1..])
    else Headers(row[1..])
  }

  /** The header names are the row's present cells, each as often as it
      occurs, so there are as many names as present cells. */
  lemma {:induction false} HeadersSpec(row: Row)
    ensures forall i :: 0 <= i < |Headers(row)| ==> Present(Headers(row)[i])
    ensures multiset(Headers(row)) == multiset(row)[Absent := 0]
    ensures |Headers(row)| == |row| - multiset(row)[Absent]
  {
    if row != [] {
      HeadersSpec(row[1..]);
      assert row == [row[0]] + row[1..];
    }
  }

  /** `row[0]` on a row whose columns are named `hdrs` reads column 0 by
      position only while no header is a number; once one is, 0 is a column
      label, and here no column carries it. */
  predicate ZeroLabelMissing(hdrs: seq<Cell>)
  {
    (exists c :: c in hdrs && c.Num?) && Num(0) !in hdrs
  }

  /** Dropping absent cells keeps the column order: the headers of two
      adjoining stretches of a row are the first stretch's, then the second's. */
  lemma {:induction false} HeadersAppend(a: Row, b: Row)
    ensures Headers(a + b) == Headers(a) + Headers(b)
  {
    if a == [] {
      assert a + b == b;
    } else {
      HeadersAppend(a[1..], b);
      assert (a + b)[1..] == a[1..] + b;
      if Present(a[0]) {
        assert [a[0]] + (Headers(a[1..]) + Headers(b)) == [a[0]] + Headers(a[1..]) + Headers(b);
      }
    }
  }
}
