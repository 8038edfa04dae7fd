/** The links block (lines 76-88): rows from `links + 2` to the end, only
    columns 0-3 read; a row with any of those four cells absent is dropped,
    every other row adds three fixed-shape lines after the leading `links:`. */
module Links {
  import opened Outcomes
  import opened Text
  import opened Cells

  const LinksHeader := "links:"
  const ConnectionLine := "    - connection:"

  /** `f"        - {a}:{b}"`. */
  function Endpoint(a: Cell, b: Cell, numText: int -> string): string
  {
    "        - " + Render(a, numText) + ":" + Render(b, numText)
  }

  /** All of columns 0-3 of row `r` are present. */
  predicate Complete(g: Grid, r: int)
  {
    Present(At(g, r, 0)) && Present(At(g, r, 1)) && Present(At(g, r, 2)) && Present(At(g, r, 3))
  }

  /** The three lines a kept row contributes. */
  function Block(g: Grid, r: int, numText: int -> string): seq<string>
  {
    [ConnectionLine, Endpoint(At(g, r, 0), At(g, r, 1), numText), Endpoint(At(g, r, 2), At(g, r, 3), numText)]
  }

  /** The lines added by rows `lo .. hi-1`. */
  function LinkBlocks(g: Grid, lo: int, hi: int, numText: int -> string): seq<string>
    decreases hi - lo
  {
    if hi <= lo then []
    else LinkBlocks(g, lo, hi - 1, numText) + (if Complete(g, hi - 1) then Block(g, hi - 1, numText) else [])
  }

  /** `links_yaml_lines` after rows `lo .. hi-1`. */
  function LinesUpTo(g: Grid, lo: int, hi: int, numText: int -> string): seq<string>
  {
    [LinksHeader] + LinkBlocks(g, lo, hi, numText)
  }

  /** `links_yaml_lines` once every row from `lo` on has been seen. */
  function LinkLines(g: Grid, lo: int, numText: int -> string): seq<string>
  {
    LinesUpTo(g, lo, |g|, numText)
  }

  /** The number of complete rows among `lo .. hi-1`. */
  function CompleteRows(g: Grid, lo: int, hi: int): nat
    decreases hi - lo
  {
    if hi <= lo then 0 else CompleteRows(g, lo, hi - 1) + (if Complete(g, hi - 1) then 1 else 0)
  }

  /** Reading `row[i]` for `i` in `range(4)` stops at the first absent cell;
      when the frame has fewer than four columns and every column of row `r`
      is present, it reaches a column that does not exist and fails. */
  predicate ReadFails(g: Grid, r: int, w: nat)
  {
    w < 4 && forall c :: 0 <= c < w ==> Present(At(g, r, c))
  }

  /** The first row from `i` on whose read fails, if any. */
  function FirstReadFailure(g: Grid, i: int, w: nat): Option<nat>
    decreases |g| - i
  {
    if i >= |g| then None
    else if ReadFails(g, i, w) then (if i >= 0 then Some(i) else None)
    else FirstReadFailure(g, i + 1, w)
  }

  /** What the links stage produces: the first failing read, or the lines. */
  function LinksOutcome(g: Grid, lo: nat, numText: int -> string): Result<seq<string>>
  {
    match FirstReadFailure(g, lo, Width(g))
    case Some(r) => Err(NarrowLinks(r))
    case None => Ok(LinkLines(g, lo, numText))
  }

  /** `any(pd.isna(row[i]) for i in range(4))` on row `r` of a frame `w`
      columns wide: either the read of a missing column fails, or the answer
      is whether the row is incomplete. */
  method AnyAbsent(g: Grid, r: int, w: nat) returns (fails: bool, absent: bool)
    ensures fails == ReadFails(g, r, w)
    ensures !fails ==> (absent <==> !Complete(g, r))
  {
    var c := 0;
    absent := false;
    while c < 4 && !absent
      invariant 0 <= c <= 4 && c <= w
      invariant forall c' :: 0 <= c' < c ==> Present(At(g, r, c'))
      invariant absent ==> c < 4 && c < w && !Present(At(g, r, c))
      decreases 4 - c, !absent
    {
      if c >= w {
        return true, false;
      }
      if !Present(At(g, r, c)) {
        absent := true;
      } else {
        c := c + 1;
      }
    }
    fails := false;
  }

  /** One row of the links loop: a row whose read succeeds passes the search
      for a failing read on, and adds its block exactly when it is complete. */
  lemma LinksStep(g: Grid, lo: int, i: int, w: nat, numText: int -> string)
    requires lo <= i < |g| && !ReadFails(g, i, w)
    ensures FirstReadFailure(g, i, w) == FirstReadFailure(g, i + 1, w)
    ensures LinesUpTo(g, lo, i + 1, numText) ==
      LinesUpTo(g, lo, i, numText) + if Complete(g, i) then Block(g, i, numText) else []
  {
  }

  /** A row whose read fails is the first failure from itself on. */
  lemma FailsHere(g: Grid, i: int, w: nat)
    requires 0 <= i < |g| && ReadFails(g, i, w)
    ensures FirstReadFailure(g, i, w) == Some(i)
  {
  }

  /** From past the last row on, nothing fails and no block is added. */
  lemma LinksPastEnd(g: Grid, lo: int, numText: int -> string)
    requires |g| <= lo
    ensures LinksOutcome(g, lo, numText) == Ok([LinksHeader])
  {
    assert FirstReadFailure(g, lo, Width(g)) == None;
    assert LinkBlocks(g, lo, |g|, numText) == [];
    assert LinkLines(g, lo, numText) == [LinksHeader];
  }

  /** The body of the loop of lines 80-86 for row `i`: the read fails, or the
      row adds its three lines when complete and nothing otherwise. */
  method RowLines(g: Grid, i: int, w: nat, numText: int -> string) returns (fails: bool, block: seq<string>)
    ensures fails == ReadFails(g, i, w)
    ensures !fails ==> block == if Complete(g, i) then Block(g, i, numText) else []
  {
    var absent;
    fails, absent := AnyAbsent(g, i, w);
    block := [];
    if !fails && !absent {
      block := [ConnectionLine, Endpoint(At(g, i, 0), At(g, i, 1), numText), Endpoint(At(g, i, 2), At(g, i, 3), numText)];
    }
  }

  /** The loop of lines 80-86. */
  method BuildLinkLines(g: Grid, lo: nat, numText: int -> string) returns (res: Result<seq<string>>)
    ensures res == LinksOutcome(g, lo, numText)
  {
    var w := Width(g);
    var lines := [LinksHeader];
    if |g| <= lo {
      LinksPastEnd(g, lo, numText);
      return Ok(lines);
    }
    var i := lo;
    while i < |g|
      invariant lo <= i <= |g|
      invariant lines == LinesUpTo(g, lo, i, numText)
      invariant FirstReadFailure(g, lo, w) == FirstReadFailure(g, i, w)
    {
      var fails, block := RowLines(g, i, w, numText);
      if fails {
        FailsHere(g, i, w);
        return Err(NarrowLinks(i));
      }
      LinksStep(g, lo, i, w, numText);
      lines := lines + block;
      i := i + 1;
    }
    res := Ok(lines);
  }

  /** The links lines start with `links:` and hold three lines per complete row. */
  lemma {:induction false} LinkBlocksCount(g: Grid, lo: int, hi: int, numText: int -> string)
    ensures |LinkBlocks(g, lo, hi, numText)| == 3 * CompleteRows(g, lo, hi)
    decreases hi - lo
  {
    if hi > lo {
      LinkBlocksCount(g, lo, hi - 1, numText);
    }
  }

  lemma LinkLinesShape(g: Grid, lo: int, numText: int -> string)
    ensures LinkLines(g, lo, numText)[0] == LinksHeader
    ensures |LinkLines(g, lo, numText)| == 1 + 3 * CompleteRows(g, lo, |g|)
  {
    LinkBlocksCount(g, lo, |g|, numText);
  }

  /** Only columns 0-3 matter, and a row with an absent cell among them
      contributes nothing: two frames whose rows agree on completeness, and on
      columns 0-3 where complete, give the same lines. */
  lemma {:induction false} LinkBlocksReadOnlyFourColumns(g: Grid, g': Grid, lo: int, hi: int, numText: int -> string)
    requires forall r :: lo <= r < hi ==> (Complete(g, r) <==> Complete(g', r))
    requires forall r, c :: lo <= r < hi && 0 <= c < 4 && Complete(g, r) ==> At(g, r, c) == At(g', r, c)
    ensures LinkBlocks(g, lo, hi, numText) == LinkBlocks(g', lo, hi, numText)
    decreases hi - lo
  {
    if hi > lo {
      LinkBlocksReadOnlyFourColumns(g, g', lo, hi - 1, numText);
      var r := hi - 1;
      if Complete(g, r) {
        assert forall c :: 0 <= c < 4 ==> At(g, r, c) == At(g', r, c);
      }
    }
  }

  /** A frame with at least four columns never fails the read; a narrower one
      has no complete row, so its links block is the header line alone. */
  lemma {:induction false} NarrowFrameHasNoLinks(g: Grid, lo: int, hi: int, numText: int -> string)
    requires Width(g) < 4
    ensures LinkBlocks(g, lo, hi, numText) == []
    decreases hi - lo
  {
    if hi > lo {
      NarrowFrameHasNoLinks(g, lo, hi - 1, numText);
      AbsentBeyondWidth(g, hi - 1, 3);
    }
  }

  lemma {:induction false} WideFrameNeverFails(g: Grid, i: int, w: nat)
    requires w >= 4
    ensures FirstReadFailure(g, i, w) == None
    decreases |g| - i
  {
    if i < |g| {
      WideFrameNeverFails(g, i + 1, w);
    }
  }

  /** When no printed endpoint contains a line break, splitting the joined
      block on line breaks gives back its `1 + 3k` lines. */
  lemma LinksTextLines(g: Grid, lo: int, numText: int -> string)
    requires forall r, c :: lo <= r < |g| && 0 <= c < 4 && Complete(g, r) ==> '\n' !in Render(At(g, r, c), numText)
    ensures Split(Join(LinkLines(g, lo, numText), "\n"), '\n') == LinkLines(g, lo, numText)
    ensures |Split(Join(LinkLines(g, lo, numText), "\n"), '\n')| == 1 + 3 * CompleteRows(g, lo, |g|)
  {
    LinkLinesShape(g, lo, numText);
    LinkBlocksNoBreaks(g, lo, |g|, numText);
    SplitJoin(LinkLines(g, lo, numText), '\n');
  }

  lemma {:induction false} LinkBlocksNoBreaks(g: Grid, lo: int, hi: int, numText: int -> string)
    requires forall r, c :: lo <= r < hi && 0 <= c < 4 && Complete(g, r) ==> '\n' !in Render(At(g, r, c), numText)
    ensures forall i :: 0 <= i < |LinkBlocks(g, lo, hi, numText)| ==> '\n' !in LinkBlocks(g, lo, hi, numText)[i]
    decreases hi - lo
  {
    if hi > lo {
      LinkBlocksNoBreaks(g, lo, hi - 1, numText);
      if Complete(g, hi - 1) {
        var a, b, c, d := Render(At(g, hi - 1, 0), numText), Render(At(g, hi - 1, 1), numText),
                          Render(At(g, hi - 1, 2), numText), Render(At(g, hi - 1, 3), numText);
        assert '\n' !in a && '\n' !in b && '\n' !in c && '\n' !in d;
        assert '\n' !in Endpoint(At(g, hi - 1, 0), At(g, hi - 1, 1), numText);
        assert '\n' !in Endpoint(At(g, hi - 1, 2), At(g, hi - 1, 3), numText);
      }
    }
  }
}
