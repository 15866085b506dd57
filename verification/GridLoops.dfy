/** `solve_by_lines` as the program runs it, on any clue lists at all: a line may also run into the
    `unreachable!` arm. On puzzles without a zero clue it is `GridSolver.Solve`. */
module GridLoops {
  import opened GridSolver
  import opened LineSolver
  import opened Options

  /** What sweeps come to. */
  datatype Attempt = Contradiction | Panic | Reached(grid: Grid)

  /** What the whole program comes to. */
  datatype Result = Panicked | Answered(answer: Option<Picture>)

  /** One line solved in place. */
  function Try(p: Puzzle, g: Grid, id: LineId): (r: Attempt)
    requires IsGrid(p, g) && HasLine(p, id)
    ensures r.Reached? ==> IsGrid(p, r.grid)
  {
    match Fold(Clues(p, id), LineOf(p, g, id))
    case NoPlacement => Contradiction
    case Unreachable => Panic
    case Agreed(cells) => Reached(PutLine(p, g, id, cells))
  }

  /** Lines in the order of `ids`, up to the first that fails. */
  function TryAll(p: Puzzle, g: Grid, ids: seq<LineId>): (r: Attempt)
    requires IsGrid(p, g) && HasLines(p, ids)
    ensures r.Reached? ==> IsGrid(p, r.grid)
  {
    if ids == [] then Reached(g)
    else
      var before := TryAll(p, g, ids[..|ids| - 1]);
      if before.Reached? then Try(p, before.grid, ids[|ids| - 1]) else before
  }

  // ----- no known cell is lost -----

  /** Even with a zero clue, known cells stay: a filled one cannot come out empty nor the other way round. */
  lemma FoldKeeps(clues: seq<nat>, line: seq<Cell>)
    requires Fold(clues, line).Agreed?
    ensures Refines(Fold(clues, line).cells, line)
  {
    hide Head, Tail, Before, After;
    forall i | 0 <= i < |line| && line[i] == Empty ensures !CanFill(clues, line, i) {}
  }

  lemma TryKeeps(p: Puzzle, g: Grid, id: LineId)
    requires IsGrid(p, g) && HasLine(p, id) && Try(p, g, id).Reached?
    ensures KnowsMore(p, Try(p, g, id).grid, g)
  {
    hide Fold;
    FoldKeeps(Clues(p, id), LineOf(p, g, id));
  }

  lemma {:induction false} TryAllKeeps(p: Puzzle, g: Grid, ids: seq<LineId>)
    requires IsGrid(p, g) && HasLines(p, ids) && TryAll(p, g, ids).Reached?
    ensures KnowsMore(p, TryAll(p, g, ids).grid, g)
  {
    hide Try;
    if ids == [] {
    } else {
      TryAllKeeps(p, g, ids[..|ids| - 1]);
      TryKeeps(p, TryAll(p, g, ids[..|ids| - 1]).grid, ids[|ids| - 1]);
    }
  }

  /** Passes until one moves nothing. */
  function TrySettle(p: Puzzle, g: Grid): (r: Attempt)
    requires IsGrid(p, g)
    ensures r.Reached? ==> IsGrid(p, r.grid)
    decreases Unknowns(g)
  {
    var pass := TryAll(p, g, AllLines(p));
    if !pass.Reached? then pass
    else if pass.grid == g then Reached(g)
    else
      TryAllKeeps(p, g, AllLines(p));
      MovingLowersUnknowns(p, pass.grid, g);
      TrySettle(p, pass.grid)
  }

  function SolveAny(p: Puzzle): Result {
    match TrySettle(p, Blank(p))
    case Contradiction => Answered(None)
    case Panic => Panicked
    case Reached(g) => Answered(ReadOut(g))
  }

  // ----- the same as the meaning, without a zero clue -----

  function AttemptOf(r: Option<Grid>): Attempt { if r.Some? then Reached(r.value) else Contradiction }

  lemma TryIsSweep(p: Puzzle, g: Grid, id: LineId)
    requires Posed(p) && IsGrid(p, g) && HasLine(p, id)
    ensures Try(p, g, id) == AttemptOf(Sweep(p, g, id))
  {
    hide Fold;
    FoldIsDeduce(Clues(p, id), LineOf(p, g, id));
  }

  lemma {:induction false} TryAllIsRun(p: Puzzle, g: Grid, ids: seq<LineId>)
    requires Posed(p) && IsGrid(p, g) && HasLines(p, ids)
    ensures TryAll(p, g, ids) == AttemptOf(Run(p, g, ids))
  {
    hide Try, Sweep;
    if ids == [] {
    } else {
      TryAllIsRun(p, g, ids[..|ids| - 1]);
      var before := Run(p, g, ids[..|ids| - 1]);
      if before.Some? { TryIsSweep(p, before.value, ids[|ids| - 1]); }
    }
  }

  lemma {:induction false} TrySettleIsSettle(p: Puzzle, g: Grid)
    requires Posed(p) && IsGrid(p, g)
    ensures TrySettle(p, g) == AttemptOf(Settle(p, g))
    decreases Unknowns(g)
  {
    hide TryAll, Run;
    TryAllIsRun(p, g, AllLines(p));
    var pass := Run(p, g, AllLines(p));
    if pass.Some? && pass.value != g {
      RunKeeps(p, g, AllLines(p));
      MovingLowersUnknowns(p, pass.value, g);
      TrySettleIsSettle(p, pass.value);
    }
  }

  /** Without a zero clue the program does not panic, and computes the meaning. */
  lemma PosedIsSolved(p: Puzzle)
    requires Posed(p)
    ensures SolveAny(p) == Answered(Solve(p))
  {
    TrySettleIsSettle(p, Blank(p));
  }

  // ----- when the program panics -----

  ghost predicate LastCluesPositive(p: Puzzle) {
    && (forall r :: 0 <= r < |p.rows| ==> !EndsInZero(p.rows[r]))
    && (forall c :: 0 <= c < |p.cols| ==> !EndsInZero(p.cols[c]))
  }

  lemma TryNeverPanics(p: Puzzle, g: Grid, id: LineId)
    requires LastCluesPositive(p) && IsGrid(p, g) && HasLine(p, id)
    ensures Try(p, g, id) != Panic
  {
    hide Fold, EndsInZero;
    NeverUnreachableIff(Clues(p, id));
  }

  lemma {:induction false} TryAllNeverPanics(p: Puzzle, g: Grid, ids: seq<LineId>)
    requires LastCluesPositive(p) && IsGrid(p, g) && HasLines(p, ids)
    ensures TryAll(p, g, ids) != Panic
  {
    hide Try, LastCluesPositive;
    if ids == [] {
    } else {
      TryAllNeverPanics(p, g, ids[..|ids| - 1]);
      var before := TryAll(p, g, ids[..|ids| - 1]);
      if before.Reached? { TryNeverPanics(p, before.grid, ids[|ids| - 1]); }
    }
  }

  lemma {:induction false} TrySettleNeverPanics(p: Puzzle, g: Grid)
    requires LastCluesPositive(p) && IsGrid(p, g)
    ensures TrySettle(p, g) != Panic
    decreases Unknowns(g)
  {
    hide TryAll, LastCluesPositive;
    TryAllNeverPanics(p, g, AllLines(p));
    var pass := TryAll(p, g, AllLines(p));
    if pass.Reached? && pass.grid != g {
      TryAllKeeps(p, g, AllLines(p));
      MovingLowersUnknowns(p, pass.grid, g);
      TrySettleNeverPanics(p, pass.grid);
    }
  }

  /** A zero clue elsewhere than at the end of its list does no harm. */
  lemma NoPanicWithoutLastZero(p: Puzzle)
    requires LastCluesPositive(p)
    ensures SolveAny(p) != Panicked
  {
    hide TrySettle, LastCluesPositive;
    TrySettleNeverPanics(p, Blank(p));
  }

  /** One row of clues over columns. */
  function OneRow(clues: seq<nat>, cols: seq<seq<nat>>): Puzzle { Puzzle([clues], cols) }

  lemma {:induction false} TryStops(p: Puzzle, g: Grid, ids: seq<LineId>, k: nat)
    requires IsGrid(p, g) && HasLines(p, ids) && k <= |ids| && !TryAll(p, g, ids[..k]).Reached?
    ensures TryAll(p, g, ids) == TryAll(p, g, ids[..k])
    decreases |ids|
  {
    if k == |ids| {
      assert ids[..k] == ids;
    } else {
      assert ids[..|ids| - 1][..k] == ids[..k];
      TryStops(p, g, ids[..|ids| - 1], k);
    }
  }

  /** The very first line of the very first pass. */
  lemma FirstLinePanics(clues: seq<nat>, cols: seq<seq<nat>>)
    requires Fold(clues, Open(|cols|)) == Unreachable
    ensures SolveAny(OneRow(clues, cols)) == Panicked
  {
    hide Fold;
    var p := OneRow(clues, cols);
    var ids := AllLines(p);
    assert ids[..1] == [Row(0)] && [Row(0)][..0] == [];
    assert LineOf(p, Blank(p), Row(0)) == Open(|cols|);
    assert Try(p, Blank(p), Row(0)) == Panic;
    assert TryAll(p, Blank(p), [Row(0)]) == Panic;
    TryStops(p, Blank(p), ids, 1);
  }

  lemma RowAndColumns(clues: seq<nat>, cols: seq<seq<nat>>)
    requires !EndsInZero(clues) && LastCluesPositive(Puzzle([], cols))
    ensures LastCluesPositive(OneRow(clues, cols))
  {
    hide EndsInZero;
  }

  /** The smallest puzzle that panics: a row with the clue 0 over one column without clues. */
  lemma ZeroCluePanics()
    ensures SolveAny(Puzzle([[0]], [[]])) == Panicked
  {
    hide SolveAny, Fold;
    ZeroClueIsUnreachable();
    assert Open(1) == [Unknown];
    FirstLinePanics([0], [[]]);
  }

  /** A row's clues are safe over all columns whose own clues are, exactly when they do not end in zero. */
  lemma RowNeverPanicsIff(clues: seq<nat>)
    ensures (forall cols :: LastCluesPositive(Puzzle([], cols)) ==> SolveAny(OneRow(clues, cols)) != Panicked)
            <==> !EndsInZero(clues)
  {
    hide SolveAny, Fold;
    if EndsInZero(clues) {
      var n := ShortestOpenJams(clues);
      var cols: seq<seq<nat>> := seq(n, _ => []);
      FirstLinePanics(clues, cols);
      assert LastCluesPositive(Puzzle([], cols));
    } else {
      forall cols | LastCluesPositive(Puzzle([], cols)) ensures SolveAny(OneRow(clues, cols)) != Panicked {
        RowAndColumns(clues, cols);
        NoPanicWithoutLastZero(OneRow(clues, cols));
      }
    }
  }

  // ----- one pass, line by line -----

  lemma {:induction false} TryConcat(p: Puzzle, g: Grid, a: seq<LineId>, b: seq<LineId>)
    requires IsGrid(p, g) && HasLines(p, a) && HasLines(p, b)
    ensures HasLines(p, a + b)
    ensures TryAll(p, g, a + b) ==
            if TryAll(p, g, a).Reached? then TryAll(p, TryAll(p, g, a).grid, b) else TryAll(p, g, a)
  {
    hide Try;
    if b == [] {
      assert a + b == a;
    } else {
      var b' := b[..|b| - 1];
      TryConcat(p, g, a, b');
      assert (a + b)[..|a + b| - 1] == a + b';
      assert (a + b)[|a + b| - 1] == b[|b| - 1];
    }
  }

  /** A grid that left `start` never comes back to it. */
  lemma StepMoves(p: Puzzle, start: Grid, ids: seq<LineId>, grid: Grid, id: LineId)
    requires IsGrid(p, start) && HasLines(p, ids) && TryAll(p, start, ids) == Reached(grid)
    requires HasLine(p, id) && Try(p, grid, id).Reached?
    ensures Try(p, grid, id).grid == start ==> grid == start
  {
    hide Try, TryAll;
    TryAllKeeps(p, start, ids);
    TryKeeps(p, grid, id);
    if Try(p, grid, id).grid == start {
      KnowsMoreAntisymmetric(p, grid, start);
    }
  }

  /** What the next line does to a pass under way. */
  lemma Turn(p: Puzzle, start: Grid, ids: seq<LineId>, k: nat, grid: Grid)
    requires IsGrid(p, start) && HasLines(p, ids) && k < |ids| && TryAll(p, start, ids[..k]) == Reached(grid)
    ensures TryAll(p, start, ids[..k + 1]) == Try(p, grid, ids[k])
    ensures !Try(p, grid, ids[k]).Reached? ==> TryAll(p, start, ids) == Try(p, grid, ids[k])
    ensures Try(p, grid, ids[k]) == Reached(start) ==> grid == start
  {
    hide Try;
    assert ids[..k + 1][..k] == ids[..k];
    if Try(p, grid, ids[k]).Reached? {
      StepMoves(p, start, ids[..k], grid, ids[k]);
    } else {
      TryStops(p, start, ids, k + 1);
    }
  }

  /** `solve_line(clues, &line)?` on one row, written back when it moved. */
  method SweepRow(p: Puzzle, g: Grid, row: nat) returns (r: Attempt, moved: bool)
    requires IsGrid(p, g) && row < |p.rows|
    ensures r == Try(p, g, Row(row))
    ensures moved <==> r.Reached? && r.grid != g
  {
    hide Fold;
    var line := g[row];
    var solved := SolveLine(p.rows[row], line);
    match solved
    case NoPlacement => return Contradiction, false;
    case Unreachable => return Panic, false;
    case Agreed(cells) =>
      if cells != line {
        return Reached(g[row := cells]), true;
      }
      assert g[row := cells] == g;
      return Reached(g), false;
  }

  method GatherCol(p: Puzzle, g: Grid, col: nat) returns (line: seq<Cell>)
    requires IsGrid(p, g) && col < |p.cols|
    ensures line == LineOf(p, g, Col(col))
  {
    line := [];
    for row := 0 to |g|
      invariant |line| == row && forall x :: 0 <= x < row ==> line[x] == g[x][col]
    {
      line := line + [g[row][col]];
    }
  }

  method WriteCol(p: Puzzle, g: Grid, col: nat, cells: seq<Cell>) returns (h: Grid)
    requires IsGrid(p, g) && col < |p.cols| && |cells| == |g|
    ensures h == PutLine(p, g, Col(col), cells)
  {
    h := g;
    for row := 0 to |g|
      invariant |h| == |g|
      invariant forall x :: 0 <= x < row ==> h[x] == g[x][col := cells[x]]
      invariant forall x :: row <= x < |g| ==> h[x] == g[x]
    {
      h := h[row := h[row][col := cells[row]]];
    }
  }

  lemma PutLineMoves(p: Puzzle, g: Grid, id: LineId, cells: seq<Cell>)
    requires IsGrid(p, g) && HasLine(p, id) && |cells| == |LineOf(p, g, id)|
    ensures PutLine(p, g, id, cells) == g <==> cells == LineOf(p, g, id)
  {
    var line, h := LineOf(p, g, id), PutLine(p, g, id, cells);
    if id.Col? && cells != line {
      var x :| 0 <= x < |line| && cells[x] != line[x];
      assert h[x][id.i] != g[x][id.i];
    }
    if cells == line {
      forall r | 0 <= r < |g| ensures h[r] == g[r] {}
    }
  }

  /** The same for one column, whose cells are gathered and written back one by one. */
  method SweepCol(p: Puzzle, g: Grid, col: nat) returns (r: Attempt, moved: bool)
    requires IsGrid(p, g) && col < |p.cols|
    ensures r == Try(p, g, Col(col))
    ensures moved <==> r.Reached? && r.grid != g
  {
    var line := GatherCol(p, g, col);
    var solved := SolveLine(p.cols[col], line);
    match solved
    case NoPlacement => return Contradiction, false;
    case Unreachable => return Panic, false;
    case Agreed(cells) =>
      PutLineMoves(p, g, Col(col), cells);
      if cells == line {
        return Reached(g), false;
      }
      var h := WriteCol(p, g, col, cells);
      return Reached(h), true;
  }

  /** The row half and the column half of one turn of the outer loop. */
  method PassRows(p: Puzzle, start: Grid) returns (r: Attempt, moved: bool)
    requires IsGrid(p, start)
    ensures HasLines(p, RowIds(p)) && r == TryAll(p, start, RowIds(p))
    ensures r.Reached? ==> (moved <==> r.grid != start)
  {
    hide Try;
    ghost var ids := RowIds(p);
    var grid := start;
    moved := false;
    for row := 0 to |p.rows|
      invariant IsGrid(p, grid) && TryAll(p, start, ids[..row]) == Reached(grid)
      invariant moved <==> grid != start
    {
      Turn(p, start, ids, row, grid);
      var next, changed := SweepRow(p, grid, row);
      if !next.Reached? {
        return next, moved;
      }
      grid, moved := next.grid, moved || changed;
    }
    assert ids[..|p.rows|] == ids;
    r := Reached(grid);
  }

  method PassCols(p: Puzzle, start: Grid) returns (r: Attempt, moved: bool)
    requires IsGrid(p, start)
    ensures HasLines(p, ColIds(p)) && r == TryAll(p, start, ColIds(p))
    ensures r.Reached? ==> (moved <==> r.grid != start)
  {
    hide Try;
    ghost var ids := ColIds(p);
    var grid := start;
    moved := false;
    for col := 0 to |p.cols|
      invariant IsGrid(p, grid) && TryAll(p, start, ids[..col]) == Reached(grid)
      invariant moved <==> grid != start
    {
      Turn(p, start, ids, col, grid);
      var next, changed := SweepCol(p, grid, col);
      if !next.Reached? {
        return next, moved;
      }
      grid, moved := next.grid, moved || changed;
    }
    assert ids[..|p.cols|] == ids;
    r := Reached(grid);
  }

  /** One turn of the outer loop. `moved` says whether any line changed. */
  method Pass(p: Puzzle, start: Grid) returns (r: Attempt, moved: bool)
    requires IsGrid(p, start)
    ensures HasLines(p, AllLines(p)) && r == TryAll(p, start, AllLines(p))
    ensures r.Reached? ==> (moved <==> r.grid != start)
  {
    hide Try, TryAll;
    var half, movedRows := PassRows(p, start);
    TryConcat(p, start, RowIds(p), ColIds(p));
    if !half.Reached? {
      return half, movedRows;
    }
    var movedCols;
    r, movedCols := PassCols(p, half.grid);
    moved := movedRows || movedCols;
    if r.Reached? {
      TryAllKeeps(p, start, RowIds(p));
      TryAllKeeps(p, half.grid, ColIds(p));
      if r.grid == start { KnowsMoreAntisymmetric(p, half.grid, start); }
    }
  }

  /** `solve_by_lines`. */
  method SolveByLines(p: Puzzle) returns (r: Result)
    ensures r == SolveAny(p)
    ensures Posed(p) ==> r == Answered(Solve(p))
  {
    hide TryAll, Solve;
    if Posed(p) { PosedIsSolved(p); }
    var grid := Blank(p);
    while true
      invariant IsGrid(p, grid) && TrySettle(p, Blank(p)) == TrySettle(p, grid)
      decreases Unknowns(grid)
    {
      var next, moved := Pass(p, grid);
      match next {
        case Contradiction => return Answered(None);
        case Panic => return Panicked;
        case Reached(h) =>
          if !moved {
            break;
          }
          TryAllKeeps(p, grid, AllLines(p));
          MovingLowersUnknowns(p, h, grid);
          grid := h;
      }
    }
    r := Answered(ReadOut(grid));
  }
}
