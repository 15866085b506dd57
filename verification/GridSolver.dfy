/** `solve_by_lines`: line logic swept over rows and columns until nothing moves.

    The meaning of a puzzle is the set of its answers; what the solver computes is the one stable
    grid that every fair order of sweeps from the blank grid settles on. */
module GridSolver {
  import opened LineClues
  import opened LineSolver
  import opened Options

  type Grid = seq<seq<Cell>>
  type Picture = seq<seq<bool>>

  datatype Puzzle = Puzzle(rows: seq<seq<nat>>, cols: seq<seq<nat>>)
  datatype LineId = Row(i: nat) | Col(i: nat)

  ghost predicate Posed(p: Puzzle) {
    && (forall r :: 0 <= r < |p.rows| ==> Positive(p.rows[r]))
    && (forall c :: 0 <= c < |p.cols| ==> Positive(p.cols[c]))
  }

  predicate IsGrid(p: Puzzle, g: Grid) {
    |g| == |p.rows| && forall r :: 0 <= r < |g| ==> |g[r]| == |p.cols|
  }

  predicate HasLine(p: Puzzle, id: LineId) {
    match id case Row(i) => i < |p.rows| case Col(i) => i < |p.cols|
  }

  function Clues(p: Puzzle, id: LineId): seq<nat>
    requires HasLine(p, id)
  {
    match id case Row(i) => p.rows[i] case Col(i) => p.cols[i]
  }

  function LineOf(p: Puzzle, g: Grid, id: LineId): seq<Cell>
    requires IsGrid(p, g) && HasLine(p, id)
  {
    match id
    case Row(i) => g[i]
    case Col(i) => seq(|g|, r requires 0 <= r < |g| => g[r][i])
  }

  function PutLine(p: Puzzle, g: Grid, id: LineId, cells: seq<Cell>): (h: Grid)
    requires IsGrid(p, g) && HasLine(p, id) && |cells| == |LineOf(p, g, id)|
    ensures IsGrid(p, h)
  {
    match id
    case Row(i) => g[i := cells]
    case Col(i) => seq(|g|, r requires 0 <= r < |g| => g[r][i := cells[r]])
  }

  function Blank(p: Puzzle): (g: Grid)
    ensures IsGrid(p, g)
  {
    seq(|p.rows|, _ => seq(|p.cols|, _ => Unknown))
  }

  // ----- sweeps -----

  /** One line solved in place; `None` when its clues contradict the grid. */
  ghost function Sweep(p: Puzzle, g: Grid, id: LineId): (r: Option<Grid>)
    requires IsGrid(p, g) && HasLine(p, id)
    ensures r.Some? ==> IsGrid(p, r.value)
  {
    var solved := Deduce(Clues(p, id), LineOf(p, g, id));
    if solved.Agreed? then Some(PutLine(p, g, id, solved.cells)) else None
  }

  ghost predicate HasLines(p: Puzzle, ids: seq<LineId>) {
    forall k :: 0 <= k < |ids| ==> HasLine(p, ids[k])
  }

  /** Sweeps in the order of `ids`, stopping at a contradiction. */
  ghost function Run(p: Puzzle, g: Grid, ids: seq<LineId>): (r: Option<Grid>)
    requires IsGrid(p, g) && HasLines(p, ids)
    ensures r.Some? ==> IsGrid(p, r.value)
  {
    if ids == [] then Some(g)
    else
      var before := Run(p, g, ids[..|ids| - 1]);
      if before.Some? then Sweep(p, before.value, ids[|ids| - 1]) else None
  }

  /** No sweep of any line changes the grid or contradicts it. */
  ghost predicate Stable(p: Puzzle, g: Grid)
    requires IsGrid(p, g)
  {
    forall id :: HasLine(p, id) ==> Sweep(p, g, id) == Some(g)
  }

  /** `h` knows every cell `g` knows. */
  ghost predicate KnowsMore(p: Puzzle, h: Grid, g: Grid)
    requires IsGrid(p, g) && IsGrid(p, h)
  {
    forall r, c :: 0 <= r < |p.rows| && 0 <= c < |p.cols| && g[r][c] != Unknown ==> h[r][c] == g[r][c]
  }

  lemma KnowsMoreAntisymmetric(p: Puzzle, g: Grid, h: Grid)
    requires IsGrid(p, g) && IsGrid(p, h) && KnowsMore(p, h, g) && KnowsMore(p, g, h)
    ensures g == h
  {
    forall r | 0 <= r < |g| ensures g[r] == h[r] {
      forall c | 0 <= c < |p.cols| ensures g[r][c] == h[r][c] {}
    }
  }

  lemma LineKnowsMore(p: Puzzle, h: Grid, g: Grid, id: LineId)
    requires IsGrid(p, g) && IsGrid(p, h) && HasLine(p, id) && KnowsMore(p, h, g)
    ensures Refines(LineOf(p, h, id), LineOf(p, g, id))
  {
  }

  /** No known cell ever changes. */
  lemma SweepKeeps(p: Puzzle, g: Grid, id: LineId)
    requires IsGrid(p, g) && HasLine(p, id) && Sweep(p, g, id).Some?
    ensures KnowsMore(p, Sweep(p, g, id).value, g)
  {
    DeduceKeeps(Clues(p, id), LineOf(p, g, id));
  }

  lemma SweepMonotone(p: Puzzle, g: Grid, more: Grid, id: LineId)
    requires IsGrid(p, g) && IsGrid(p, more) && HasLine(p, id)
    requires KnowsMore(p, more, g) && Sweep(p, more, id).Some?
    ensures Sweep(p, g, id).Some? && KnowsMore(p, Sweep(p, more, id).value, Sweep(p, g, id).value)
  {
    LineKnowsMore(p, more, g, id);
    DeduceMonotone(Clues(p, id), LineOf(p, g, id), LineOf(p, more, id));
  }

  lemma {:induction false} RunKeeps(p: Puzzle, g: Grid, ids: seq<LineId>)
    requires IsGrid(p, g) && HasLines(p, ids) && Run(p, g, ids).Some?
    ensures KnowsMore(p, Run(p, g, ids).value, g)
  {
    if ids == [] {
    } else {
      RunKeeps(p, g, ids[..|ids| - 1]);
      SweepKeeps(p, Run(p, g, ids[..|ids| - 1]).value, ids[|ids| - 1]);
    }
  }

  /** Sweeps from below a stable grid never contradict and never pass it. */
  lemma {:induction false} RunBelowStable(p: Puzzle, g: Grid, ids: seq<LineId>, h: Grid)
    requires IsGrid(p, g) && HasLines(p, ids) && IsGrid(p, h) && Stable(p, h) && KnowsMore(p, h, g)
    ensures Run(p, g, ids).Some? && KnowsMore(p, h, Run(p, g, ids).value)
  {
    if ids == [] {
    } else {
      RunBelowStable(p, g, ids[..|ids| - 1], h);
      SweepMonotone(p, Run(p, g, ids[..|ids| - 1]).value, h, ids[|ids| - 1]);
    }
  }

  lemma {:induction false} RunConcat(p: Puzzle, g: Grid, a: seq<LineId>, b: seq<LineId>)
    requires IsGrid(p, g) && HasLines(p, a) && HasLines(p, b)
    ensures HasLines(p, a + b)
    ensures Run(p, g, a + b) == if Run(p, g, a).Some? then Run(p, Run(p, g, a).value, b) else None
  {
    if b == [] {
      assert a + b == a;
    } else {
      var b' := b[..|b| - 1];
      RunConcat(p, g, a, b');
      assert (a + b)[..|a + b| - 1] == a + b';
      assert (a + b)[|a + b| - 1] == b[|b| - 1];
    }
  }

  lemma LastSweepStill(p: Puzzle, g: Grid, ids: seq<LineId>)
    requires ids != [] && IsGrid(p, g) && HasLines(p, ids) && Run(p, g, ids) == Some(g)
    ensures Run(p, g, ids[..|ids| - 1]) == Some(g) && Sweep(p, g, ids[|ids| - 1]) == Some(g)
  {
    var before := Run(p, g, ids[..|ids| - 1]).value;
    RunKeeps(p, g, ids[..|ids| - 1]);
    SweepKeeps(p, before, ids[|ids| - 1]);
    KnowsMoreAntisymmetric(p, before, g);
  }

  /** A run that ends where it began moved nothing on the way. */
  lemma {:induction false} RunStill(p: Puzzle, g: Grid, ids: seq<LineId>, k: nat)
    requires IsGrid(p, g) && HasLines(p, ids) && Run(p, g, ids) == Some(g) && k < |ids|
    ensures Sweep(p, g, ids[k]) == Some(g)
    decreases |ids|
  {
    LastSweepStill(p, g, ids);
    if k == |ids| - 1 {
    } else {
      var ids' := ids[..|ids| - 1];
      assert ids'[k] == ids[k];
      RunStill(p, g, ids', k);
    }
  }

  lemma {:induction false} RunFromStable(p: Puzzle, g: Grid, ids: seq<LineId>)
    requires IsGrid(p, g) && HasLines(p, ids) && Stable(p, g)
    ensures Run(p, g, ids) == Some(g)
  {
    if ids == [] {
    } else {
      RunFromStable(p, g, ids[..|ids| - 1]);
    }
  }

  // ----- the measure -----

  function UnknownIn(line: seq<Cell>): nat {
    if line == [] then 0 else (if line[0] == Unknown then 1 else 0) + UnknownIn(line[1..])
  }

  function Unknowns(g: Grid): nat {
    if g == [] then 0 else UnknownIn(g[0]) + Unknowns(g[1..])
  }

  lemma {:induction false} UnknownInShrinks(m: seq<Cell>, l: seq<Cell>)
    requires Refines(m, l)
    ensures UnknownIn(m) <= UnknownIn(l)
    ensures UnknownIn(m) == UnknownIn(l) ==> m == l
  {
    if l == [] {
    } else {
      assert Refines(m[1..], l[1..]);
      UnknownInShrinks(m[1..], l[1..]);
      assert m == [m[0]] + m[1..] && l == [l[0]] + l[1..];
    }
  }

  lemma {:induction false} UnknownsShrink(h: Grid, g: Grid)
    requires |h| == |g| && forall r :: 0 <= r < |g| ==> Refines(h[r], g[r])
    ensures Unknowns(h) <= Unknowns(g)
    ensures Unknowns(h) == Unknowns(g) ==> h == g
  {
    if g == [] {
    } else {
      UnknownInShrinks(h[0], g[0]);
      UnknownsShrink(h[1..], g[1..]);
      assert h == [h[0]] + h[1..] && g == [g[0]] + g[1..];
    }
  }

  /** Progress is measured by the unknown cells: a grid that moved has strictly fewer. */
  lemma MovingLowersUnknowns(p: Puzzle, h: Grid, g: Grid)
    requires IsGrid(p, g) && IsGrid(p, h) && KnowsMore(p, h, g)
    ensures Unknowns(h) <= Unknowns(g) && (h != g ==> Unknowns(h) < Unknowns(g))
  {
    UnknownsShrink(h, g);
  }

  lemma {:induction false} UnknownInBound(line: seq<Cell>)
    ensures UnknownIn(line) <= |line|
  {
    if line == [] {
    } else {
      UnknownInBound(line[1..]);
    }
  }

  lemma {:induction false} UnknownsBound(g: Grid, width: nat)
    requires forall r :: 0 <= r < |g| ==> |g[r]| == width
    ensures Unknowns(g) <= |g| * width
  {
    if g == [] {
    } else {
      UnknownInBound(g[0]);
      UnknownsBound(g[1..], width);
      assert |g| * width == width + (|g| - 1) * width;
    }
  }

  // ----- the program's order -----

  function RowIds(p: Puzzle): seq<LineId> { seq(|p.rows|, r requires 0 <= r => Row(r)) }

  function ColIds(p: Puzzle): seq<LineId> { seq(|p.cols|, c requires 0 <= c => Col(c)) }

  /** One pass of the loop: every row, then every column. */
  function AllLines(p: Puzzle): seq<LineId> { RowIds(p) + ColIds(p) }

  /** Passes until one moves nothing. */
  ghost function Settle(p: Puzzle, g: Grid): (r: Option<Grid>)
    requires IsGrid(p, g)
    ensures r.Some? ==> IsGrid(p, r.value)
    decreases Unknowns(g)
  {
    var pass := Run(p, g, AllLines(p));
    if pass.None? then None
    else if pass.value == g then Some(g)
    else
      RunKeeps(p, g, AllLines(p));
      MovingLowersUnknowns(p, pass.value, g);
      Settle(p, pass.value)
  }

  /** Every line has its turn in this round. */
  ghost predicate FullRound(p: Puzzle, ids: seq<LineId>) {
    HasLines(p, ids) && forall id :: HasLine(p, id) ==> id in ids
  }

  lemma PassIsFullRound(p: Puzzle)
    ensures FullRound(p, AllLines(p))
  {
    forall id | HasLine(p, id) ensures id in AllLines(p) {
      match id
      case Row(i) => assert AllLines(p)[i] == id;
      case Col(i) => assert AllLines(p)[|p.rows| + i] == id;
    }
  }

  lemma StillRoundIsStable(p: Puzzle, g: Grid, ids: seq<LineId>)
    requires IsGrid(p, g) && FullRound(p, ids) && Run(p, g, ids) == Some(g)
    ensures Stable(p, g)
  {
    forall id | HasLine(p, id) ensures Sweep(p, g, id) == Some(g) {
      var k :| 0 <= k < |ids| && ids[k] == id;
      RunStill(p, g, ids, k);
    }
  }

  /** What the passes reach is reached by some list of sweeps, and it is stable. */
  lemma {:induction false} SettleReaches(p: Puzzle, g: Grid) returns (ids: seq<LineId>)
    requires IsGrid(p, g)
    ensures HasLines(p, ids) && Run(p, g, ids) == Settle(p, g)
    ensures Settle(p, g).Some? ==> Stable(p, Settle(p, g).value)
    decreases Unknowns(g)
  {
    PassIsFullRound(p);
    ids := AllLines(p);
    var pass := Run(p, g, ids);
    if pass.Some? {
      if pass.value == g {
        StillRoundIsStable(p, g, ids);
      } else {
        RunKeeps(p, g, ids);
        MovingLowersUnknowns(p, pass.value, g);
        var more := SettleReaches(p, pass.value);
        RunConcat(p, g, ids, more);
        ids := ids + more;
      }
    }
  }

  // ----- order independence -----

  /** However the sweeps are ordered, a run that settles settles where the program does, and a run
      that contradicts itself says the program's run does too. */
  lemma OrderIndependence(p: Puzzle, ids: seq<LineId>)
    requires HasLines(p, ids)
    ensures Run(p, Blank(p), ids).None? ==> Settle(p, Blank(p)).None?
    ensures Run(p, Blank(p), ids).Some? && Stable(p, Run(p, Blank(p), ids).value) ==>
              Settle(p, Blank(p)) == Run(p, Blank(p), ids)
  {
    var blank := Blank(p);
    var own := SettleReaches(p, blank);
    var theirs := Run(p, blank, ids);
    if Settle(p, blank).Some? {
      RunBelowStable(p, blank, ids, Settle(p, blank).value);
    }
    if theirs.Some? && Stable(p, theirs.value) {
      RunKeeps(p, blank, ids);
      RunBelowStable(p, blank, own, theirs.value);
      KnowsMoreAntisymmetric(p, theirs.value, Settle(p, blank).value);
    }
  }

  ghost function Flatten(rounds: seq<seq<LineId>>): seq<LineId> {
    if rounds == [] then [] else rounds[0] + Flatten(rounds[1..])
  }

  ghost predicate FairRounds(p: Puzzle, rounds: seq<seq<LineId>>) {
    forall k :: 0 <= k < |rounds| ==> FullRound(p, rounds[k])
  }

  lemma {:induction false} FlattenHasLines(p: Puzzle, rounds: seq<seq<LineId>>)
    requires FairRounds(p, rounds)
    ensures HasLines(p, Flatten(rounds))
  {
    if rounds == [] {
    } else {
      assert FairRounds(p, rounds[1..]);
      FlattenHasLines(p, rounds[1..]);
    }
  }

  /** More rounds than unknown cells settle: they contradict, or end on a stable grid. */
  lemma {:induction false} FairRoundsSettle(p: Puzzle, g: Grid, rounds: seq<seq<LineId>>)
    requires IsGrid(p, g) && FairRounds(p, rounds) && |rounds| > Unknowns(g)
    ensures HasLines(p, Flatten(rounds))
    ensures Run(p, g, Flatten(rounds)).Some? ==> Stable(p, Run(p, g, Flatten(rounds)).value)
    decreases |rounds|
  {
    var rest := rounds[1..];
    assert FairRounds(p, rest);
    FlattenHasLines(p, rest);
    RunConcat(p, g, rounds[0], Flatten(rest));
    var first := Run(p, g, rounds[0]);
    if first.Some? {
      if first.value == g {
        StillRoundIsStable(p, g, rounds[0]);
        RunFromStable(p, g, Flatten(rest));
      } else {
        RunKeeps(p, g, rounds[0]);
        MovingLowersUnknowns(p, first.value, g);
        FairRoundsSettle(p, first.value, rest);
      }
    }
  }

  /** Any fair order with more rounds than cells gives exactly what the program computes. */
  lemma FairOrderSameResult(p: Puzzle, rounds: seq<seq<LineId>>)
    requires FairRounds(p, rounds) && |rounds| > |p.rows| * |p.cols|
    ensures HasLines(p, Flatten(rounds))
    ensures Run(p, Blank(p), Flatten(rounds)) == Settle(p, Blank(p))
  {
    UnknownsBound(Blank(p), |p.cols|);
    FairRoundsSettle(p, Blank(p), rounds);
    OrderIndependence(p, Flatten(rounds));
  }

  // ----- answers -----

  function Column(a: Picture, c: nat): seq<bool>
    requires forall r :: 0 <= r < |a| ==> c < |a[r]|
  {
    seq(|a|, r requires 0 <= r < |a| => a[r][c])
  }

  ghost predicate IsPicture(p: Puzzle, a: Picture) {
    |a| == |p.rows| && forall r :: 0 <= r < |a| ==> |a[r]| == |p.cols|
  }

  /** A finished picture with the puzzle's clues. */
  ghost predicate Answer(p: Puzzle, a: Picture) {
    && IsPicture(p, a)
    && (forall r :: 0 <= r < |a| ==> Runs(a[r]) == p.rows[r])
    && (forall c :: 0 <= c < |p.cols| ==> Runs(Column(a, c)) == p.cols[c])
  }

  ghost predicate Agrees(p: Puzzle, a: Picture, g: Grid)
    requires IsPicture(p, a) && IsGrid(p, g)
  {
    forall r :: 0 <= r < |g| ==> Fits(a[r], g[r])
  }

  ghost function PictureLine(p: Puzzle, a: Picture, id: LineId): seq<bool>
    requires IsPicture(p, a) && HasLine(p, id)
  {
    match id case Row(i) => a[i] case Col(i) => Column(a, i)
  }

  lemma SolutionSurvives(clues: seq<nat>, line: seq<Cell>, s: seq<bool>)
    requires Solution(clues, line, s)
    ensures Deduce(clues, line).Agreed? && Fits(s, Deduce(clues, line).cells)
  {
    hide Runs, Scan, Consensus;
    DeduceKeeps(clues, line);
    assert Solution(clues, Deduce(clues, line).cells, s);
  }

  lemma SweepKeepsAnswer(p: Puzzle, a: Picture, g: Grid, id: LineId)
    requires Answer(p, a) && IsGrid(p, g) && Agrees(p, a, g) && HasLine(p, id)
    ensures Sweep(p, g, id).Some? && Agrees(p, a, Sweep(p, g, id).value)
  {
    hide Runs, Scan, Deduce;
    SolutionSurvives(Clues(p, id), LineOf(p, g, id), PictureLine(p, a, id));
  }

  lemma {:induction false} RunKeepsAnswer(p: Puzzle, a: Picture, g: Grid, ids: seq<LineId>)
    requires Answer(p, a) && IsGrid(p, g) && Agrees(p, a, g) && HasLines(p, ids)
    ensures Run(p, g, ids).Some? && Agrees(p, a, Run(p, g, ids).value)
  {
    if ids == [] {
    } else {
      RunKeepsAnswer(p, a, g, ids[..|ids| - 1]);
      SweepKeepsAnswer(p, a, Run(p, g, ids[..|ids| - 1]).value, ids[|ids| - 1]);
    }
  }

  predicate Finished(g: Grid) {
    forall r :: 0 <= r < |g| ==> forall c :: 0 <= c < |g[r]| ==> g[r][c] != Unknown
  }

  function ReadOut(g: Grid): Option<Picture> {
    if Finished(g) then
      Some(seq(|g|, r requires 0 <= r < |g| => seq(|g[r]|, c requires 0 <= c < |g[r]| => g[r][c] == Cell.Filled)))
    else None
  }

  ghost function Solve(p: Puzzle): Option<Picture> {
    var settled := Settle(p, Blank(p));
    if settled.Some? then ReadOut(settled.value) else None
  }

  lemma FinishedLine(clues: seq<nat>, line: seq<Cell>, s: seq<bool>)
    requires |s| == |line| && Deduce(clues, line).Agreed?
    requires forall i :: 0 <= i < |line| ==> line[i] == if s[i] then Cell.Filled else Empty
    ensures Runs(s) == clues
  {
    var t :| Solution(clues, line, t);
    assert t == s;
  }

  lemma StableGridAnswers(p: Puzzle, g: Grid)
    requires IsGrid(p, g) && Stable(p, g) && Finished(g)
    ensures Answer(p, ReadOut(g).value)
  {
    var a := ReadOut(g).value;
    forall id | HasLine(p, id) ensures Runs(PictureLine(p, a, id)) == Clues(p, id) {
      assert Sweep(p, g, id) == Some(g);
      FinishedLine(Clues(p, id), LineOf(p, g, id), PictureLine(p, a, id));
    }
    forall r | 0 <= r < |a| ensures Runs(a[r]) == p.rows[r] {
      assert HasLine(p, Row(r));
    }
    forall c | 0 <= c < |p.cols| ensures Runs(Column(a, c)) == p.cols[c] {
      assert HasLine(p, Col(c));
    }
  }

  lemma FinishedGridIsItsAnswer(p: Puzzle, g: Grid, b: Picture)
    requires IsGrid(p, g) && Finished(g) && IsPicture(p, b) && Agrees(p, b, g)
    ensures b == ReadOut(g).value
  {
    var a := ReadOut(g).value;
    forall r | 0 <= r < |b| ensures b[r] == a[r] {
      assert Fits(b[r], g[r]);
    }
  }

  /** Every answer survives to the settled grid. */
  lemma SettleKeepsAnswer(p: Puzzle, a: Picture)
    requires Answer(p, a)
    ensures Settle(p, Blank(p)).Some? && Agrees(p, a, Settle(p, Blank(p)).value)
    ensures Stable(p, Settle(p, Blank(p)).value)
  {
    var ids := SettleReaches(p, Blank(p));
    RunKeepsAnswer(p, a, Blank(p), ids);
  }

  /** `Some(g)` is an answer, and the only one. */
  lemma SolveSound(p: Puzzle)
    requires Solve(p).Some?
    ensures Answer(p, Solve(p).value)
    ensures forall b :: Answer(p, b) ==> b == Solve(p).value
  {
    var ids := SettleReaches(p, Blank(p));
    StableGridAnswers(p, Settle(p, Blank(p)).value);
    forall b | Answer(p, b) ensures b == Solve(p).value {
      SettleKeepsAnswer(p, b);
      FinishedGridIsItsAnswer(p, Settle(p, Blank(p)).value, b);
    }
  }

  /** `None` on a puzzle that has an answer is a stall: the settled grid is consistent and stable,
      with a cell still open. */
  lemma NoneWithAnswerIsStall(p: Puzzle, a: Picture)
    requires Answer(p, a) && Solve(p).None?
    ensures Settle(p, Blank(p)).Some? && Stable(p, Settle(p, Blank(p)).value)
    ensures Agrees(p, a, Settle(p, Blank(p)).value) && !Finished(Settle(p, Blank(p)).value)
  {
    SettleKeepsAnswer(p, a);
  }

  // ----- against derive_clues -----

  function DeriveClues(a: Picture): Puzzle
    requires forall r :: 0 <= r < |a| ==> |a[r]| == |a[0]|
  {
    if a == [] then Puzzle([], [])
    else Puzzle(seq(|a|, r requires 0 <= r < |a| => DeriveLineClues(a[r])),
                seq(|a[0]|, c requires 0 <= c < |a[0]| => DeriveLineClues(Column(a, c))))
  }

  ghost predicate ByteClues(p: Puzzle) {
    && (forall r :: 0 <= r < |p.rows| ==> forall j :: 0 <= j < |p.rows[r]| ==> p.rows[r][j] <= 255)
    && (forall c :: 0 <= c < |p.cols| ==> forall j :: 0 <= j < |p.cols[c]| ==> p.cols[c][j] <= 255)
  }

  /** The solved grid derives the clues it was solved from, unless the puzzle has columns but no row:
      an empty grid derives no column clues at all. */
  lemma SolvedGridDerivesItsClues(p: Puzzle)
    requires ByteClues(p) && Solve(p).Some?
    ensures IsPicture(p, Solve(p).value)
    ensures DeriveClues(Solve(p).value) == p <==> |p.rows| > 0 || |p.cols| == 0
  {
    hide Runs, Scan, Settle, Run;
    SolveSound(p);
    var a := Solve(p).value;
    if a != [] {
      var d := DeriveClues(a);
      forall r | 0 <= r < |a| ensures d.rows[r] == p.rows[r] {}
      forall c | 0 <= c < |p.cols| ensures d.cols[c] == p.cols[c] {}
      assert d.rows == p.rows && d.cols == p.cols;
    }
  }

  /** An instance: one column without clues and no row. */
  lemma RowlessPuzzleForgetsItsColumns()
    ensures var p := Puzzle([], [[]]); Solve(p) == Some([]) && DeriveClues([]) != p
  {
    hide Settle, Run;
    var p := Puzzle([], [[]]);
    RunsNil();
    assert Column([], 0) == [];
    assert Answer(p, []);
    SettleKeepsAnswer(p, []);
    assert Settle(p, Blank(p)).value == [];
    assert ReadOut([]).value == [];
  }

  lemma DerivedCluesAreAnswered(p: Puzzle, b: Picture)
    requires IsPicture(p, b) && DeriveClues(b) == p
    requires |p.rows| <= 255 && |p.cols| <= 255
    ensures Answer(p, b)
  {
    hide Runs, Scan, Settle, Run;
    forall r | 0 <= r < |b| ensures Runs(b[r]) == p.rows[r] { DeriveIsRuns(b[r]); }
    if b != [] {
      forall c | 0 <= c < |p.cols| ensures Runs(Column(b, c)) == p.cols[c] {
        DeriveIsRuns(Column(b, c));
        assert DeriveClues(b).cols[c] == DeriveLineClues(Column(b, c));
      }
    }
  }

  /** Up to 255 cells a side, no other picture derives the clues of a solved puzzle. */
  lemma SolvedGridIsTheOnlyOne(p: Puzzle, b: Picture)
    requires IsPicture(p, b) && DeriveClues(b) == p
    requires |p.rows| <= 255 && |p.cols| <= 255
    ensures Solve(p).Some? ==> b == Solve(p).value
  {
    hide Settle, Run;
    if Solve(p).Some? { SolveSound(p); }
    DerivedCluesAreAnswered(p, b);
  }

  // ----- rows and columns exchanged -----

  function Flip(p: Puzzle): Puzzle { Puzzle(p.cols, p.rows) }

  function FlipId(id: LineId): LineId {
    match id case Row(i) => Col(i) case Col(i) => Row(i)
  }

  function Transpose<T>(g: seq<seq<T>>, width: nat): seq<seq<T>>
    requires forall r :: 0 <= r < |g| ==> |g[r]| == width
  {
    seq(width, c requires 0 <= c < width => seq(|g|, r requires 0 <= r < |g| => g[r][c]))
  }

  function FlipIds(ids: seq<LineId>): seq<LineId> {
    seq(|ids|, k requires 0 <= k < |ids| => FlipId(ids[k]))
  }

  lemma SweepTransposed(p: Puzzle, g: Grid, id: LineId)
    requires IsGrid(p, g) && HasLine(p, id)
    ensures var t := Sweep(Flip(p), Transpose(g, |p.cols|), FlipId(id));
            t == if Sweep(p, g, id).Some? then Some(Transpose(Sweep(p, g, id).value, |p.cols|)) else None
  {
    var t := Transpose(g, |p.cols|);
    assert LineOf(Flip(p), t, FlipId(id)) == LineOf(p, g, id);
    var solved := Deduce(Clues(p, id), LineOf(p, g, id));
    if solved.Agreed? {
      var a := PutLine(Flip(p), t, FlipId(id), solved.cells);
      var b := Transpose(PutLine(p, g, id, solved.cells), |p.cols|);
      forall c | 0 <= c < |p.cols| ensures a[c] == b[c] {
        forall r | 0 <= r < |p.rows| ensures a[c][r] == b[c][r] {}
      }
      assert a == b;
    }
  }

  lemma {:induction false} RunTransposed(p: Puzzle, g: Grid, ids: seq<LineId>)
    requires IsGrid(p, g) && HasLines(p, ids)
    ensures Run(Flip(p), Transpose(g, |p.cols|), FlipIds(ids)) ==
            if Run(p, g, ids).Some? then Some(Transpose(Run(p, g, ids).value, |p.cols|)) else None
  {
    if ids == [] {
    } else {
      var ids' := ids[..|ids| - 1];
      assert FlipIds(ids)[..|ids| - 1] == FlipIds(ids');
      RunTransposed(p, g, ids');
      if Run(p, g, ids').Some? {
        SweepTransposed(p, Run(p, g, ids').value, ids[|ids| - 1]);
      }
    }
  }

  lemma StableTransposed(p: Puzzle, g: Grid)
    requires IsGrid(p, g) && Stable(p, g)
    ensures Stable(Flip(p), Transpose(g, |p.cols|))
  {
    forall id | HasLine(Flip(p), id)
      ensures Sweep(Flip(p), Transpose(g, |p.cols|), id) == Some(Transpose(g, |p.cols|))
    {
      SweepTransposed(p, g, FlipId(id));
    }
  }

  lemma BlankTransposed(p: Puzzle)
    ensures Transpose(Blank(p), |p.cols|) == Blank(Flip(p))
  {
    var t, b := Transpose(Blank(p), |p.cols|), Blank(Flip(p));
    forall c | 0 <= c < |p.cols| ensures t[c] == b[c] {
      forall r | 0 <= r < |p.rows| ensures t[c][r] == b[c][r] {}
    }
  }

  lemma ReadOutTransposed(p: Puzzle, g: Grid)
    requires IsGrid(p, g)
    ensures ReadOut(g).Some? ==> IsPicture(p, ReadOut(g).value)
    ensures ReadOut(Transpose(g, |p.cols|)) ==
            if ReadOut(g).Some? then Some(Transpose(ReadOut(g).value, |p.cols|)) else None
  {
    var t := Transpose(g, |p.cols|);
    if Finished(g) {
      var a, b := ReadOut(t).value, Transpose(ReadOut(g).value, |p.cols|);
      forall c | 0 <= c < |p.cols| ensures a[c] == b[c] {}
      assert a == b;
    } else {
      var r, c :| 0 <= r < |g| && 0 <= c < |g[r]| && g[r][c] == Unknown;
      assert t[c][r] == Unknown;
    }
  }

  /** Exchanging the row and column clues transposes the result. */
  lemma SolveTransposed(p: Puzzle)
    ensures Solve(p).Some? ==> IsPicture(p, Solve(p).value)
    ensures Solve(Flip(p)) == if Solve(p).Some? then Some(Transpose(Solve(p).value, |p.cols|)) else None
  {
    var ids := SettleReaches(p, Blank(p));
    RunTransposed(p, Blank(p), ids);
    BlankTransposed(p);
    OrderIndependence(Flip(p), FlipIds(ids));
    if Settle(p, Blank(p)).Some? {
      var g := Settle(p, Blank(p)).value;
      StableTransposed(p, g);
      ReadOutTransposed(p, g);
    }
  }
}
