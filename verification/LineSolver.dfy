/** Line logic: what every placement of a clue list that fits a line's known cells agrees on.

    `Deduce` is the meaning: quantifiers over all finished lines. `Head`, `Tail`, `CanFill` and
    `MayBeEmpty` are the tables of the program, and `SolveLine` is its loops over them. */
module LineSolver {
  import opened LineClues
  import opened Options

  datatype Cell = Unknown | Filled | Empty

  /** What `solve_line` does: `None`, `Some(cells)`, or its `unreachable!` arm. */
  datatype Outcome = NoPlacement | Agreed(cells: seq<Cell>) | Unreachable

  // ----- the meaning -----

  /** A finished line that keeps every known cell. */
  ghost predicate Fits(s: seq<bool>, line: seq<Cell>) {
    && |s| == |line|
    && forall i :: 0 <= i < |s| ==> (line[i] == Filled ==> s[i]) && (line[i] == Empty ==> !s[i])
  }

  ghost predicate Solution(clues: seq<nat>, line: seq<Cell>, s: seq<bool>) {
    Fits(s, line) && Runs(s) == clues
  }

  ghost predicate Solvable(clues: seq<nat>, line: seq<Cell>) {
    exists s :: Solution(clues, line, s)
  }

  ghost predicate SomeWith(clues: seq<nat>, line: seq<Cell>, i: nat, value: bool)
    requires i < |line|
  {
    exists s :: Solution(clues, line, s) && s[i] == value
  }

  ghost function Consensus(clues: seq<nat>, line: seq<Cell>, i: nat): Cell
    requires i < |line|
  {
    if SomeWith(clues, line, i, true) then
      if SomeWith(clues, line, i, false) then Unknown else Filled
    else Empty
  }

  ghost function Deduce(clues: seq<nat>, line: seq<Cell>): Outcome {
    if Solvable(clues, line) then
      Agreed(seq(|line|, i requires 0 <= i < |line| => Consensus(clues, line, i)))
    else NoPlacement
  }

  // ----- the tables -----

  predicate CanEmpty(line: seq<Cell>, i: nat)
    requires i < |line|
  {
    line[i] != Filled
  }

  /** Room for a whole block: every cell it would cover is unknown or filled. */
  predicate BlockFits(line: seq<Cell>, start: nat, len: nat) {
    start + len <= |line| && forall i :: start <= i < start + len ==> line[i] != Empty
  }

  /** The table from the left: the first `i` cells can be finished with the first `j` blocks, all of them. */
  predicate Head(clues: seq<nat>, line: seq<Cell>, i: nat, j: nat)
    requires i <= |line| && j <= |clues|
    decreases i, 1
  {
    if i == 0 then j == 0
    else
      || (CanEmpty(line, i - 1) && Head(clues, line, i - 1, j))
      || (j > 0 && clues[j - 1] <= i && BlockFits(line, i - clues[j - 1], clues[j - 1])
          && Before(clues, line, i - clues[j - 1], j - 1))
  }

  /** Blocks `..j` fit in front of block `j` when it starts at `start`. */
  predicate Before(clues: seq<nat>, line: seq<Cell>, start: nat, j: nat)
    requires start <= |line| && j < |clues|
    decreases start, 0
  {
    if start == 0 then j == 0
    else CanEmpty(line, start - 1) && Head(clues, line, start - 1, j)
  }

  /** The table from the right: the cells from `i` on can be finished with the blocks from `j` on. */
  predicate Tail(clues: seq<nat>, line: seq<Cell>, i: nat, j: nat)
    requires i <= |line| && j <= |clues|
    decreases |line| - i, 1
  {
    if i == |line| then j == |clues|
    else
      || (CanEmpty(line, i) && Tail(clues, line, i + 1, j))
      || (j < |clues| && BlockFits(line, i, clues[j]) && After(clues, line, i + clues[j], j))
  }

  /** Blocks `j + 1..` fit behind block `j` when it ends at `end`. */
  predicate After(clues: seq<nat>, line: seq<Cell>, end: nat, j: nat)
    requires end <= |line| && j < |clues|
    decreases |line| - end, 0
  {
    if end == |line| then j + 1 == |clues|
    else CanEmpty(line, end) && Tail(clues, line, end + 1, j + 1)
  }

  predicate MayBeEmpty(clues: seq<nat>, line: seq<Cell>, i: nat)
    requires i < |line|
  {
    CanEmpty(line, i) && exists j :: 0 <= j <= |clues| && Head(clues, line, i, j) && Tail(clues, line, i + 1, j)
  }

  /** Block `j` can stand on `start..`, with all the others around it. */
  predicate BlockStands(clues: seq<nat>, line: seq<Cell>, j: nat, start: nat)
    requires j < |clues|
  {
    && BlockFits(line, start, clues[j])
    && Before(clues, line, start, j)
    && After(clues, line, start + clues[j], j)
  }

  predicate CanFill(clues: seq<nat>, line: seq<Cell>, i: nat)
    requires i < |line|
  {
    exists j, start :: 0 <= j < |clues| && 0 <= start <= i < start + clues[j] && BlockStands(clues, line, j, start)
  }

  function FoldCell(canFill: bool, mayBeEmpty: bool): Cell {
    if canFill && mayBeEmpty then Unknown else if canFill then Filled else Empty
  }

  /** The fold at the end of `solve_line`, for any clue list at all. */
  function Fold(clues: seq<nat>, line: seq<Cell>): Outcome {
    if !Head(clues, line, |line|, |clues|) then NoPlacement
    else if exists i :: 0 <= i < |line| && !CanFill(clues, line, i) && !MayBeEmpty(clues, line, i) then Unreachable
    else Agreed(seq(|line|, i requires 0 <= i < |line| => FoldCell(CanFill(clues, line, i), MayBeEmpty(clues, line, i))))
  }

  // ----- what the tables mean -----

  /** A solution whose last (first) cell does not belong to a run. */
  ghost predicate SolvableClosedRight(clues: seq<nat>, line: seq<Cell>) {
    exists s :: Solution(clues, line, s) && ClosedRight(s)
  }

  ghost predicate SolvableClosedLeft(clues: seq<nat>, line: seq<Cell>) {
    exists s :: Solution(clues, line, s) && ClosedLeft(s)
  }

  lemma LastCellEmpty(clues: seq<nat>, line: seq<Cell>)
    requires line != []
    ensures SomeWith(clues, line, |line| - 1, false) <==>
            CanEmpty(line, |line| - 1) && Solvable(clues, line[..|line| - 1])
  {
    hide Runs, Scan;
    var n := |line| - 1;
    if s :| Solution(clues, line, s) && !s[n] {
      RunsDropLastGap(s);
      assert Solution(clues, line[..n], s[..n]);
    }
    if CanEmpty(line, n) && Solvable(clues, line[..n]) {
      var s :| Solution(clues, line[..n], s);
      assert (s + [false])[..n] == s;
      RunsDropLastGap(s + [false]);
      assert Solution(clues, line, s + [false]);
    }
  }

  lemma FirstCellEmpty(clues: seq<nat>, line: seq<Cell>)
    requires line != []
    ensures SomeWith(clues, line, 0, false) <==> CanEmpty(line, 0) && Solvable(clues, line[1..])
  {
    hide Runs, Scan;
    if s :| Solution(clues, line, s) && !s[0] {
      RunsDropGap(s);
      assert Solution(clues, line[1..], s[1..]);
    }
    if CanEmpty(line, 0) && Solvable(clues, line[1..]) {
      var s :| Solution(clues, line[1..], s);
      assert ([false] + s)[1..] == s;
      RunsDropGap([false] + s);
      assert Solution(clues, line, [false] + s);
    }
  }

  lemma ClosedRightMeaning(clues: seq<nat>, line: seq<Cell>)
    ensures SolvableClosedRight(clues, line) <==>
            if line == [] then clues == []
            else CanEmpty(line, |line| - 1) && Solvable(clues, line[..|line| - 1])
  {
    if line == [] {
      if clues == [] { assert Solution(clues, line, []); }
    } else {
      LastCellEmpty(clues, line);
    }
  }

  lemma ClosedLeftMeaning(clues: seq<nat>, line: seq<Cell>)
    ensures SolvableClosedLeft(clues, line) <==>
            if line == [] then clues == [] else CanEmpty(line, 0) && Solvable(clues, line[1..])
  {
    if line == [] {
      if clues == [] { assert Solution(clues, line, []); }
    } else {
      FirstCellEmpty(clues, line);
    }
  }

  /** A whole line around one block. */
  ghost predicate Around(clues: seq<nat>, line: seq<Cell>, j: nat, start: nat)
    requires j < |clues|
  {
    && BlockFits(line, start, clues[j])
    && SolvableClosedRight(clues[..j], line[..start])
    && SolvableClosedLeft(clues[j + 1..], line[start + clues[j]..])
  }

  /** A finished line put together from three pieces. */
  lemma FitsPieces(line: seq<Cell>, start: nat, end: nat, p: seq<bool>, m: seq<bool>, q: seq<bool>)
    requires start <= end <= |line|
    requires Fits(p, line[..start]) && Fits(m, line[start..end]) && Fits(q, line[end..])
    ensures Fits(p + m + q, line)
  {
    var s := p + m + q;
    forall i | 0 <= i < |s| ensures (line[i] == Cell.Filled ==> s[i]) && (line[i] == Empty ==> !s[i]) {
      if i < start {
        assert s[i] == p[i] && line[i] == line[..start][i];
      } else if i < end {
        assert s[i] == m[i - start] && line[i] == line[start..end][i - start];
      } else {
        assert s[i] == q[i - end] && line[i] == line[end..][i - end];
      }
    }
  }

  lemma PiecesOf<T>(s: seq<T>, i: nat)
    requires i < |s|
    ensures s == s[..i] + [s[i]] + s[i + 1..]
  {
  }

  lemma HalvesOf<T>(s: seq<T>, i: nat)
    requires i <= |s|
    ensures s == s[..i] + s[i..]
  {
  }

  lemma JoinAround(clues: seq<nat>, line: seq<Cell>, j: nat, start: nat) returns (s: seq<bool>)
    requires Positive(clues) && j < |clues| && Around(clues, line, j, start)
    ensures Solution(clues, line, s) && forall i :: start <= i < start + clues[j] ==> s[i]
  {
    hide Runs, Scan;
    var len := clues[j];
    var p :| Solution(clues[..j], line[..start], p) && ClosedRight(p);
    var q :| Solution(clues[j + 1..], line[start + len..], q) && ClosedLeft(q);
    s := p + FilledRun(len) + q;
    RunsAroundBlock(p, len, q);
    PiecesOf(clues, j);
    var block := line[start..start + len];
    assert Fits(FilledRun(len), block);
    FitsPieces(line, start, start + len, p, FilledRun(len), q);
  }

  lemma SplitAround(clues: seq<nat>, line: seq<Cell>, s: seq<bool>, i: nat) returns (j: nat, start: nat)
    requires i < |line| && Solution(clues, line, s) && s[i]
    ensures j < |clues| && start <= i < start + clues[j] && Around(clues, line, j, start)
  {
    hide Runs, Scan;
    var end: nat;
    start, end := RunThrough(s, i);
    var p, q := s[..start], s[end..];
    RunsAroundBlock(p, end - start, q);
    j := |Runs(p)|;
    assert clues[..j] == Runs(p) && clues[j] == end - start && clues[j + 1..] == Runs(q);
    assert Solution(clues[..j], line[..start], p);
    assert Solution(clues[j + 1..], line[end..], q);
  }

  lemma LastCellFilled(clues: seq<nat>, line: seq<Cell>)
    requires Positive(clues) && line != []
    ensures SomeWith(clues, line, |line| - 1, true) <==>
            |clues| > 0 && clues[|clues| - 1] <= |line|
            && BlockFits(line, |line| - clues[|clues| - 1], clues[|clues| - 1])
            && SolvableClosedRight(clues[..|clues| - 1], line[..|line| - clues[|clues| - 1]])
  {
    hide Runs, Scan;
    var n := |line|;
    if s :| Solution(clues, line, s) && s[n - 1] {
      var j, start := SplitAround(clues, line, s, n - 1);
      ClosedLeftMeaning(clues[j + 1..], line[start + clues[j]..]);
      assert clues[j + 1..] == [];
    }
    if |clues| > 0 && clues[|clues| - 1] <= n {
      var j, start := |clues| - 1, n - clues[|clues| - 1];
      if BlockFits(line, start, clues[j]) && SolvableClosedRight(clues[..j], line[..start]) {
        ClosedLeftMeaning(clues[j + 1..], line[start + clues[j]..]);
        var s := JoinAround(clues, line, j, start);
      }
    }
  }

  lemma FirstCellFilled(clues: seq<nat>, line: seq<Cell>)
    requires Positive(clues) && line != []
    ensures SomeWith(clues, line, 0, true) <==>
            |clues| > 0 && BlockFits(line, 0, clues[0]) && SolvableClosedLeft(clues[1..], line[clues[0]..])
  {
    hide Runs, Scan;
    if s :| Solution(clues, line, s) && s[0] {
      var j, start := SplitAround(clues, line, s, 0);
      ClosedRightMeaning(clues[..j], line[..start]);
      assert clues[..j] == [];
    }
    if |clues| > 0 && BlockFits(line, 0, clues[0]) && SolvableClosedLeft(clues[1..], line[clues[0]..]) {
      ClosedRightMeaning(clues[..0], line[..0]);
      var s := JoinAround(clues, line, 0, 0);
    }
  }

  lemma SolvableByEnd(clues: seq<nat>, line: seq<Cell>, i: nat)
    requires i < |line|
    ensures Solvable(clues, line) <==> SomeWith(clues, line, i, false) || SomeWith(clues, line, i, true)
  {
    if s :| Solution(clues, line, s) { assert s[i] == true || s[i] == false; }
  }

  /** One step of the table from the left: the last cell is empty or ends the last block. */
  lemma SolvableFromRight(clues: seq<nat>, line: seq<Cell>)
    requires Positive(clues) && line != []
    ensures Solvable(clues, line) <==>
            || (CanEmpty(line, |line| - 1) && Solvable(clues, line[..|line| - 1]))
            || (|clues| > 0 && clues[|clues| - 1] <= |line|
                && BlockFits(line, |line| - clues[|clues| - 1], clues[|clues| - 1])
                && SolvableClosedRight(clues[..|clues| - 1], line[..|line| - clues[|clues| - 1]]))
  {
    SolvableByEnd(clues, line, |line| - 1);
    LastCellEmpty(clues, line);
    LastCellFilled(clues, line);
  }

  lemma SolvableFromLeft(clues: seq<nat>, line: seq<Cell>)
    requires Positive(clues) && line != []
    ensures Solvable(clues, line) <==>
            || (CanEmpty(line, 0) && Solvable(clues, line[1..]))
            || (|clues| > 0 && BlockFits(line, 0, clues[0]) && SolvableClosedLeft(clues[1..], line[clues[0]..]))
  {
    SolvableByEnd(clues, line, 0);
    FirstCellEmpty(clues, line);
    FirstCellFilled(clues, line);
  }

  lemma BlockFitsSlice(line: seq<Cell>, from: nat, to: nat, start: nat, len: nat)
    requires from <= to <= |line| && start + len <= to - from
    ensures BlockFits(line[from..to], start, len) <==> BlockFits(line, from + start, len)
  {
    var l := line[from..to];
    assert forall p :: start <= p < start + len ==> l[p] == line[from + p];
    assert forall p :: from + start <= p < from + start + len ==> line[p] == l[p - from];
  }

  lemma HeadStep(clues: seq<nat>, line: seq<Cell>, i: nat, j: nat)
    requires Positive(clues) && 0 < i <= |line| && j <= |clues|
    requires Head(clues, line, i - 1, j) <==> Solvable(clues[..j], line[..i - 1])
    requires j > 0 && clues[j - 1] <= i ==>
               (Before(clues, line, i - clues[j - 1], j - 1)
                <==> SolvableClosedRight(clues[..j - 1], line[..i - clues[j - 1]]))
    ensures Head(clues, line, i, j) <==> Solvable(clues[..j], line[..i])
  {
    var c, l := clues[..j], line[..i];
    SolvableFromRight(c, l);
    assert l[..i - 1] == line[..i - 1];
    if j > 0 && clues[j - 1] <= i {
      var start := i - clues[j - 1];
      assert c[..j - 1] == clues[..j - 1] && l[..start] == line[..start];
      BlockFitsSlice(line, 0, i, start, clues[j - 1]);
      assert line[0..i] == l;
    }
  }

  lemma {:induction false} HeadMeaning(clues: seq<nat>, line: seq<Cell>, i: nat, j: nat)
    requires Positive(clues) && i <= |line| && j <= |clues|
    ensures Head(clues, line, i, j) <==> Solvable(clues[..j], line[..i])
    decreases i, 1
  {
    if i == 0 {
      if j == 0 { assert Solution(clues[..j], line[..i], []); }
    } else {
      HeadMeaning(clues, line, i - 1, j);
      if j > 0 && clues[j - 1] <= i {
        BeforeMeaning(clues, line, i - clues[j - 1], j - 1);
      }
      HeadStep(clues, line, i, j);
    }
  }

  lemma {:induction false} BeforeMeaning(clues: seq<nat>, line: seq<Cell>, start: nat, j: nat)
    requires Positive(clues) && start <= |line| && j < |clues|
    ensures Before(clues, line, start, j) <==> SolvableClosedRight(clues[..j], line[..start])
    decreases start, 0
  {
    ClosedRightMeaning(clues[..j], line[..start]);
    if start == 0 {
    } else {
      assert line[..start][..start - 1] == line[..start - 1];
      HeadMeaning(clues, line, start - 1, j);
    }
  }

  lemma TailStep(clues: seq<nat>, line: seq<Cell>, i: nat, j: nat)
    requires Positive(clues) && i < |line| && j <= |clues|
    requires Tail(clues, line, i + 1, j) <==> Solvable(clues[j..], line[i + 1..])
    requires j < |clues| && i + clues[j] <= |line| ==>
               (After(clues, line, i + clues[j], j) <==> SolvableClosedLeft(clues[j + 1..], line[i + clues[j]..]))
    ensures Tail(clues, line, i, j) <==> Solvable(clues[j..], line[i..])
  {
    var c, l := clues[j..], line[i..];
    SolvableFromLeft(c, l);
    assert l[1..] == line[i + 1..];
    if j < |clues| && i + clues[j] <= |line| {
      var end := i + clues[j];
      assert c[1..] == clues[j + 1..] && l[clues[j]..] == line[end..];
      BlockFitsSlice(line, i, |line|, 0, clues[j]);
      assert line[i..|line|] == l;
    }
  }

  lemma {:induction false} TailMeaning(clues: seq<nat>, line: seq<Cell>, i: nat, j: nat)
    requires Positive(clues) && i <= |line| && j <= |clues|
    ensures Tail(clues, line, i, j) <==> Solvable(clues[j..], line[i..])
    decreases |line| - i, 1
  {
    if i == |line| {
      if j == |clues| { assert Solution(clues[j..], line[i..], []); }
    } else {
      TailMeaning(clues, line, i + 1, j);
      if j < |clues| && i + clues[j] <= |line| {
        AfterMeaning(clues, line, i + clues[j], j);
      }
      TailStep(clues, line, i, j);
    }
  }

  lemma {:induction false} AfterMeaning(clues: seq<nat>, line: seq<Cell>, end: nat, j: nat)
    requires Positive(clues) && end <= |line| && j < |clues|
    ensures After(clues, line, end, j) <==> SolvableClosedLeft(clues[j + 1..], line[end..])
    decreases |line| - end, 0
  {
    ClosedLeftMeaning(clues[j + 1..], line[end..]);
    if end == |line| {
    } else {
      assert line[end..][1..] == line[end + 1..];
      TailMeaning(clues, line, end + 1, j + 1);
    }
  }

  /** A whole line around one empty cell. */
  ghost predicate AroundGap(clues: seq<nat>, line: seq<Cell>, i: nat, j: nat)
    requires i < |line| && j <= |clues|
  {
    CanEmpty(line, i) && Solvable(clues[..j], line[..i]) && Solvable(clues[j..], line[i + 1..])
  }

  lemma JoinAtGap(clues: seq<nat>, line: seq<Cell>, i: nat, j: nat)
    requires i < |line| && j <= |clues| && AroundGap(clues, line, i, j)
    ensures SomeWith(clues, line, i, false)
  {
    hide Runs, Scan;
    var p :| Solution(clues[..j], line[..i], p);
    var q :| Solution(clues[j..], line[i + 1..], q);
    RunsSplitAtGap(p, q);
    HalvesOf(clues, j);
    var s := p + [false] + q;
    assert Fits(s, line) by {
      assert Fits([false], line[i..i + 1]);
      FitsPieces(line, i, i + 1, p, [false], q);
    }
    assert Solution(clues, line, s) && s[i] == false;
  }

  lemma SplitAtGap(clues: seq<nat>, line: seq<Cell>, s: seq<bool>, i: nat) returns (j: nat)
    requires i < |line| && Solution(clues, line, s) && !s[i]
    ensures j <= |clues| && AroundGap(clues, line, i, j)
  {
    hide Runs, Scan;
    var p, q := s[..i], s[i + 1..];
    PiecesOf(s, i);
    RunsSplitAtGap(p, q);
    j := |Runs(p)|;
    assert clues[..j] == Runs(p) && clues[j..] == Runs(q);
    assert Solution(clues[..j], line[..i], p) && Solution(clues[j..], line[i + 1..], q);
  }

  lemma MayBeEmptyMeaning(clues: seq<nat>, line: seq<Cell>, i: nat)
    requires Positive(clues) && i < |line|
    ensures MayBeEmpty(clues, line, i) <==> SomeWith(clues, line, i, false)
  {
    if s :| Solution(clues, line, s) && !s[i] {
      var j := SplitAtGap(clues, line, s, i);
      HeadMeaning(clues, line, i, j);
      TailMeaning(clues, line, i + 1, j);
    }
    if MayBeEmpty(clues, line, i) {
      var j :| 0 <= j <= |clues| && Head(clues, line, i, j) && Tail(clues, line, i + 1, j);
      HeadMeaning(clues, line, i, j);
      TailMeaning(clues, line, i + 1, j);
      JoinAtGap(clues, line, i, j);
    }
  }

  lemma CanFillMeaning(clues: seq<nat>, line: seq<Cell>, i: nat)
    requires Positive(clues) && i < |line|
    ensures CanFill(clues, line, i) <==> SomeWith(clues, line, i, true)
  {
    hide Runs, Scan, Head, Tail, Before, After, SolvableClosedLeft, SolvableClosedRight;
    if s :| Solution(clues, line, s) && s[i] {
      var j, start := SplitAround(clues, line, s, i);
      BeforeMeaning(clues, line, start, j);
      AfterMeaning(clues, line, start + clues[j], j);
      assert BlockStands(clues, line, j, start);
    }
    if CanFill(clues, line, i) {
      var j, start :| 0 <= j < |clues| && 0 <= start <= i < start + clues[j] && BlockStands(clues, line, j, start);
      BeforeMeaning(clues, line, start, j);
      AfterMeaning(clues, line, start + clues[j], j);
      var s := JoinAround(clues, line, j, start);
    }
  }

  /** The fast form is the meaning: `solve_line` answers `None` exactly when no finished line fits,
      and fixes a cell exactly as all fitting lines agree. Its `unreachable!` arm stays unreached. */
  lemma FoldIsDeduce(clues: seq<nat>, line: seq<Cell>)
    requires Positive(clues)
    ensures Fold(clues, line) == Deduce(clues, line)
  {
    HeadMeaning(clues, line, |line|, |clues|);
    assert clues[..|clues|] == clues && line[..|line|] == line;
    forall i | 0 <= i < |line|
      ensures CanFill(clues, line, i) <==> SomeWith(clues, line, i, true)
      ensures MayBeEmpty(clues, line, i) <==> SomeWith(clues, line, i, false)
      ensures Solvable(clues, line) <==> CanFill(clues, line, i) || MayBeEmpty(clues, line, i)
    {
      CanFillMeaning(clues, line, i);
      MayBeEmptyMeaning(clues, line, i);
      SolvableByEnd(clues, line, i);
    }
  }

  // ----- the program's loops -----

  function CountEmpty(line: seq<Cell>): nat {
    if line == [] then 0 else CountEmpty(line[..|line| - 1]) + (if line[|line| - 1] == Empty then 1 else 0)
  }

  lemma {:induction false} CountEmptySpan(line: seq<Cell>, start: nat, end: nat)
    requires start <= end <= |line|
    ensures CountEmpty(line[..start]) <= CountEmpty(line[..end])
    ensures CountEmpty(line[..end]) == CountEmpty(line[..start]) <==>
            forall i :: start <= i < end ==> line[i] != Empty
    decreases end
  {
    if start == end {
    } else {
      CountEmptySpan(line, start, end - 1);
      assert line[..end][..end - 1] == line[..end - 1];
    }
  }

  method PrefixEmpties(line: seq<Cell>) returns (emptiesBefore: array<nat>)
    ensures fresh(emptiesBefore) && emptiesBefore.Length == |line| + 1
    ensures forall i :: 0 <= i <= |line| ==> emptiesBefore[i] == CountEmpty(line[..i])
  {
    emptiesBefore := new nat[|line| + 1];
    emptiesBefore[0] := 0;
    for i := 0 to |line|
      invariant forall x :: 0 <= x <= i ==> emptiesBefore[x] == CountEmpty(line[..x])
    {
      assert line[..i + 1][..i] == line[..i];
      emptiesBefore[i + 1] := emptiesBefore[i] + (if line[i] == Empty then 1 else 0);
    }
  }

  method FitsAt(line: seq<Cell>, emptiesBefore: array<nat>, start: nat, len: nat) returns (fits: bool)
    requires emptiesBefore.Length == |line| + 1
    requires forall i :: 0 <= i <= |line| ==> emptiesBefore[i] == CountEmpty(line[..i])
    ensures fits == BlockFits(line, start, len)
  {
    if start + len <= |line| {
      CountEmptySpan(line, start, start + len);
      fits := emptiesBefore[start + len] == emptiesBefore[start];
    } else {
      fits := false;
    }
  }

  method HeadTable(clues: seq<nat>, line: seq<Cell>, emptiesBefore: array<nat>) returns (head: array2<bool>)
    requires emptiesBefore.Length == |line| + 1
    requires forall i :: 0 <= i <= |line| ==> emptiesBefore[i] == CountEmpty(line[..i])
    ensures fresh(head) && head.Length0 == |line| + 1 && head.Length1 == |clues| + 1
    ensures forall i, j :: 0 <= i <= |line| && 0 <= j <= |clues| ==> head[i, j] == Head(clues, line, i, j)
  {
    hide CountEmpty, BlockFits;
    var n, k := |line|, |clues|;
    head := new bool[n + 1, k + 1]((i, j) => i == 0 && j == 0);
    for i := 1 to n + 1
      invariant forall x, j :: 0 <= x < i && 0 <= j <= k ==> head[x, j] == Head(clues, line, x, j)
    {
      for j := 0 to k + 1
        invariant forall x, y :: 0 <= x < i && 0 <= y <= k ==> head[x, y] == Head(clues, line, x, y)
        invariant forall y :: 0 <= y < j ==> head[i, y] == Head(clues, line, i, y)
      {
        var gap := line[i - 1] != Cell.Filled && head[i - 1, j];
        var blockEndsHere := false;
        if j > 0 && i >= clues[j - 1] {
          var start := i - clues[j - 1];
          var fits := FitsAt(line, emptiesBefore, start, clues[j - 1]);
          blockEndsHere := fits &&
            (if start == 0 then j == 1 else line[start - 1] != Cell.Filled && head[start - 1, j - 1]);
        }
        head[i, j] := gap || blockEndsHere;
      }
    }
  }

  method TailTable(clues: seq<nat>, line: seq<Cell>, emptiesBefore: array<nat>) returns (tail: array2<bool>)
    requires emptiesBefore.Length == |line| + 1
    requires forall i :: 0 <= i <= |line| ==> emptiesBefore[i] == CountEmpty(line[..i])
    ensures fresh(tail) && tail.Length0 == |line| + 1 && tail.Length1 == |clues| + 1
    ensures forall i, j :: 0 <= i <= |line| && 0 <= j <= |clues| ==> tail[i, j] == Tail(clues, line, i, j)
  {
    hide CountEmpty;
    var n, k := |line|, |clues|;
    tail := new bool[n + 1, k + 1]((i, j) => i == n && j == k);
    for i := n downto 0
      invariant forall x, j :: i <= x <= n && 0 <= j <= k ==> tail[x, j] == Tail(clues, line, x, j)
    {
      for j := 0 to k + 1
        invariant forall x, y :: i < x <= n && 0 <= y <= k ==> tail[x, y] == Tail(clues, line, x, y)
        invariant forall y :: 0 <= y < j ==> tail[i, y] == Tail(clues, line, i, y)
      {
        var gap := line[i] != Cell.Filled && tail[i + 1, j];
        var blockStartsHere := false;
        if j < k {
          var end := i + clues[j];
          var fits := FitsAt(line, emptiesBefore, i, clues[j]);
          blockStartsHere := fits &&
            (if end == n then j + 1 == k else line[end] != Cell.Filled && tail[end + 1, j + 1]);
        }
        tail[i, j] := gap || blockStartsHere;
      }
    }
  }

  /** The cells a standing block covers, over every block and start looked at so far. */
  ghost predicate CoveredBy(clues: seq<nat>, line: seq<Cell>, i: nat, blocks: nat, starts: nat)
    requires i < |line| && blocks <= |clues|
  {
    exists j, start :: 0 <= j < |clues| && (j < blocks || (j == blocks && start < starts)) &&
      0 <= start <= i < start + clues[j] && BlockStands(clues, line, j, start)
  }

  lemma CoverStep(clues: seq<nat>, line: seq<Cell>, j: nat, start: nat)
    requires j < |clues| && start < |line|
    ensures forall i :: 0 <= i < |line| ==>
              (CoveredBy(clues, line, i, j, start + 1) <==>
               CoveredBy(clues, line, i, j, start) || (start <= i < start + clues[j] && BlockStands(clues, line, j, start)))
  {
    forall i | 0 <= i < |line| && CoveredBy(clues, line, i, j, start)
      ensures CoveredBy(clues, line, i, j, start + 1)
    {
      var y, x :| 0 <= y < |clues| && (y < j || (y == j && x < start)) &&
        0 <= x <= i < x + clues[y] && BlockStands(clues, line, y, x);
    }
  }

  lemma CoverNext(clues: seq<nat>, line: seq<Cell>, j: nat)
    requires j < |clues|
    ensures forall i :: 0 <= i < |line| ==>
              (CoveredBy(clues, line, i, j, |line|) <==> CoveredBy(clues, line, i, j + 1, 0))
  {
    forall i | 0 <= i < |line| && CoveredBy(clues, line, i, j + 1, 0)
      ensures CoveredBy(clues, line, i, j, |line|)
    {
      var y, start :| 0 <= y < j + 1 && 0 <= start <= i < start + clues[y] && BlockStands(clues, line, y, start);
    }
  }

  method MarkBlocks(clues: seq<nat>, line: seq<Cell>, emptiesBefore: array<nat>, head: array2<bool>, tail: array2<bool>)
    returns (canFill: array<bool>)
    requires emptiesBefore.Length == |line| + 1
    requires forall i :: 0 <= i <= |line| ==> emptiesBefore[i] == CountEmpty(line[..i])
    requires head.Length0 == |line| + 1 && head.Length1 == |clues| + 1
    requires forall i, j :: 0 <= i <= |line| && 0 <= j <= |clues| ==> head[i, j] == Head(clues, line, i, j)
    requires tail.Length0 == |line| + 1 && tail.Length1 == |clues| + 1
    requires forall i, j :: 0 <= i <= |line| && 0 <= j <= |clues| ==> tail[i, j] == Tail(clues, line, i, j)
    ensures fresh(canFill) && canFill.Length == |line|
    ensures forall i :: 0 <= i < |line| ==> canFill[i] == CanFill(clues, line, i)
  {
    var n, k := |line|, |clues|;
    canFill := new bool[n](_ => false);
    for j := 0 to k
      invariant forall i :: 0 <= i < n ==> canFill[i] == CoveredBy(clues, line, i, j, 0)
    {
      var len := clues[j];
      for start := 0 to n
        invariant forall i :: 0 <= i < n ==> canFill[i] == CoveredBy(clues, line, i, j, start)
      {
        var fits := FitsAt(line, emptiesBefore, start, len);
        var stands := false;
        if fits {
          var before := if start == 0 then j == 0 else line[start - 1] != Cell.Filled && head[start - 1, j];
          var end := start + len;
          var after := if end == n then j + 1 == k else line[end] != Cell.Filled && tail[end + 1, j + 1];
          stands := before && after;
        }
        assert stands == BlockStands(clues, line, j, start);
        if stands {
          forall i | start <= i < start + len {
            canFill[i] := true;
          }
        }
        CoverStep(clues, line, j, start);
      }
      CoverNext(clues, line, j);
    }
  }

  /** `solve_line`. */
  method SolveLine(clues: seq<nat>, line: seq<Cell>) returns (r: Outcome)
    ensures r == Fold(clues, line)
    ensures Positive(clues) ==> r == Deduce(clues, line)
  {
    hide Head, Tail, Runs, Scan, CountEmpty;
    var n, k := |line|, |clues|;
    var emptiesBefore := PrefixEmpties(line);
    var head := HeadTable(clues, line, emptiesBefore);
    if Positive(clues) { FoldIsDeduce(clues, line); }
    if !head[n, k] {
      return NoPlacement;
    }
    var tail := TailTable(clues, line, emptiesBefore);
    var canFill := MarkBlocks(clues, line, emptiesBefore, head, tail);
    var cells: seq<Cell> := [];
    for i := 0 to n
      invariant |cells| == i
      invariant forall x :: 0 <= x < i ==> CanFill(clues, line, x) || MayBeEmpty(clues, line, x)
      invariant forall x :: 0 <= x < i ==> cells[x] == FoldCell(CanFill(clues, line, x), MayBeEmpty(clues, line, x))
    {
      var mayBeEmpty := false;
      if line[i] != Cell.Filled {
        for j := 0 to k + 1
          invariant mayBeEmpty <==> exists y :: 0 <= y < j && Head(clues, line, i, y) && Tail(clues, line, i + 1, y)
        {
          if head[i, j] && tail[i + 1, j] { mayBeEmpty := true; }
        }
      }
      match (canFill[i], mayBeEmpty)
      case (true, true) => cells := cells + [Unknown];
      case (true, false) => cells := cells + [Cell.Filled];
      case (false, true) => cells := cells + [Empty];
      case (false, false) => return Unreachable;
    }
    r := Agreed(cells);
  }

  // ----- where the promise ends -----

  function Room(clues: seq<nat>): nat {
    if clues == [] then 0 else Room(clues[..|clues| - 1]) + clues[|clues| - 1] + 1
  }

  /** A zero clue: an unfinished line of enough cells has a head path although no line has it. */
  lemma {:induction false} RoomyHead(clues: seq<nat>, line: seq<Cell>, j: nat, i: nat)
    requires j <= |clues| && i == Room(clues[..j]) <= |line|
    requires forall x :: 0 <= x < |line| ==> line[x] == Unknown
    ensures Head(clues, line, i, j)
    decreases j
  {
    if j == 0 {
    } else {
      assert clues[..j][..j - 1] == clues[..j - 1];
      RoomyHead(clues, line, j - 1, i - clues[j - 1] - 1);
    }
  }

  /** Every placement folded into what all agree on, and `None` without one: `solve_line` does that on every
      line exactly for the clue lists without a zero. */
  lemma ExactIffPositive(clues: seq<nat>)
    ensures (forall line :: Fold(clues, line) == Deduce(clues, line)) <==> Positive(clues)
  {
    if Positive(clues) {
      forall line ensures Fold(clues, line) == Deduce(clues, line) { FoldIsDeduce(clues, line); }
    } else {
      var line := seq(Room(clues), _ => Unknown);
      assert clues[..|clues|] == clues;
      RoomyHead(clues, line, |clues|, |line|);
      if s :| Solution(clues, line, s) { RunsPositive(s); }
      assert Fold(clues, line) != Deduce(clues, line);
    }
  }

  /** One unknown cell with the clue 0 runs into the `unreachable!` arm. */
  lemma ZeroClueIsUnreachable()
    ensures Fold([0], [Unknown]) == Unreachable
  {
    var c, l := [0], [Unknown];
    assert Head(c, l, 0, 0) && BlockFits(l, 1, 0) && Before(c, l, 1, 0) && Head(c, l, 1, 1);
    assert !Tail(c, l, 1, 0) && !Head(c, l, 0, 1);
    assert !MayBeEmpty(c, l, 0) && !CanFill(c, l, 0);
  }

  // ----- when the `unreachable!` arm is reached -----

  ghost predicate EndsInZero(clues: seq<nat>) { clues != [] && clues[|clues| - 1] == 0 }

  /** A last block of no cells, with room for all the others in front of an empty last cell, and none for
      itself among them. */
  ghost predicate Jams(clues: seq<nat>, line: seq<Cell>) {
    && EndsInZero(clues) && line != [] && CanEmpty(line, |line| - 1)
    && Head(clues, line, |line| - 1, |clues| - 1) && !Head(clues, line, |line| - 1, |clues|)
  }

  predicate Covered(clues: seq<nat>, line: seq<Cell>, i: nat)
    requires i < |line|
  {
    CanFill(clues, line, i) || MayBeEmpty(clues, line, i)
  }

  /** Cell `i` may be empty with blocks `..j` in front of it and the others behind it; or nothing is left. */
  predicate Rests(clues: seq<nat>, line: seq<Cell>, i: nat, j: nat)
    requires i <= |line| && j <= |clues|
  {
    if i == |line| then j == |clues| else CanEmpty(line, i) && Tail(clues, line, i + 1, j)
  }

  lemma RestsIsTail(clues: seq<nat>, line: seq<Cell>, i: nat, j: nat)
    requires i <= |line| && j <= |clues| && Rests(clues, line, i, j)
    ensures Tail(clues, line, i, j)
    ensures j > 0 ==> After(clues, line, i, j - 1)
  {
  }

  /** A block that ends at `i` on such a path stands, and the path goes on in front of the gap before it. */
  lemma BlockOnPath(clues: seq<nat>, line: seq<Cell>, i: nat, j: nat)
    requires 0 < i <= |line| && 0 < j <= |clues| && Rests(clues, line, i, j) && clues[j - 1] <= i
    requires BlockFits(line, i - clues[j - 1], clues[j - 1]) && Before(clues, line, i - clues[j - 1], j - 1)
    requires i == |line| ==> clues[j - 1] > 0
    ensures var start := i - clues[j - 1];
            (forall x :: start <= x < i ==> CanFill(clues, line, x)) && Tail(clues, line, start, j - 1)
  {
    hide Head;
    var start := i - clues[j - 1];
    RestsIsTail(clues, line, i, j);
    assert BlockStands(clues, line, j - 1, start);
  }

  /** Every cell on a path through the tables is covered. */
  lemma {:induction false} PathCovers(clues: seq<nat>, line: seq<Cell>, i: nat, j: nat)
    requires i <= |line| && j <= |clues| && Head(clues, line, i, j) && Rests(clues, line, i, j)
    requires i < |line| || !EndsInZero(clues)
    ensures forall x :: 0 <= x < i ==> Covered(clues, line, x)
    decreases i
  {
    hide CanFill, Tail, After;
    if i == 0 {
    } else {
      RestsIsTail(clues, line, i, j);
      if CanEmpty(line, i - 1) && Head(clues, line, i - 1, j) {
        assert MayBeEmpty(clues, line, i - 1);
        PathCovers(clues, line, i - 1, j);
      } else {
        BlockOnPath(clues, line, i, j);
        var start := i - clues[j - 1];
        if start > 0 {
          assert MayBeEmpty(clues, line, start - 1);
          PathCovers(clues, line, start - 1, j - 1);
        }
      }
    }
  }

  /** Behind a last block of no cells, the last cell can only be empty, with every block in front of it. */
  lemma LastCellAfterZero(clues: seq<nat>, line: seq<Cell>)
    requires EndsInZero(clues) && line != []
    ensures Covered(clues, line, |line| - 1) <==>
            CanEmpty(line, |line| - 1) && Head(clues, line, |line| - 1, |clues|)
  {
    hide Head, Before;
    var n, k := |line|, |clues|;
    assert forall j :: 0 <= j <= k ==> (Tail(clues, line, n, j) <==> j == k);
    assert !CanFill(clues, line, n - 1);
  }

  lemma FoldUnreachable(clues: seq<nat>, line: seq<Cell>)
    ensures Fold(clues, line) == Unreachable <==>
            Head(clues, line, |line|, |clues|) && exists i :: 0 <= i < |line| && !Covered(clues, line, i)
  {
    hide Head, CanFill, MayBeEmpty;
    if i :| 0 <= i < |line| && !CanFill(clues, line, i) && !MayBeEmpty(clues, line, i) {
      assert !Covered(clues, line, i);
    }
  }

  lemma RestsAtEnd(clues: seq<nat>, line: seq<Cell>)
    requires line != [] && CanEmpty(line, |line| - 1)
    ensures Rests(clues, line, |line| - 1, |clues|)
  {
  }

  /** The last step of the table, when the last block has no cells. */
  lemma LastHeadStep(clues: seq<nat>, line: seq<Cell>)
    requires EndsInZero(clues) && line != []
    ensures var n, k := |line|, |clues|;
            Head(clues, line, n, k) <==>
            CanEmpty(line, n - 1) && (Head(clues, line, n - 1, k) || Head(clues, line, n - 1, k - 1))
  {
    assert BlockFits(line, |line|, 0);
  }

  lemma NothingRests(clues: seq<nat>, line: seq<Cell>)
    ensures Rests(clues, line, |line|, |clues|)
  {
  }

  /** The arm is reached on exactly these lines. */
  lemma UnreachableIffJams(clues: seq<nat>, line: seq<Cell>)
    ensures Fold(clues, line) == Unreachable <==> Jams(clues, line)
  {
    hide Fold, Covered, Tail, Head, Rests;
    var n, k := |line|, |clues|;
    FoldUnreachable(clues, line);
    if n == 0 {
    } else if EndsInZero(clues) {
      LastHeadStep(clues, line);
      LastCellAfterZero(clues, line);
      if CanEmpty(line, n - 1) && Head(clues, line, n - 1, k) {
        RestsAtEnd(clues, line);
        PathCovers(clues, line, n - 1, k);
      }
    } else if Head(clues, line, n, k) {
      NothingRests(clues, line);
      PathCovers(clues, line, n, k);
    }
  }

  function Open(n: nat): (line: seq<Cell>)
    ensures |line| == n && forall x :: 0 <= x < n ==> line[x] == Unknown
  {
    seq(n, _ => Unknown)
  }

  /** The head table looks at nothing behind its cell. */
  lemma {:induction false} HeadOfPrefix(clues: seq<nat>, n: nat, m: nat, i: nat, j: nat)
    requires i <= n && i <= m && j <= |clues|
    ensures Head(clues, Open(n), i, j) <==> Head(clues, Open(m), i, j)
    decreases i
  {
    if i == 0 {
    } else {
      HeadOfPrefix(clues, n, m, i - 1, j);
      if j > 0 && clues[j - 1] < i {
        HeadOfPrefix(clues, n, m, i - clues[j - 1] - 1, j - 1);
      }
    }
  }

  /** The shortest open line with a head path: no shorter one has room. */
  lemma ShortestOpen(clues: seq<nat>) returns (n: nat)
    ensures Head(clues, Open(n), n, |clues|) && (n > 0 ==> !Head(clues, Open(n), n - 1, |clues|))
  {
    hide Head;
    n := Room(clues);
    assert clues[..|clues|] == clues;
    RoomyHead(clues, Open(n), |clues|, n);
    while n > 0 && Head(clues, Open(n), n - 1, |clues|)
      invariant Head(clues, Open(n), n, |clues|)
      decreases n
    {
      HeadOfPrefix(clues, n, n - 1, n - 1, |clues|);
      n := n - 1;
    }
  }

  lemma ShortestOpenJams(clues: seq<nat>) returns (n: nat)
    requires EndsInZero(clues)
    ensures Fold(clues, Open(n)) == Unreachable
  {
    hide Fold;
    n := ShortestOpen(clues);
    UnreachableIffJams(clues, Open(n));
  }

  /** A clue list can reach the arm on some line exactly when its last clue is zero. */
  lemma NeverUnreachableIff(clues: seq<nat>)
    ensures (forall line :: Fold(clues, line) != Unreachable) <==> !EndsInZero(clues)
  {
    hide Fold, Head;
    if EndsInZero(clues) {
      var n := ShortestOpenJams(clues);
    } else {
      forall line ensures Fold(clues, line) != Unreachable { UnreachableIffJams(clues, line); }
    }
  }

  /** `line_fits`; `None` stands for the panic of the `unreachable!` arm. */
  method LineFits(clues: seq<nat>, line: seq<Cell>) returns (fits: Option<bool>)
    ensures fits.None? <==> Jams(clues, line)
    ensures Positive(clues) ==> fits == Some(exists s :: Fits(s, line) && Runs(s) == clues)
  {
    hide Runs, Scan, Fold, Jams;
    var r := SolveLine(clues, line);
    UnreachableIffJams(clues, line);
    fits := if r.Unreachable? then None else Some(r.Agreed?);
    assert Solvable(clues, line) <==> exists s :: Fits(s, line) && Runs(s) == clues by {
      if s :| Fits(s, line) && Runs(s) == clues { assert Solution(clues, line, s); }
    }
  }

  // ----- with `derive_line_clues` -----

  // The promise once more, with the program's own clues of a finished line.

  ghost predicate DerivedSolution(clues: seq<nat>, line: seq<Cell>, s: seq<bool>) {
    Fits(s, line) && DeriveLineClues(s) == clues
  }

  ghost predicate SomeDerived(clues: seq<nat>, line: seq<Cell>, i: nat, value: bool)
    requires i < |line|
  {
    exists s :: DerivedSolution(clues, line, s) && s[i] == value
  }

  ghost function DerivedConsensus(clues: seq<nat>, line: seq<Cell>, i: nat): Cell
    requires i < |line|
  {
    if SomeDerived(clues, line, i, true) then
      if SomeDerived(clues, line, i, false) then Unknown else Filled
    else Empty
  }

  ghost function DeduceDerived(clues: seq<nat>, line: seq<Cell>): Outcome {
    if exists s :: DerivedSolution(clues, line, s) then
      Agreed(seq(|line|, i requires 0 <= i < |line| => DerivedConsensus(clues, line, i)))
    else NoPlacement
  }

  lemma ShortLinesDerive(clues: seq<nat>, line: seq<Cell>)
    requires |line| <= MAX_RUN
    ensures DeduceDerived(clues, line) == Deduce(clues, line)
  {
    hide Runs, Scan, DeriveLineClues;
    forall s ensures DerivedSolution(clues, line, s) <==> Solution(clues, line, s) {
      if |s| == |line| { DeriveIsRuns(s); }
    }
    forall i, value | 0 <= i < |line|
      ensures SomeDerived(clues, line, i, value) <==> SomeWith(clues, line, i, value)
    {
      if SomeDerived(clues, line, i, value) {
        var s :| DerivedSolution(clues, line, s) && s[i] == value;
        assert Solution(clues, line, s);
      }
      if SomeWith(clues, line, i, value) {
        var s :| Solution(clues, line, s) && s[i] == value;
        assert DerivedSolution(clues, line, s);
      }
    }
    if s :| Solution(clues, line, s) { assert DerivedSolution(clues, line, s); }
  }

  /** A full line of more than 255 cells has the derived clue 255, and no block of 255 fills it. */
  lemma LongLineDerives(n: nat)
    requires n > MAX_RUN
    ensures DeduceDerived([MAX_RUN], seq(n, _ => Cell.Filled)).Agreed?
    ensures !Deduce([MAX_RUN], seq(n, _ => Cell.Filled)).Agreed?
  {
    var clues, line := [MAX_RUN], seq(n, _ => Cell.Filled);
    var full := FilledRun(n);
    RunsFilledRun(n);
    assert DerivedSolution(clues, line, full);
    forall s | Fits(s, line) ensures s == full {}
  }

  /** In these terms the promise, `None` and cell by cell, holds for all lines of `n` cells exactly when `n`
      is at most 255. */
  lemma ExactForDerivedCluesIffShort(n: nat)
    ensures (forall clues, line :: Positive(clues) && |line| == n ==> Fold(clues, line) == DeduceDerived(clues, line))
            <==> n <= 255
  {
    hide Fold, Deduce, DeduceDerived;
    if n <= MAX_RUN {
      forall clues, line | Positive(clues) && |line| == n
        ensures Fold(clues, line) == DeduceDerived(clues, line)
      {
        FoldIsDeduce(clues, line);
        ShortLinesDerive(clues, line);
      }
    } else {
      LongLineDerives(n);
      FoldIsDeduce([MAX_RUN], seq(n, _ => Cell.Filled));
    }
  }

  // ----- knowing more -----

  /** `m` knows every cell `l` knows. */
  ghost predicate Refines(m: seq<Cell>, l: seq<Cell>) {
    |m| == |l| && forall i :: 0 <= i < |l| && l[i] != Unknown ==> m[i] == l[i]
  }

  lemma DeduceKeeps(clues: seq<nat>, line: seq<Cell>)
    requires Deduce(clues, line).Agreed?
    ensures Refines(Deduce(clues, line).cells, line)
    ensures forall s :: Solution(clues, line, s) <==> Solution(clues, Deduce(clues, line).cells, s)
  {
    var m := Deduce(clues, line).cells;
    var some :| Solution(clues, line, some);
    forall i | 0 <= i < |line| && line[i] != Unknown ensures m[i] == line[i] {
      assert SomeWith(clues, line, i, some[i]);
    }
    forall s | Solution(clues, line, s) ensures Solution(clues, m, s) {
      forall i | 0 <= i < |s| ensures (m[i] == Cell.Filled ==> s[i]) && (m[i] == Empty ==> !s[i]) {
        assert SomeWith(clues, line, i, s[i]);
      }
    }
  }

  /** Line logic is monotone: a line that knows more deduces more, and contradicts more. */
  lemma DeduceMonotone(clues: seq<nat>, line: seq<Cell>, more: seq<Cell>)
    requires Refines(more, line) && Deduce(clues, more).Agreed?
    ensures Deduce(clues, line).Agreed? && Refines(Deduce(clues, more).cells, Deduce(clues, line).cells)
  {
    forall s | Solution(clues, more, s) ensures Solution(clues, line, s) {}
    var l, m := Deduce(clues, line).cells, Deduce(clues, more).cells;
    var some :| Solution(clues, more, some);
    forall i | 0 <= i < |l| && l[i] != Unknown ensures m[i] == l[i] {
      assert SomeWith(clues, more, i, some[i]);
      assert SomeWith(clues, line, i, some[i]);
      if SomeWith(clues, more, i, !some[i]) { assert SomeWith(clues, line, i, !some[i]); }
    }
  }

  /** A second sweep over the same line finds nothing new. */
  lemma DeduceIdempotent(clues: seq<nat>, line: seq<Cell>)
    requires Deduce(clues, line).Agreed?
    ensures Deduce(clues, Deduce(clues, line).cells) == Deduce(clues, line)
  {
    var m := Deduce(clues, line).cells;
    DeduceKeeps(clues, line);
    assert Solvable(clues, m);
    forall i | 0 <= i < |line| ensures Consensus(clues, m, i) == Consensus(clues, line, i) {
      assert SomeWith(clues, m, i, true) <==> SomeWith(clues, line, i, true);
      assert SomeWith(clues, m, i, false) <==> SomeWith(clues, line, i, false);
    }
  }
}
