/** The clue list of a nonogram line: the lengths of its runs of filled cells, left to right.

    A finished line is a `seq<bool>`: `true` stands for the cell value 1 and `false` for 0.
    `Runs` is the clue list without any bound on a run's length; `Derive` is the loop of the
    program, whose run counter is a byte that saturates at 255. */
module LineClues {

  const MAX_RUN := 255

  /** `n` filled cells in a row. */
  function FilledRun(n: nat): (s: seq<bool>)
    ensures |s| == n && forall i :: 0 <= i < n ==> s[i]
  {
    seq(n, _ => true)
  }

  /** The runs already closed in `s`, and the length of the run still open at its end. */
  function Scan(s: seq<bool>): (seq<nat>, nat) {
    if s == [] then ([], 0)
    else
      var (closed, open) := Scan(s[..|s| - 1]);
      if s[|s| - 1] then (closed, open + 1)
      else if open > 0 then (closed + [open], 0)
      else (closed, 0)
  }

  function Runs(s: seq<bool>): seq<nat> {
    var (closed, open) := Scan(s);
    if open > 0 then closed + [open] else closed
  }

  ghost predicate Positive(clues: seq<nat>) {
    forall j :: 0 <= j < |clues| ==> clues[j] > 0
  }

  // ----- how runs compose -----

  lemma {:induction false} ScanFilledRun(n: nat)
    ensures Scan(FilledRun(n)) == ([], n)
  {
    if n == 0 {
    } else {
      assert FilledRun(n)[..n - 1] == FilledRun(n - 1);
      ScanFilledRun(n - 1);
    }
  }

  /** An empty cell closes what is on its left: the right part is scanned on its own. */
  lemma {:induction false} ScanAfterGap(s: seq<bool>, t: seq<bool>)
    ensures Scan(s + [false] + t) == (Runs(s) + Scan(t).0, Scan(t).1)
  {
    var whole := s + [false] + t;
    if t == [] {
      assert whole[..|whole| - 1] == s;
      assert whole[|whole| - 1] == false;
      assert Runs(s) + [] == Runs(s);
    } else {
      var t' := t[..|t| - 1];
      assert whole[..|whole| - 1] == s + [false] + t';
      assert whole[|whole| - 1] == t[|t| - 1];
      ScanAfterGap(s, t');
      var (closed, open) := Scan(t');
      assert Runs(s) + (closed + [open]) == (Runs(s) + closed) + [open];
    }
  }

  /** Splitting a line at an empty cell splits its clue list. */
  lemma RunsSplitAtGap(s: seq<bool>, t: seq<bool>)
    ensures Runs(s + [false] + t) == Runs(s) + Runs(t)
  {
    ScanAfterGap(s, t);
    var (closed, open) := Scan(t);
    if open > 0 {
      assert Runs(s) + (closed + [open]) == (Runs(s) + closed) + [open];
    }
  }

  lemma RunsFilledRun(n: nat)
    ensures Runs(FilledRun(n)) == if n > 0 then [n] else []
  {
    ScanFilledRun(n);
  }

  lemma RunsNil()
    ensures Runs([]) == []
  {
  }

  /** A run ends where its line ends or at an empty cell. */
  ghost predicate ClosedRight(s: seq<bool>) { s == [] || !s[|s| - 1] }
  ghost predicate ClosedLeft(s: seq<bool>) { s == [] || !s[0] }

  lemma RunsDropGap(q: seq<bool>)
    requires q != [] && !q[0]
    ensures Runs(q) == Runs(q[1..])
  {
    assert q == [] + [false] + q[1..];
    RunsSplitAtGap([], q[1..]);
  }

  /** The clue list around one whole run. */
  lemma RunsAroundBlock(p: seq<bool>, len: nat, q: seq<bool>)
    requires len > 0 && ClosedRight(p) && ClosedLeft(q)
    ensures Runs(p + FilledRun(len) + q) == Runs(p) + [len] + Runs(q)
  {
    hide Runs, Scan;
    RunsNil();
    RunsFilledRun(len);
    var right := FilledRun(len) + q;
    assert Runs(right) == [len] + Runs(q) by {
      if q == [] {
        assert right == FilledRun(len);
      } else {
        assert right == FilledRun(len) + [false] + q[1..];
        RunsSplitAtGap(FilledRun(len), q[1..]);
        RunsDropGap(q);
      }
    }
    if p == [] {
      assert p + FilledRun(len) + q == right;
    } else {
      assert p + FilledRun(len) + q == p[..|p| - 1] + [false] + right;
      RunsSplitAtGap(p[..|p| - 1], right);
      assert Runs(p) == Runs(p[..|p| - 1]) by {
        assert p == p[..|p| - 1] + [false] + [];
        RunsSplitAtGap(p[..|p| - 1], []);
      }
    }
  }

  lemma RunsDropLastGap(p: seq<bool>)
    requires p != [] && !p[|p| - 1]
    ensures Runs(p) == Runs(p[..|p| - 1])
  {
    assert p == p[..|p| - 1] + [false] + [];
    RunsSplitAtGap(p[..|p| - 1], []);
  }

  lemma {:induction false} ScanPositive(s: seq<bool>)
    ensures Positive(Scan(s).0)
  {
    if s == [] {
    } else {
      ScanPositive(s[..|s| - 1]);
    }
  }

  lemma RunsPositive(s: seq<bool>)
    ensures Positive(Runs(s))
  {
    ScanPositive(s);
  }

  /** Where the run through a filled cell begins and ends. */
  lemma RunThrough(s: seq<bool>, i: nat) returns (start: nat, end: nat)
    requires i < |s| && s[i]
    ensures start <= i < end <= |s|
    ensures forall k :: start <= k < end ==> s[k]
    ensures ClosedRight(s[..start]) && ClosedLeft(s[end..])
    ensures s == s[..start] + FilledRun(end - start) + s[end..]
  {
    start := i;
    while start > 0 && s[start - 1]
      invariant start <= i && forall k :: start <= k <= i ==> s[k]
    {
      start := start - 1;
    }
    end := i + 1;
    while end < |s| && s[end]
      invariant i < end <= |s| && forall k :: start <= k < end ==> s[k]
    {
      end := end + 1;
    }
  }

  // ----- the program's loop -----

  function Saturated(run: nat): nat { if run > MAX_RUN then MAX_RUN else run }

  /** What the byte-wide counter makes of a clue list. */
  function SaturatedAll(runs: seq<nat>): (r: seq<nat>)
    ensures |r| == |runs| && forall j :: 0 <= j < |r| ==> r[j] == Saturated(runs[j])
  {
    seq(|runs|, j requires 0 <= j < |runs| => Saturated(runs[j]))
  }

  /** `derive_line_clues`: what the program calls the clues of a finished line. */
  function DeriveLineClues(s: seq<bool>): seq<nat> { SaturatedAll(Runs(s)) }

  method Derive(cells: seq<bool>) returns (clues: seq<nat>)
    ensures clues == DeriveLineClues(cells)
  {
    clues := [];
    var run := 0;
    for i := 0 to |cells|
      invariant clues == SaturatedAll(Scan(cells[..i]).0)
      invariant run == Saturated(Scan(cells[..i]).1)
    {
      assert cells[..i + 1][..i] == cells[..i];
      if cells[i] {
        run := if run == MAX_RUN then MAX_RUN else run + 1;
      } else if run > 0 {
        clues := clues + [run];
        run := 0;
      }
    }
    assert cells[..|cells|] == cells;
    if run > 0 {
      clues := clues + [run];
    }
  }

  /** No run is longer than its line, so a short line never saturates. */
  lemma {:induction false} ScanBounded(s: seq<bool>)
    ensures Scan(s).1 <= |s|
    ensures forall j :: 0 <= j < |Scan(s).0| ==> Scan(s).0[j] <= |s|
  {
    if s == [] {
    } else {
      ScanBounded(s[..|s| - 1]);
    }
  }

  lemma DeriveIsRuns(s: seq<bool>)
    requires |s| <= 255
    ensures DeriveLineClues(s) == Runs(s)
  {
    ScanBounded(s);
  }

  // ----- placements -----

  ghost predicate Covers(clues: seq<nat>, starts: seq<nat>, j: int, i: int) {
    0 <= j < |starts| && j < |clues| && starts[j] <= i < starts[j] + clues[j]
  }

  /** Block `j` of `clues` sits on the cells from `starts[j]` on; blocks come in order with at
      least one empty cell between them, and no other cell is filled. */
  ghost predicate Placed(s: seq<bool>, clues: seq<nat>, starts: seq<nat>) {
    && |starts| == |clues|
    && (forall j :: 0 <= j < |starts| ==> starts[j] + clues[j] <= |s|)
    && (forall j :: 0 <= j < |starts| - 1 ==> starts[j] + clues[j] < starts[j + 1])
    && (forall i :: 0 <= i < |s| ==> (s[i] <==> exists j :: Covers(clues, starts, j, i)))
  }

  lemma {:induction false} RunsEmpty(s: seq<bool>)
    requires forall i :: 0 <= i < |s| ==> !s[i]
    ensures Runs(s) == []
  {
    if s == [] {
    } else {
      RunsDropGap(s);
      RunsEmpty(s[1..]);
    }
  }

  /** Every block but the last ends before the cell in front of the last block. */
  lemma StartsBefore(s: seq<bool>, clues: seq<nat>, starts: seq<nat>)
    requires |clues| > 0 && Placed(s, clues, starts)
    ensures forall j :: 0 <= j < |clues| - 1 ==> starts[j] + clues[j] < starts[|clues| - 1]
  {
    var k := |clues| - 1;
    var j := k;
    while j > 0
      invariant 0 <= j <= k
      invariant forall i :: j <= i < k ==> starts[i] + clues[i] < starts[k]
    {
      assert starts[j - 1] + clues[j - 1] < starts[j];
      j := j - 1;
    }
  }

  /** Taking the last block off leaves a placement of the others on the cells before it. */
  lemma PlacedShrinks(s: seq<bool>, clues: seq<nat>, starts: seq<nat>)
    requires |clues| > 0 && Positive(clues) && Placed(s, clues, starts)
    ensures Placed(s[..starts[|clues| - 1]], clues[..|clues| - 1], starts[..|clues| - 1])
  {
    var k := |clues| - 1;
    var p, clues', starts' := s[..starts[k]], clues[..k], starts[..k];
    StartsBefore(s, clues, starts);
    forall i | 0 <= i < |p| ensures p[i] <==> exists j :: Covers(clues', starts', j, i) {
      if p[i] {
        var j :| Covers(clues, starts, j, i);
        assert Covers(clues', starts', j, i);
      }
      if j :| Covers(clues', starts', j, i) {
        assert Covers(clues, starts, j, i);
      }
    }
  }

  /** A clue list describes a line exactly when its blocks can be placed on the line's filled cells. */
  lemma {:induction false} PlacedRuns(s: seq<bool>, clues: seq<nat>, starts: seq<nat>)
    requires Positive(clues) && Placed(s, clues, starts)
    ensures Runs(s) == clues
    decreases |clues|
  {
    hide Runs, Scan;
    var k := |clues|;
    if k == 0 {
      RunsEmpty(s);
    } else {
      var a, c := starts[k - 1], clues[k - 1];
      var p, q := s[..a], s[a + c..];
      StartsBefore(s, clues, starts);
      forall i | a <= i < a + c ensures s[i] { assert Covers(clues, starts, k - 1, i); }
      assert s == p + FilledRun(c) + q;
      forall i | 0 <= i < |q| ensures !q[i] { assert q[i] == s[a + c + i]; }
      RunsEmpty(q);
      PlacedShrinks(s, clues, starts);
      PlacedRuns(p, clues[..k - 1], starts[..k - 1]);
      assert p != [] ==> !s[a - 1];
      assert ClosedRight(p);
      RunsAroundBlock(p, c, q);
      assert clues == clues[..k - 1] + [c] + [];
    }
  }

  lemma PlacedGrows(p: seq<bool>, clues: seq<nat>, starts: seq<nat>, s: seq<bool>)
    requires Placed(p, clues, starts) && p <= s && forall i :: |p| <= i < |s| ==> !s[i]
    ensures Placed(s, clues, starts)
  {
    forall i | 0 <= i < |s| ensures s[i] <==> exists j :: Covers(clues, starts, j, i) {
      if i < |p| { assert s[i] == p[i]; }
    }
  }

  /** The run a line ends with. */
  lemma LastRun(s: seq<bool>) returns (start: nat)
    requires s != [] && s[|s| - 1]
    ensures start < |s| && ClosedRight(s[..start]) && forall k :: start <= k < |s| ==> s[k]
    ensures Runs(s) == Runs(s[..start]) + [|s| - start]
  {
    hide Runs, Scan;
    var n := |s|;
    var end;
    start, end := RunThrough(s, n - 1);
    RunsAroundBlock(s[..start], n - start, []);
    RunsNil();
    assert s[..start] + FilledRun(n - start) + [] == s;
    assert Runs(s[..start]) + [n - start] + [] == Runs(s[..start]) + [n - start];
  }

  lemma {:induction false} RunsPlaced(s: seq<bool>, clues: seq<nat>) returns (starts: seq<nat>)
    requires clues == Runs(s)
    ensures Placed(s, clues, starts)
    decreases |s|, 1
  {
    hide Runs, Scan;
    RunsNil();
    var n := |s|;
    if n == 0 {
      starts := [];
    } else if !s[n - 1] {
      RunsDropLastGap(s);
      starts := RunsPlaced(s[..n - 1], clues);
      PlacedGrows(s[..n - 1], clues, starts, s);
    } else {
      starts := LastBlockPlaced(s, clues);
    }
  }

  lemma BlocksEndBeforeGap(p: seq<bool>, starts: seq<nat>)
    requires Placed(p, Runs(p), starts) && ClosedRight(p)
    ensures forall j :: 0 <= j < |starts| ==> starts[j] + Runs(p)[j] < |p|
  {
    hide Runs, Scan;
    RunsPositive(p);
    forall j | 0 <= j < |starts| ensures starts[j] + Runs(p)[j] < |p| {
      assert starts[j] + Runs(p)[j] == |p| ==> Covers(Runs(p), starts, j, |p| - 1);
    }
  }

  lemma PlacedAppend(p: seq<bool>, clues: seq<nat>, starts: seq<nat>, s: seq<bool>, len: nat)
    requires Placed(p, clues, starts) && p <= s && |s| == |p| + len
    requires forall i :: |p| <= i < |s| ==> s[i]
    requires forall j :: 0 <= j < |starts| ==> starts[j] + clues[j] < |p|
    ensures Placed(s, clues + [len], starts + [|p|])
  {
    var clues', starts' := clues + [len], starts + [|p|];
    forall i | 0 <= i < |s| ensures s[i] <==> exists j :: Covers(clues', starts', j, i) {
      if i >= |p| {
        assert Covers(clues', starts', |starts|, i);
      } else {
        assert s[i] == p[i];
        if p[i] {
          var j :| Covers(clues, starts, j, i);
          assert Covers(clues', starts', j, i);
        }
        if j :| Covers(clues', starts', j, i) {
          assert Covers(clues, starts, j, i);
        }
      }
    }
  }

  lemma {:induction false} LastBlockPlaced(s: seq<bool>, clues: seq<nat>) returns (starts: seq<nat>)
    requires clues == Runs(s) && s != [] && s[|s| - 1]
    ensures Placed(s, clues, starts)
    decreases |s|, 0
  {
    hide Runs, Scan, Placed, ClosedRight;
    var start := LastRun(s);
    var p := s[..start];
    var before := RunsPlaced(p, Runs(p));
    BlocksEndBeforeGap(p, before);
    PlacedAppend(p, Runs(p), before, s, |s| - start);
    starts := before + [start];
  }

  /** The clue list of a line says exactly which placements of blocks give that line. */
  lemma CluesArePlacements(s: seq<bool>, clues: seq<nat>)
    requires Positive(clues)
    ensures Runs(s) == clues <==> exists starts :: Placed(s, clues, starts)
  {
    if Runs(s) == clues {
      var starts := RunsPlaced(s, clues);
    }
    if starts :| Placed(s, clues, starts) {
      PlacedRuns(s, clues, starts);
    }
  }
}
