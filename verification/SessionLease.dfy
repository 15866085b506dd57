/** One game per account: the lease a bridge holds from the shell request until its child is dead and its
    save flushed. Shell requests, hang-ups, child exits and the bridges' own steps interleave freely. */
module SessionLease {

  type Account = string

  /** The child process a bridge started. `Doomed`: sent SIGKILL by a drop, not waited for. */
  datatype Child = Unborn | Alive | Doomed | Dead

  /** Where `run_bridge` stands. `Spawned` is between the child's start and the loop, where cloning the
      pty for the reader can still fail. */
  datatype Stage = Claimed | Spawned | Looping | Saving | Killing | Finished

  datatype Bridge = Bridge(account: Account, stage: Stage, child: Child)

  /** The shared set of active accounts, and every bridge there ever was. */
  datatype State = State(active: set<Account>, bridges: seq<Bridge>)

  datatype Step =
    | ShellRequest(account: Account)
    | SetupFails(b: nat)       // home directory, pty or spawn: no child yet
    | SpawnChild(b: nat)
    | ReaderFails(b: nat)      // the child is dropped, which kills it without waiting
    | EnterLoop(b: nat)
    | LoopChildExited(b: nat)  // includes a failed write to the pty
    | LoopTeardown(b: nat)     // client gone, channel broken, or host shutdown: SIGHUP and the grace
    | GraceOver(b: nat)        // the child exited in time, or the time is up
    | KillDone(b: nat)         // `child.kill().await` has waited for the exit
    | KillFails(b: nat)        // it gave an error, which is ignored; the child is dropped as above
    | ChildDies(b: nat)

  predicate At(s: State, b: nat, stage: Stage) { b < |s.bridges| && s.bridges[b].stage == stage }

  predicate Enabled(s: State, step: Step) {
    match step
    case ShellRequest(_) => true
    case SetupFails(b) => At(s, b, Claimed)
    case SpawnChild(b) => At(s, b, Claimed)
    case ReaderFails(b) => At(s, b, Spawned)
    case EnterLoop(b) => At(s, b, Spawned)
    case LoopChildExited(b) => At(s, b, Looping)
    case LoopTeardown(b) => At(s, b, Looping)
    case GraceOver(b) => At(s, b, Saving)
    case KillDone(b) => At(s, b, Killing) && s.bridges[b].child == Dead
    case KillFails(b) => At(s, b, Killing)
    case ChildDies(b) => b < |s.bridges| && s.bridges[b].child in {Alive, Doomed}
  }

  function Move(s: State, b: nat, stage: Stage, child: Child): State
    requires b < |s.bridges|
  {
    s.(bridges := s.bridges[b := s.bridges[b].(stage := stage, child := child)])
  }

  /** The bridge's task ends and drops its lease. */
  function Release(s: State, b: nat, child: Child): State
    requires b < |s.bridges|
  {
    Move(s, b, Finished, child).(active := s.active - {s.bridges[b].account})
  }

  /** Dropping a child that still lives kills it without waiting. */
  function Dropped(child: Child): Child { if child == Alive then Doomed else child }

  function Next(s: State, step: Step): State
    requires Enabled(s, step)
  {
    match step
    case ShellRequest(account) =>
      if account in s.active then s
      else State(s.active + {account}, s.bridges + [Bridge(account, Claimed, Unborn)])
    case SetupFails(b) => Release(s, b, Unborn)
    case SpawnChild(b) => Move(s, b, Spawned, Alive)
    case ReaderFails(b) => Release(s, b, Dropped(s.bridges[b].child))
    case EnterLoop(b) => Move(s, b, Looping, s.bridges[b].child)
    case LoopChildExited(b) => Move(s, b, Killing, s.bridges[b].child)
    case LoopTeardown(b) => Move(s, b, Saving, s.bridges[b].child)
    case GraceOver(b) => Move(s, b, Killing, s.bridges[b].child)
    case KillDone(b) => Release(s, b, Dead)
    case KillFails(b) => Release(s, b, Dropped(s.bridges[b].child))
    case ChildDies(b) => Move(s, b, s.bridges[b].stage, Dead)
  }

  /** The steps that end a bridge. */
  predicate Frees(step: Step) { step.SetupFails? || step.ReaderFails? || step.KillDone? || step.KillFails? }

  predicate Living(b: Bridge) { b.child == Alive || b.child == Doomed }

  /** Bridge `b` runs and holds the lease of `a`. */
  ghost predicate Holds(s: State, b: int, a: Account) {
    0 <= b < |s.bridges| && s.bridges[b].account == a && s.bridges[b].stage != Finished
  }

  /** The active set is exactly the accounts of the bridges still running, one bridge each, and a finished
      bridge's child is dead, was never born, or was dropped alive. */
  ghost predicate Inv(s: State) {
    && (forall a :: a in s.active <==> exists b :: 0 <= b < |s.bridges| && Holds(s, b, a))
    && (forall b, c :: 0 <= b < c < |s.bridges| && s.bridges[b].account == s.bridges[c].account ==>
          s.bridges[b].stage == Finished || s.bridges[c].stage == Finished)
    && (forall b :: 0 <= b < |s.bridges| ==>
          && (s.bridges[b].stage == Claimed ==> s.bridges[b].child == Unborn)
          && (s.bridges[b].stage !in {Claimed, Finished} ==> s.bridges[b].child in {Alive, Dead})
          && (s.bridges[b].child == Doomed ==> s.bridges[b].stage == Finished)
          && (s.bridges[b].stage == Finished ==> s.bridges[b].child != Alive))
  }

  lemma RequestKeeps(s: State, account: Account)
    requires Inv(s)
    ensures Inv(Next(s, ShellRequest(account)))
  {
    var next := Next(s, ShellRequest(account));
    if account !in s.active {
      var n := |s.bridges|;
      forall b | 0 <= b < n && s.bridges[b].account == account ensures s.bridges[b].stage == Finished {
        assert s.bridges[b].stage != Finished ==> Holds(s, b, account);
      }
      forall a ensures a in next.active <==> exists b :: 0 <= b < |next.bridges| && Holds(next, b, a) {
        if a == account { assert Holds(next, n, a); }
        if a in s.active {
          var b :| 0 <= b < n && Holds(s, b, a);
          assert Holds(next, b, a);
        }
        if b :| 0 <= b < n && Holds(next, b, a) { assert Holds(s, b, a); }
      }
    }
  }

  lemma ReleaseKeeps(s: State, step: Step)
    requires Inv(s) && Enabled(s, step) && Frees(step)
    ensures Inv(Next(s, step))
  {
    var next, r := Next(s, step), step.b;
    forall a ensures a in next.active <==> exists b :: 0 <= b < |next.bridges| && Holds(next, b, a) {
      if a in next.active {
        var b :| 0 <= b < |s.bridges| && Holds(s, b, a);
        assert b != r && Holds(next, b, a);
      }
      if b :| 0 <= b < |next.bridges| && Holds(next, b, a) {
        assert b != r && Holds(s, b, a) && Holds(s, r, s.bridges[r].account);
      }
    }
  }

  lemma MoveKeeps(s: State, step: Step)
    requires Inv(s) && Enabled(s, step)
    requires !step.ShellRequest? && !Frees(step)
    ensures Inv(Next(s, step))
  {
    var next := Next(s, step);
    forall a, b | 0 <= b < |s.bridges| ensures Holds(next, b, a) <==> Holds(s, b, a) {}
  }

  lemma StepKeeps(s: State, step: Step)
    requires Inv(s) && Enabled(s, step)
    ensures Inv(Next(s, step))
  {
    if step.ShellRequest? {
      RequestKeeps(s, step.account);
    } else if Frees(step) {
      ReleaseKeeps(s, step);
    } else {
      MoveKeeps(s, step);
    }
  }

  // ----- runs -----

  /** Steps taken from `s` on. */
  ghost predicate Continues(s: State, states: seq<State>, steps: seq<Step>) {
    && |states| == |steps| + 1 && states[0] == s
    && forall i :: 0 <= i < |steps| ==> Enabled(states[i], steps[i]) && states[i + 1] == Next(states[i], steps[i])
  }

  ghost predicate Run(states: seq<State>, steps: seq<Step>) { Continues(State({}, []), states, steps) }

  lemma NobodyYet()
    ensures Inv(State({}, []))
  {
  }

  lemma {:induction false} ContinuationKeeps(s: State, states: seq<State>, steps: seq<Step>, n: nat)
    requires Inv(s) && Continues(s, states, steps) && n <= |steps|
    ensures Inv(states[n])
    decreases n
  {
    hide Next, Enabled, Inv;
    if n == 0 {
    } else {
      ContinuationKeeps(s, states, steps, n - 1);
      StepKeeps(states[n - 1], steps[n - 1]);
    }
  }

  lemma RunKeeps(states: seq<State>, steps: seq<Step>, n: nat)
    requires Run(states, steps) && n <= |steps|
    ensures Inv(states[n])
  {
    hide Inv, Continues;
    NobodyYet();
    ContinuationKeeps(State({}, []), states, steps, n);
  }

  /** In every run the active set is the accounts of the bridges still running, no two of which share one. */
  lemma ActiveIsRunning(states: seq<State>, steps: seq<Step>, n: nat)
    requires Run(states, steps) && n <= |steps|
    ensures var s := states[n];
            s.active == (set b | 0 <= b < |s.bridges| && s.bridges[b].stage != Finished :: s.bridges[b].account) &&
            forall b, c :: 0 <= b < c < |s.bridges| && s.bridges[b].stage != Finished && s.bridges[c].stage != Finished ==>
              s.bridges[b].account != s.bridges[c].account
  {
    hide Next, Enabled;
    RunKeeps(states, steps, n);
    var s := states[n];
    forall a | a in s.active
      ensures a in (set b | 0 <= b < |s.bridges| && s.bridges[b].stage != Finished :: s.bridges[b].account)
    {
      var b :| 0 <= b < |s.bridges| && Holds(s, b, a);
    }
    forall b | 0 <= b < |s.bridges| && s.bridges[b].stage != Finished ensures s.bridges[b].account in s.active {
      assert Holds(s, b, s.bridges[b].account);
    }
  }

  /** Of two living children of one account at least one was dropped alive, by a setup that failed after the
      child had started or by a kill that gave an error. */
  lemma TwoLivingMeansDoomed(states: seq<State>, steps: seq<Step>, n: nat, b: nat, c: nat)
    requires Run(states, steps) && n <= |steps| && b < c < |states[n].bridges|
    requires states[n].bridges[b].account == states[n].bridges[c].account
    requires Living(states[n].bridges[b]) && Living(states[n].bridges[c])
    ensures states[n].bridges[b].child == Doomed || states[n].bridges[c].child == Doomed
  {
    hide Next, Enabled;
    RunKeeps(states, steps, n);
  }

  /** An account is freed only after its child is dead, exactly when the step that frees it is neither of
      those failures: the bridge a step finishes leaves a living child behind if and only if the reader or
      the kill failed while the child was alive. */
  lemma FreedWithLivingChildIff(states: seq<State>, steps: seq<Step>, n: nat, b: nat)
    requires Run(states, steps) && n < |steps| && b < |states[n].bridges|
    requires states[n].bridges[b].stage != Finished && states[n + 1].bridges[b].stage == Finished
    ensures Living(states[n + 1].bridges[b]) <==>
            (steps[n] == ReaderFails(b) || steps[n] == KillFails(b)) && states[n].bridges[b].child == Alive
    ensures states[n].bridges[b].account !in states[n + 1].active
  {
    RunKeeps(states, steps, n);
  }

  lemma NotYetABridge(s: State)
    ensures s == State({}, []) ==> |s.bridges| == 0
  {
  }

  /** No step but its own exit makes a child dead. */
  lemma OnlyExitsKill(s: State, step: Step, b: nat)
    requires Enabled(s, step) && b < |Next(s, step).bridges| && Next(s, step).bridges[b].child == Dead
    ensures step == ChildDies(b) || (b < |s.bridges| && s.bridges[b].child == Dead)
  {
  }

  /** In every run a child that counts as dead has exited, so a kill is over only after the exit. */
  lemma {:induction false} DeadHasExited(states: seq<State>, steps: seq<Step>, n: nat, b: nat)
    requires Run(states, steps) && n <= |steps| && b < |states[n].bridges| && states[n].bridges[b].child == Dead
    ensures exists i :: 0 <= i < n && steps[i] == ChildDies(b)
    decreases n
  {
    hide Next, Enabled;
    NotYetABridge(states[0]);
    OnlyExitsKill(states[n - 1], steps[n - 1], b);
    if steps[n - 1] != ChildDies(b) { DeadHasExited(states, steps, n - 1, b); }
  }

  // ----- the save grace -----

  lemma StageMoves(s: State, step: Step, b: nat)
    requires Enabled(s, step) && b < |s.bridges|
    ensures var next := Next(s, step);
            b < |next.bridges| && next.bridges[b].account == s.bridges[b].account &&
            (next.bridges[b].stage == Saving && s.bridges[b].stage != Saving ==> step == LoopTeardown(b)) &&
            (step == LoopTeardown(b) ==> next.bridges[b] == s.bridges[b].(stage := Saving)) &&
            (s.bridges[b].stage == Saving && next.bridges[b].stage != Saving ==> step == GraceOver(b))
  {
  }

  lemma NewBridge(s: State, step: Step, b: nat)
    requires Enabled(s, step) && |s.bridges| <= b < |Next(s, step).bridges|
    ensures Next(s, step).bridges[b].stage == Claimed
  {
  }

  /** A bridge is in its save grace only because its loop was torn down. */
  lemma {:induction false} GraceAfterTeardown(states: seq<State>, steps: seq<Step>, n: nat, b: nat)
    requires Run(states, steps) && n <= |steps| && b < |states[n].bridges| && states[n].bridges[b].stage == Saving
    ensures exists i :: 0 <= i < n && steps[i] == LoopTeardown(b)
    decreases n
  {
    hide Next, Enabled;
    NotYetABridge(states[0]);
    if b < |states[n - 1].bridges| {
      StageMoves(states[n - 1], steps[n - 1], b);
      if states[n - 1].bridges[b].stage == Saving { GraceAfterTeardown(states, steps, n - 1, b); }
    } else {
      NewBridge(states[n - 1], steps[n - 1], b);
    }
  }

  /** A torn down bridge leaves its grace only once the grace is over: no kill before the child had it. */
  lemma {:induction false} NoKillBeforeGrace(states: seq<State>, steps: seq<Step>, i: nat, n: nat, b: nat)
    requires Run(states, steps) && i < n <= |steps| && steps[i] == LoopTeardown(b)
    ensures b < |states[n].bridges|
    ensures states[n].bridges[b].stage == Saving || exists j :: i < j < n && steps[j] == GraceOver(b)
    decreases n
  {
    hide Next;
    if n == i + 1 {
      StageMoves(states[i], steps[i], b);
    } else {
      NoKillBeforeGrace(states, steps, i, n - 1, b);
      StageMoves(states[n - 1], steps[n - 1], b);
    }
  }

  // ----- one living child per account -----

  ghost predicate OneChildEach(s: State) {
    forall b, c :: 0 <= b < c < |s.bridges| && s.bridges[b].account == s.bridges[c].account ==>
      !(Living(s.bridges[b]) && Living(s.bridges[c]))
  }

  ghost predicate NoneDoomed(s: State) { forall b :: 0 <= b < |s.bridges| ==> s.bridges[b].child != Doomed }

  /** The step drops a child that lives. */
  predicate DropsAlive(s: State, step: Step)
    requires Enabled(s, step)
  {
    (step.ReaderFails? || step.KillFails?) && s.bridges[step.b].child == Alive
  }

  /** Steps from `s` on, none of which drops a living child. */
  ghost predicate ContinuesCleanly(s: State, states: seq<State>, steps: seq<Step>) {
    && Continues(s, states, steps)
    && forall i :: 0 <= i < |steps| ==> Enabled(states[i], steps[i]) && !DropsAlive(states[i], steps[i])
  }

  lemma CleanStepDoomsNobody(s: State, step: Step)
    requires Inv(s) && Enabled(s, step) && NoneDoomed(s) && !DropsAlive(s, step)
    ensures NoneDoomed(Next(s, step))
  {
  }

  lemma {:induction false} CleanlyDoomsNobody(s: State, states: seq<State>, steps: seq<Step>, n: nat)
    requires Inv(s) && NoneDoomed(s) && ContinuesCleanly(s, states, steps) && n <= |steps|
    ensures Inv(states[n]) && NoneDoomed(states[n])
    decreases n
  {
    hide Next, Enabled, Inv, NoneDoomed, DropsAlive;
    if n == 0 {
    } else {
      CleanlyDoomsNobody(s, states, steps, n - 1);
      StepKeeps(states[n - 1], steps[n - 1]);
      CleanStepDoomsNobody(states[n - 1], steps[n - 1]);
    }
  }

  lemma NoneDoomedOneEach(s: State)
    requires Inv(s) && NoneDoomed(s)
    ensures OneChildEach(s)
  {
  }

  /** How far a bridge is from its end. */
  function Rank(b: Bridge): nat {
    match b.stage
    case Claimed => 1
    case Spawned => 5
    case Looping => 4
    case Saving => 3
    case Killing => if b.child == Dead then 1 else 2
    case Finished => 0
  }

  /** A step that takes a bridge nearer to its end and drops no living child. */
  function Onward(s: State, b: nat): Step
    requires b < |s.bridges| && s.bridges[b].stage != Finished
  {
    match s.bridges[b].stage
    case Claimed => SetupFails(b)
    case Spawned => EnterLoop(b)
    case Looping => LoopChildExited(b)
    case Saving => GraceOver(b)
    case Killing => if s.bridges[b].child == Dead then KillDone(b) else ChildDies(b)
  }

  lemma StageOfChild(s: State, b: nat)
    requires Inv(s) && b < |s.bridges|
    ensures s.bridges[b].stage !in {Claimed, Finished} ==> s.bridges[b].child in {Alive, Dead}
  {
  }

  lemma OnwardIsStep(s: State, b: nat)
    requires Inv(s) && b < |s.bridges| && s.bridges[b].stage != Finished
    ensures var step := Onward(s, b);
            Enabled(s, step) && !DropsAlive(s, step) &&
            var next := Next(s, step);
            |next.bridges| == |s.bridges| && Rank(next.bridges[b]) < Rank(s.bridges[b]) &&
            next.bridges[b].account == s.bridges[b].account &&
            (next.bridges[b].stage == Finished ==> s.bridges[b].account !in next.active) &&
            forall c :: 0 <= c < |s.bridges| && c != b ==> next.bridges[c] == s.bridges[c]
  {
    hide Inv;
    StageOfChild(s, b);
  }

  lemma StepInFront(s: State, step: Step, states: seq<State>, steps: seq<Step>)
    requires Enabled(s, step) && !DropsAlive(s, step) && ContinuesCleanly(Next(s, step), states, steps)
    ensures ContinuesCleanly(s, [s] + states, [step] + steps)
    ensures ([s] + states)[|steps| + 1] == states[|steps|]
  {
    hide Next, Enabled, DropsAlive;
    var all, more := [s] + states, [step] + steps;
    forall i | 0 <= i < |more|
      ensures Enabled(all[i], more[i]) && !DropsAlive(all[i], more[i]) && all[i + 1] == Next(all[i], more[i])
    {
      if i > 0 { assert all[i] == states[i - 1] && more[i] == steps[i - 1] && all[i + 1] == states[i]; }
    }
  }

  lemma StayingIsClean(s: State)
    ensures ContinuesCleanly(s, [s], [])
  {
  }

  /** The account's bridge ends, and a quick relaunch starts a second child beside the dropped one. */
  lemma SecondChildStarts(s: State, d: nat, a: Account) returns (states: seq<State>, steps: seq<Step>)
    requires Inv(s) && d < |s.bridges| && s.bridges[d] == Bridge(a, Finished, Doomed) && a !in s.active
    ensures ContinuesCleanly(s, states, steps) && !OneChildEach(states[|steps|])
  {
    var n := |s.bridges|;
    var s1 := Next(s, ShellRequest(a));
    var s2 := Next(s1, SpawnChild(n));
    assert s2.bridges[n] == Bridge(a, Spawned, Alive) && s2.bridges[d] == s.bridges[d];
    StayingIsClean(s2);
    StepInFront(s1, SpawnChild(n), [s2], []);
    StepInFront(s, ShellRequest(a), [s1] + [s2], [SpawnChild(n)] + []);
    states, steps := [s] + ([s1] + [s2]), [ShellRequest(a)] + ([SpawnChild(n)] + []);
  }

  lemma {:induction false} BridgeEndsFirst(s: State, d: nat, b: nat, a: Account)
    returns (states: seq<State>, steps: seq<Step>)
    requires Inv(s) && d < |s.bridges| && s.bridges[d] == Bridge(a, Finished, Doomed)
    requires b < |s.bridges| && b != d && s.bridges[b].account == a && s.bridges[b].stage != Finished
    ensures ContinuesCleanly(s, states, steps) && !OneChildEach(states[|steps|])
    decreases Rank(s.bridges[b])
  {
    hide Inv, Next, Enabled, DropsAlive, Onward, Rank, OneChildEach, ContinuesCleanly;
    OnwardIsStep(s, b);
    var step := Onward(s, b);
    StepKeeps(s, step);
    var next := Next(s, step);
    var states', steps';
    if next.bridges[b].stage == Finished {
      states', steps' := SecondChildStarts(next, d, a);
    } else {
      states', steps' := BridgeEndsFirst(next, d, b, a);
    }
    StepInFront(s, step, states', steps');
    states, steps := [s] + states', [step] + steps';
  }

  lemma DoomedSurfaces(s: State, d: nat) returns (states: seq<State>, steps: seq<Step>)
    requires Inv(s) && d < |s.bridges| && s.bridges[d].child == Doomed
    ensures ContinuesCleanly(s, states, steps) && !OneChildEach(states[|steps|])
  {
    hide Next, Enabled, DropsAlive, OneChildEach, ContinuesCleanly;
    var a := s.bridges[d].account;
    assert s.bridges[d] == Bridge(a, Finished, Doomed);
    if a in s.active {
      var b :| 0 <= b < |s.bridges| && Holds(s, b, a);
      states, steps := BridgeEndsFirst(s, d, b, a);
    } else {
      states, steps := SecondChildStarts(s, d, a);
    }
  }

  /** Whatever comes, as long as no further living child is dropped, no account will have two living children. */
  ghost predicate StaysSingle(s: State) {
    forall states: seq<State>, steps: seq<Step> :: ContinuesCleanly(s, states, steps) ==> OneChildEach(states[|steps|])
  }

  /** Where the promise of one child per account ends: from any reachable state it holds for every clean
      continuation if and only if no dropped child still lives. */
  lemma SingleIffNoneDoomed(before: seq<State>, past: seq<Step>, n: nat)
    requires Run(before, past) && n <= |past|
    ensures StaysSingle(before[n]) <==> NoneDoomed(before[n])
  {
    hide Next, Enabled, Inv, OneChildEach;
    RunKeeps(before, past, n);
    var s := before[n];
    if NoneDoomed(s) {
      forall states: seq<State>, steps: seq<Step> | ContinuesCleanly(s, states, steps)
        ensures OneChildEach(states[|steps|])
      {
        CleanlyDoomsNobody(s, states, steps, |steps|);
        NoneDoomedOneEach(states[|steps|]);
      }
    } else {
      var d :| 0 <= d < |s.bridges| && s.bridges[d].child == Doomed;
      var states, steps := DoomedSurfaces(s, d);
    }
  }

  /** A run that never drops a living child keeps to one living child per account throughout. */
  lemma CleanRunStaysSingle(states: seq<State>, steps: seq<Step>, n: nat)
    requires ContinuesCleanly(State({}, []), states, steps) && n <= |steps|
    ensures OneChildEach(states[n])
  {
    hide Next, Enabled, Inv, OneChildEach;
    NobodyYet();
    CleanlyDoomsNobody(State({}, []), states, steps, n);
    NoneDoomedOneEach(states[n]);
  }

  const ANN: Account := "ann"

  const OVERLAP: seq<State> := [
    State({}, []),
    State({ANN}, [Bridge(ANN, Claimed, Unborn)]),
    State({ANN}, [Bridge(ANN, Spawned, Alive)]),
    State({}, [Bridge(ANN, Finished, Doomed)]),
    State({ANN}, [Bridge(ANN, Finished, Doomed), Bridge(ANN, Claimed, Unborn)]),
    State({ANN}, [Bridge(ANN, Finished, Doomed), Bridge(ANN, Spawned, Alive)])]

  const OVERLAP_STEPS: seq<Step> := [ShellRequest(ANN), SpawnChild(0), ReaderFails(0), ShellRequest(ANN), SpawnChild(1)]

  lemma OverlapStep(i: nat)
    requires i < |OVERLAP_STEPS|
    ensures Enabled(OVERLAP[i], OVERLAP_STEPS[i]) && OVERLAP[i + 1] == Next(OVERLAP[i], OVERLAP_STEPS[i])
  {
  }

  /** It does happen: the reader's pty clone fails, and a quick relaunch starts a second child. */
  lemma DoomedChildOverlaps()
    ensures Run(OVERLAP, OVERLAP_STEPS) && Living(OVERLAP[5].bridges[0]) && Living(OVERLAP[5].bridges[1])
  {
    forall i | 0 <= i < |OVERLAP_STEPS|
      ensures Enabled(OVERLAP[i], OVERLAP_STEPS[i]) && OVERLAP[i + 1] == Next(OVERLAP[i], OVERLAP_STEPS[i])
    {
      hide Next, Enabled;
      OverlapStep(i);
    }
  }
}
