/** The crash backoff of `WebviewPlaybackController`: a helper that keeps dying is left alone for a while.

    Times are integers; each clock reading of the program is a parameter, and the clock does not go back.
    What the operating system answers (does the helper still run, does it start) is a parameter too. */
module CrashBackoff {
  import opened Options

  const CRASH_WINDOW := 60
  const CRASH_LIMIT := 3
  const CRASH_BACKOFF := 5 * 60

  /** A recorded failure: when, and which of its window it was. */
  datatype Failure = Failure(time: int, ord: nat)

  /** What `try_wait` says of the helper. */
  datatype Wait = StillRunning | Exited | InspectError

  /** When the window of the last failure opened. */
  function WindowStart(log: seq<Failure>): int
    requires log != []
    decreases |log|
  {
    var last := log[|log| - 1];
    if last.ord <= 1 || |log| == 1 then last.time else WindowStart(log[..|log| - 1])
  }

  /** `f` may follow `before`: a failure inside the open window counts on, any other opens a window of its
      own, and after a third none comes until the backoff is over. */
  ghost predicate MayFollow(before: seq<Failure>, f: Failure) {
    if before == [] then f.ord == 1
    else
      var last := before[|before| - 1];
      && last.time <= f.time
      && if last.ord >= CRASH_LIMIT then f.ord == 1 && f.time >= last.time + CRASH_BACKOFF
         else if f.time - WindowStart(before) <= CRASH_WINDOW then f.ord == last.ord + 1
         else f.ord == 1
  }

  ghost predicate Spaced(log: seq<Failure>) {
    forall k :: 0 <= k < |log| ==> MayFollow(log[..k], log[k])
  }

  /** The failure a log goes on with at time `t`. */
  function NextFailure(log: seq<Failure>, t: int): Failure {
    if log == [] then Failure(t, 1)
    else
      var last := log[|log| - 1];
      Failure(t, if last.ord < CRASH_LIMIT && t - WindowStart(log) <= CRASH_WINDOW then last.ord + 1 else 1)
  }

  function Logged(log: seq<Failure>, fails: bool, t: int): seq<Failure> {
    if fails then log + [NextFailure(log, t)] else log
  }

  /** The last failure was the third of its window, and its backoff is not over. */
  predicate Quiet(log: seq<Failure>, t: int) {
    log != [] && log[|log| - 1].ord == CRASH_LIMIT && t < log[|log| - 1].time + CRASH_BACKOFF
  }

  /** The last failure was the third of its window, and its backoff is over. */
  ghost predicate Rested(log: seq<Failure>, clock: int)
    requires log != []
  {
    log[|log| - 1].ord >= CRASH_LIMIT && clock >= log[|log| - 1].time + CRASH_BACKOFF
  }

  /** The counters against the log of all failures. */
  ghost predicate Consistent(log: seq<Failure>, clock: int, started: Option<int>, count: nat, disabled: Option<int>) {
    && (log != [] ==> log[|log| - 1].time <= clock)
    && (disabled.Some? ==>
          log != [] && log[|log| - 1].ord == CRASH_LIMIT && disabled == Some(log[|log| - 1].time + CRASH_BACKOFF))
    // without a window, no earlier failure can share one with the next
    && (started == None ==> count == 0 && disabled == None && (log != [] ==> Rested(log, clock)))
    && (started.Some? ==> log != [] && count == log[|log| - 1].ord && started.value == WindowStart(log))
    && (started.Some? && disabled == None ==> count < CRASH_LIMIT)
  }

  /** The counters say whether the backoff is on; the log alone says the same. */
  lemma QuietIsDisabled(log: seq<Failure>, clock: int, started: Option<int>, count: nat, disabled: Option<int>, t: int)
    requires Consistent(log, clock, started, count, disabled) && clock <= t
    ensures Quiet(log, t) <==> disabled.Some? && t < disabled.value
  {
    hide WindowStart;
  }

  lemma WindowNext(log: seq<Failure>, f: Failure)
    ensures WindowStart(log + [f]) == if f.ord <= 1 || log == [] then f.time else WindowStart(log)
  {
    assert (log + [f])[..|log|] == log;
  }

  lemma SpacedNext(log: seq<Failure>, f: Failure)
    requires Spaced(log) && MayFollow(log, f)
    ensures Spaced(log + [f])
  {
    hide MayFollow;
    var next := log + [f];
    forall k | 0 <= k < |next| ensures MayFollow(next[..k], next[k]) {
      if k < |log| {
        assert next[..k] == log[..k] && next[k] == log[k];
      } else {
        assert next[..k] == log;
      }
    }
  }

  lemma Consecutive(log: seq<Failure>, k: nat)
    requires Spaced(log) && k + 1 < |log|
    ensures log[k].time <= log[k + 1].time
    ensures log[k].ord >= CRASH_LIMIT ==> log[k + 1].ord == 1 && log[k + 1].time >= log[k].time + CRASH_BACKOFF
    ensures log[k].ord < CRASH_LIMIT ==> log[k + 1].ord == log[k].ord + 1 || log[k + 1].ord == 1
    ensures log[k].ord == 1 && log[k + 1].ord == 1 ==> log[k + 1].time - log[k].time > CRASH_WINDOW
  {
    assert MayFollow(log[..k + 1], log[k + 1]);
  }

  lemma {:induction false} OrdsAreSmall(log: seq<Failure>, k: nat)
    requires Spaced(log) && k < |log|
    ensures 1 <= log[k].ord <= CRASH_LIMIT
  {
    assert MayFollow(log[..k], log[k]);
    if k == 0 {
    } else {
      OrdsAreSmall(log, k - 1);
      Consecutive(log, k - 1);
    }
  }

  lemma Recorded(log: seq<Failure>, clock: int, started: Option<int>, count: nat, now: int)
    requires Spaced(log) && Consistent(log, clock, started, count, None) && clock <= now
    ensures var counts := started.Some? && now - started.value <= CRASH_WINDOW;
            var f := Failure(now, if counts then count + 1 else 1);
            f == NextFailure(log, now) && Spaced(log + [f]) && (log + [f])[..|log|] == log && f.ord <= CRASH_LIMIT &&
            Consistent(log + [f], now, if counts then started else Some(now), f.ord,
                       if f.ord >= CRASH_LIMIT then Some(now + CRASH_BACKOFF) else None)
  {
    hide Spaced, WindowStart;
    var counts := started.Some? && now - started.value <= CRASH_WINDOW;
    var f := Failure(now, if counts then count + 1 else 1);
    assert (log + [f])[..|log|] == log;
    if log != [] { OrdsAreSmall(log, |log| - 1); }
    WindowNext(log, f);
    SpacedNext(log, f);
  }

  datatype Outcome = Outcome(child: bool, log: seq<Failure>)

  /** What an attempt to have a helper comes to, told by the log of failures alone. */
  function EnterOutcome(child: bool, log: seq<Failure>, t0: int, t1: int, t2: int, wait: Wait, starts: bool): Outcome {
    var died := child && wait != StillRunning;
    var after := Logged(log, died, t0);
    if (child && !died) || Quiet(after, t1) then Outcome(child && !died, after)
    else Outcome(starts, Logged(after, !starts, t2))
  }

  class WebviewPlaybackController {
    var child: bool
    var wantsYoutube: bool
    var suspendedForVideo: bool
    var crashWindowStarted: Option<int>
    var crashCount: nat
    var disabledUntil: Option<int>
    ghost var log: seq<Failure>      // every failure recorded
    ghost var clock: int

    ghost predicate Valid()
      reads this
    {
      && Spaced(log)
      && (child ==> disabledUntil == None)
      && Consistent(log, clock, crashWindowStarted, crashCount, disabledUntil)
    }

    constructor (ghost now: int)
      ensures Valid() && log == [] && clock == now
      ensures !child && !wantsYoutube && !suspendedForVideo && disabledUntil == None
    {
      child, wantsYoutube, suspendedForVideo := false, false, false;
      crashWindowStarted, crashCount, disabledUntil := None, 0, None;
      log, clock := [], now;
    }

    /** `record_helper_failure`. */
    method RecordFailure(now: int)
      requires Valid() && clock <= now && !child && disabledUntil == None
      modifies this`crashWindowStarted, this`crashCount, this`disabledUntil, this`log, this`clock
      ensures Valid() && clock == now && !child
      ensures log == Logged(old(log), true, now)
      ensures disabledUntil.Some? <==> log[|log| - 1].ord == CRASH_LIMIT
    {
      hide Consistent, Spaced;
      Recorded(log, clock, crashWindowStarted, crashCount, now);
      if crashWindowStarted.Some? && now - crashWindowStarted.value <= CRASH_WINDOW {
        crashCount := crashCount + 1;
      } else {
        crashWindowStarted := Some(now);
        crashCount := 1;
      }
      log := log + [Failure(now, crashCount)];
      clock := now;
      if crashCount >= CRASH_LIMIT {
        disabledUntil := Some(now + CRASH_BACKOFF);
      }
    }

    /** `helper_is_running`: a helper found dead is dropped and counted. */
    method HelperIsRunning(now: int, wait: Wait) returns (running: bool)
      requires Valid() && clock <= now
      modifies this`child, this`crashWindowStarted, this`crashCount, this`disabledUntil, this`log, this`clock
      ensures Valid() && clock == now && running == child
      ensures running <==> old(child) && wait == StillRunning
      ensures log == Logged(old(log), old(child) && wait != StillRunning, now)
    {
      if !child {
        clock := now;
        return false;
      }
      match wait
      case StillRunning =>
        clock := now;
        running := true;
      case Exited =>
        child := false;
        RecordFailure(now);
        running := false;
      case InspectError =>
        child := false;
        RecordFailure(now);
        running := false;
    }

    /** `helper_backoff_active`: once the backoff is over, the window starts afresh. */
    method HelperBackoffActive(now: int) returns (active: bool)
      requires Valid() && clock <= now && !child
      modifies this`crashWindowStarted, this`crashCount, this`disabledUntil, this`clock
      ensures Valid() && clock == now
      ensures active <==> disabledUntil.Some?
      ensures active <==> Quiet(log, now)
    {
      QuietIsDisabled(log, clock, crashWindowStarted, crashCount, disabledUntil, now);
      clock := now;
      if disabledUntil == None {
        return false;
      }
      if now < disabledUntil.value {
        return true;
      }
      disabledUntil := None;
      crashWindowStarted := None;
      crashCount := 0;
      return false;
    }

    /** `enter_youtube`, its three clock readings in order; `starts` says whether the helper starts and
        takes its token. A helper is tried exactly when none runs and the log of failures, a death found
        on the way included, does not ask for quiet. */
    method EnterYoutube(t0: int, t1: int, t2: int, wait: Wait, starts: bool)
      requires Valid() && clock <= t0 <= t1 <= t2
      modifies this
      ensures Valid() && old(clock) <= clock <= t2
      ensures wantsYoutube && suspendedForVideo == old(suspendedForVideo)
      ensures suspendedForVideo ==> child == old(child) && log == old(log) && disabledUntil == old(disabledUntil)
      ensures !suspendedForVideo ==> EnterOutcome(old(child), old(log), t0, t1, t2, wait, starts) == Outcome(child, log)
    {
      hide Consistent, Spaced, NextFailure;
      wantsYoutube := true;
      if suspendedForVideo {
        return;
      }
      var running := HelperIsRunning(t0, wait);
      if running {
        return;
      }
      var active := HelperBackoffActive(t1);
      if active {
        return;
      }
      if !starts {
        RecordFailure(t2);
        return;
      }
      child := true;
    }

    /** `maintain_helper`, the heartbeat: the same, silently, when YouTube is wanted. The two probes of a
        tick agree, because the second comes no earlier. */
    method MaintainHelper(ta: int, tb: int, t0: int, t1: int, t2: int, wait: Wait, starts: bool)
      requires Valid() && clock <= ta <= tb <= t0 <= t1 <= t2
      modifies this
      ensures Valid() && old(clock) <= clock <= t2
      ensures wantsYoutube == old(wantsYoutube) && suspendedForVideo == old(suspendedForVideo)
      ensures !wantsYoutube || suspendedForVideo ==>
                child == old(child) && log == old(log) && disabledUntil == old(disabledUntil)
      ensures wantsYoutube && !suspendedForVideo ==>
                var died := old(child) && wait != StillRunning;
                var after := Logged(old(log), died, ta);
                Outcome(child, log) ==
                if (old(child) && !died) || Quiet(after, tb) then Outcome(old(child) && !died, after)
                else EnterOutcome(false, after, t0, t1, t2, wait, starts)
    {
      hide Consistent, Spaced, NextFailure;
      if !wantsYoutube || suspendedForVideo {
        return;
      }
      var running := HelperIsRunning(ta, wait);
      if running {
        return;
      }
      QuietIsDisabled(log, clock, crashWindowStarted, crashCount, disabledUntil, tb);
      if disabledUntil.Some? && tb < disabledUntil.value {
        return;
      }
      EnterYoutube(t0, t1, t2, wait, starts);
    }

    /** `stop_helper`, and the ways into it. */
    method StopHelper()
      requires Valid()
      modifies this`child
      ensures Valid() && !child
    {
      child := false;
    }

    method LeaveYoutube()
      requires Valid()
      modifies this`child, this`wantsYoutube
      ensures Valid() && !child && !wantsYoutube
    {
      if !wantsYoutube && !child {
        return;
      }
      wantsYoutube := false;
      StopHelper();
    }

    method SuspendForVideo()
      requires Valid()
      modifies this`child, this`suspendedForVideo
      ensures Valid() && !child && suspendedForVideo
    {
      suspendedForVideo := true;
      StopHelper();
    }

    method ResumeAfterVideo()
      requires Valid()
      modifies this`suspendedForVideo
      ensures Valid() && !suspendedForVideo
    {
      suspendedForVideo := false;
    }
  }

  // ----- what spacing means -----

  /** A window that was opened by failure `k` and has a second failure is over when the next one opens. */
  lemma SecondThenFresh(log: seq<Failure>, k: nat)
    requires Spaced(log) && k + 2 < |log| && log[k].ord == 1 && log[k + 1].ord == 2 && log[k + 2].ord == 1
    ensures log[k + 2].time - log[k].time > CRASH_WINDOW
  {
    var before := log[..k + 2];
    assert MayFollow(before, log[k + 2]);
    assert before[..k + 1] == log[..k + 1];
    assert WindowStart(before) == WindowStart(log[..k + 1]) == log[k].time;
  }

  /** After the third failure of a window, none is recorded for the length of the backoff. */
  lemma QuietAfterThird(log: seq<Failure>, k: nat, j: nat)
    requires Spaced(log) && k < j < |log| && log[k].ord == 3
    ensures log[j].time >= log[k].time + 300
    decreases j
  {
    Consecutive(log, j - 1);
    if k < j - 1 {
      QuietAfterThird(log, k, j - 1);
    }
  }

  /** Any five failures span more than the crash window: a closed interval that long holds at most four. */
  lemma FiveNeverFit(log: seq<Failure>, k: nat)
    requires Spaced(log) && k + 4 < |log|
    ensures log[k + 4].time - log[k].time > 60
  {
    OrdsAreSmall(log, k);
    Consecutive(log, k);
    Consecutive(log, k + 1);
    Consecutive(log, k + 2);
    Consecutive(log, k + 3);
    if log[k].ord == 1 && log[k + 1].ord == 2 && log[k + 2].ord == 1 { SecondThenFresh(log, k); }
    if log[k + 1].ord == 1 && log[k + 2].ord == 2 && log[k + 3].ord == 1 { SecondThenFresh(log, k + 1); }
  }

  const CLOSE_FOUR: seq<Failure> := [Failure(0, 1), Failure(60, 2), Failure(61, 1), Failure(62, 2), Failure(63, 3)]

  lemma CloseFourWindows()
    ensures WindowStart(CLOSE_FOUR[..1]) == 0 && WindowStart(CLOSE_FOUR[..2]) == 0
    ensures WindowStart(CLOSE_FOUR[..3]) == 61 && WindowStart(CLOSE_FOUR[..4]) == 61
  {
    var log := CLOSE_FOUR;
    assert log[..1] == [log[0]];
    assert log[..2][..1] == log[..1] && log[..4][..3] == log[..3];
  }

  lemma CloseFourNext(k: nat)
    requires k < |CLOSE_FOUR|
    ensures NextFailure(CLOSE_FOUR[..k], CLOSE_FOUR[k].time) == CLOSE_FOUR[k]
    ensures !Quiet(CLOSE_FOUR[..k], CLOSE_FOUR[k].time)
  {
    hide WindowStart;
    CloseFourWindows();
    assert k == 0 || k == 1 || k == 2 || k == 3 || k == 4;
    assert k > 0 ==> CLOSE_FOUR[..k][k - 1] == CLOSE_FOUR[k - 1];
  }

  /** The failures of a helper that does not start at 0, 60, 61, 62 and 63 seconds. */
  lemma CloseFourIsLogged(k: nat)
    requires k < |CLOSE_FOUR|
    ensures EnterOutcome(false, CLOSE_FOUR[..k], CLOSE_FOUR[k].time, CLOSE_FOUR[k].time, CLOSE_FOUR[k].time, StillRunning, false)
            == Outcome(false, CLOSE_FOUR[..k + 1])
  {
    hide NextFailure, Quiet;
    CloseFourNext(k);
    assert CLOSE_FOUR[..k] + [CLOSE_FOUR[k]] == CLOSE_FOUR[..k + 1];
  }

  lemma CloseFourSpan()
    ensures |CLOSE_FOUR| == 5 && CLOSE_FOUR[4].time - CLOSE_FOUR[1].time <= CRASH_WINDOW
  {
  }

  /** Four do fit, in a run of the controller: a helper that never starts is tried five times, and the last
      four failures lie within the closed 60 seconds from the second on. */
  method FourFit() returns (c: WebviewPlaybackController)
    ensures c.Valid() && c.log == CLOSE_FOUR
    ensures |c.log| == 5 && c.log[4].time - c.log[1].time <= 60
  {
    hide EnterOutcome;
    c := new WebviewPlaybackController(0);
    assert CLOSE_FOUR[..0] == [];
    for k := 0 to |CLOSE_FOUR|
      invariant fresh(c) && c.Valid() && !c.child && !c.suspendedForVideo
      invariant c.log == CLOSE_FOUR[..k] && c.clock <= if k == 0 then 0 else CLOSE_FOUR[k - 1].time
    {
      var t := CLOSE_FOUR[k].time;
      CloseFourIsLogged(k);
      c.EnterYoutube(t, t, t, StillRunning, false);
    }
    assert CLOSE_FOUR[..|CLOSE_FOUR|] == CLOSE_FOUR;
    CloseFourSpan();
  }
}
