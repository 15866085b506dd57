/** The drain handoff of `run_native_session`: a new session is opened while the old one is on screen,
    the old one is retired, the new one shown. What reaches the terminal, and where the keys go.

    Every session runs its own output task; the main loop, these tasks and the stdin reader interleave
    freely. A task hands bytes to stdout and waits for them to land. */
module Handoff {
  import opened Options
  import opened Bytes

  datatype Mode = Held | Shown | Retired

  /** Where a session's output task stands. `Painting(now, rest)`: `now` is with stdout, `rest` follows.
      `Aborted(now)`: it was dropped at the end of the grace while `now` was with stdout. */
  datatype Task = Idle | Painting(now: seq<byte>, rest: seq<byte>) | Closed | Aborted(now: seq<byte>)

  datatype Session = Session(
    mode: Mode,
    task: Task,
    received: seq<byte>,      // what the server has sent so far
    held: seq<byte>)

  /** One landed write. */
  datatype Write = Write(id: nat, bytes: seq<byte>)

  /** The main loop between two turns of a move. */
  datatype Phase = Serving | Moving | Detached | Retiring | Swapped | Unattached | Ended

  datatype Key = Key(chunk: nat, id: nat)

  datatype State = State(
    sessions: seq<Session>,
    cur: nat,
    phase: Phase,
    stdout: seq<Write>,
    attached: Option<nat>,
    chunks: nat,              // stdin chunks read so far
    reading: Option<Key>,     // a chunk whose writer has been looked up
    keys: seq<Key>,           // chunks sent to a session
    risky: bool)              // a grace ran out with bytes still with stdout

  datatype Step =
    | Receive(id: nat, data: seq<byte>)
    | SeeMode(id: nat)
    | Land(id: nat)
    | CloseTask(id: nat)
    | Straggle(id: nat)
    | Dialed
    | Detach
    | Retire
    | RetireDone
    | RetireGrace
    | Show
    | Attach
    | End
    | ReadKeys
    | SendKeys

  predicate HasTask(s: State, id: nat, task: Task) { id < |s.sessions| && s.sessions[id].task == task }

  predicate Enabled(s: State, step: Step) {
    && s.cur < |s.sessions|
    && match step
       case Receive(id, _) => HasTask(s, id, Idle)
       case SeeMode(id) => HasTask(s, id, Idle)
       case Land(id) => id < |s.sessions| && s.sessions[id].task.Painting?
       case CloseTask(id) => HasTask(s, id, Idle)
       case Straggle(id) => id < |s.sessions| && s.sessions[id].task.Aborted?
       case Dialed => s.phase == Serving
       case Detach => s.phase == Moving
       case Retire => s.phase == Detached
       case RetireDone => s.phase == Retiring && s.sessions[s.cur].task == Closed
       case RetireGrace => s.phase == Retiring
       case Show => s.phase == Swapped && s.cur + 1 < |s.sessions|
       case Attach => s.phase == Unattached
       case End => s.phase == Serving && s.sessions[s.cur].task == Closed
       case ReadKeys => s.reading == None
       case SendKeys => s.reading.Some?
  }

  /** A data message in the output loop, under the mode copied out when it came. */
  function OnData(x: Session, data: seq<byte>): Session {
    var y := x.(received := x.received + data);
    match x.mode
    case Held => y.(held := x.held + data)
    case Shown =>
      if x.held != [] then y.(task := Painting(x.held, data), held := []) else y.(task := Painting(data, []))
    case Retired => y
  }

  function Put(s: State, id: nat, x: Session): State
    requires id < |s.sessions|
  {
    s.(sessions := s.sessions[id := x])
  }

  function Next(s: State, step: Step): State
    requires Enabled(s, step)
  {
    match step
    case Receive(id, data) => Put(s, id, OnData(s.sessions[id], data))
    case SeeMode(id) =>
      var x := s.sessions[id];
      if x.mode == Shown && x.held != [] then Put(s, id, x.(task := Painting(x.held, []), held := [])) else s
    case Land(id) =>
      var x := s.sessions[id];
      Put(s, id, x.(task := if x.task.rest == [] then Idle else Painting(x.task.rest, [])))
        .(stdout := s.stdout + [Write(id, x.task.now)])
    case CloseTask(id) => Put(s, id, s.sessions[id].(task := Closed))
    case Straggle(id) =>
      var x := s.sessions[id];
      Put(s, id, x.(task := Closed)).(stdout := s.stdout + [Write(id, x.task.now)])
    case Dialed => s.(sessions := s.sessions[..s.cur + 1] + [Session(Held, Idle, [], [])], phase := Moving)
    case Detach => s.(attached := None, phase := Detached)
    case Retire => Put(s, s.cur, s.sessions[s.cur].(mode := Retired)).(phase := Retiring)
    case RetireDone => s.(phase := Swapped)
    case RetireGrace =>
      var x := s.sessions[s.cur];
      if x.task.Painting? then
        Put(s, s.cur, x.(task := Aborted(x.task.now))).(phase := Swapped, risky := s.risky || x.task.now != [])
      else Put(s, s.cur, x.(task := if x.task == Idle then Closed else x.task)).(phase := Swapped)
    case Show =>
      Put(s, s.cur + 1, s.sessions[s.cur + 1].(mode := Shown)).(cur := s.cur + 1, phase := Unattached)
    case Attach => s.(attached := Some(s.cur), phase := Serving)
    case End => s.(phase := Ended)
    case ReadKeys =>
      s.(chunks := s.chunks + 1, reading := if s.attached.Some? then Some(Key(s.chunks, s.attached.value)) else None)
    case SendKeys => s.(keys := s.keys + [s.reading.value], reading := None)
  }

  const START := State([Session(Shown, Idle, [], [])], 0, Serving, [], Some(0), 0, None, [], false)

  // ----- what the terminal shows -----

  /** All that session `id` has put on the terminal. */
  function Painted(stdout: seq<Write>, id: nat): seq<byte> {
    if stdout == [] then []
    else
      var last := stdout[|stdout| - 1];
      Painted(stdout[..|stdout| - 1], id) + (if last.id == id then last.bytes else [])
  }

  /** Sessions follow one another: no write of an older one after a newer one's. */
  ghost predicate InOrder(stdout: seq<Write>) {
    forall i, j :: 0 <= i < j < |stdout| && stdout[i].bytes != [] && stdout[j].bytes != [] ==> stdout[i].id <= stdout[j].id
  }

  lemma PaintedNext(stdout: seq<Write>, w: Write, id: nat)
    ensures Painted(stdout + [w], id) == Painted(stdout, id) + (if w.id == id then w.bytes else [])
  {
    assert (stdout + [w])[..|stdout|] == stdout;
  }

  // ----- what every step keeps -----

  /** A session's bytes reach the terminal in order from its first: painted, then with stdout, then held. */
  ghost predicate SessionInv(x: Session, painted: seq<byte>) {
    match x.task
    case Idle =>
      && (x.mode == Retired ==> painted + x.held <= x.received)
      && (x.mode != Retired ==> painted + x.held == x.received)
      && (x.mode == Held ==> painted == [])
    case Painting(now, rest) => x.mode != Held && x.held == [] && painted + now + rest == x.received
    case Closed => painted <= x.received && (x.mode == Held ==> painted == [])
    case Aborted(now) => x.mode != Held && painted + now <= x.received
  }

  ghost predicate NoStragglers(s: State) {
    forall id :: 0 <= id < |s.sessions| && s.sessions[id].task.Aborted? ==> s.sessions[id].task.now == []
  }

  /** Which sessions can still write: the one on screen, and aborted ones with bytes under way. */
  ghost predicate Inv(s: State) {
    && s.cur < |s.sessions|
    && |s.sessions| == s.cur + (if s.phase in {Moving, Detached, Retiring, Swapped} then 2 else 1)
    && (forall id :: 0 <= id < |s.sessions| ==> SessionInv(s.sessions[id], Painted(s.stdout, id)))
    && (forall i :: 0 <= i < |s.stdout| ==> s.stdout[i].id <= s.cur)
    && (forall id :: 0 <= id < s.cur ==> s.sessions[id].task == Closed || s.sessions[id].task.Aborted?)
    && (forall id :: s.cur < id < |s.sessions| ==> s.sessions[id].mode == Held && !s.sessions[id].task.Aborted?)
    && (s.phase == Swapped ==> s.sessions[s.cur].task == Closed || s.sessions[s.cur].task.Aborted?)
    && (s.phase !in {Swapped} ==> !s.sessions[s.cur].task.Aborted?)
    && (s.phase in {Serving, Moving, Detached, Unattached} ==> s.sessions[s.cur].mode == Shown)
    && (!s.risky ==> InOrder(s.stdout) && NoStragglers(s))
  }

  ghost predicate KeysInv(s: State) {
    && (forall i :: 0 <= i < |s.keys| ==> s.keys[i].chunk < s.chunks)
    && (forall i, j :: 0 <= i < j < |s.keys| ==> s.keys[i].chunk < s.keys[j].chunk)
    && (s.reading.Some? ==> s.reading.value.chunk < s.chunks)
    && (s.reading.Some? ==> forall i :: 0 <= i < |s.keys| ==> s.keys[i].chunk < s.reading.value.chunk)
  }

  lemma KeysUntouched(s: State, step: Step)
    requires Enabled(s, step) && !step.ReadKeys? && !step.SendKeys?
    ensures var next := Next(s, step); next.keys == s.keys && next.chunks == s.chunks && next.reading == s.reading
  {
    hide OnData;
  }

  lemma MoreKeysKeep(s: State, step: Step)
    requires KeysInv(s) && Enabled(s, step) && (step.ReadKeys? || step.SendKeys?)
    ensures KeysInv(Next(s, step))
  {
    hide OnData;
  }

  lemma StepKeepsKeys(s: State, step: Step)
    requires KeysInv(s) && Enabled(s, step)
    ensures KeysInv(Next(s, step))
  {
    if step.ReadKeys? || step.SendKeys? {
      MoreKeysKeep(s, step);
    } else {
      hide Next;
      KeysUntouched(s, step);
    }
  }

  lemma OnDataKeeps(x: Session, data: seq<byte>, painted: seq<byte>)
    requires SessionInv(x, painted) && x.task == Idle
    ensures SessionInv(OnData(x, data), painted)
  {
    var y := OnData(x, data);
    match x.mode
    case Held => assert painted + (x.held + data) == (painted + x.held) + data;
    case Shown =>
      assert painted + x.held + data == y.received;
      if x.held == [] { assert painted + data + [] == y.received; }
    case Retired =>
      assert (painted + x.held) <= x.received <= y.received;
  }

  lemma LandKeeps(x: Session, painted: seq<byte>)
    requires SessionInv(x, painted) && x.task.Painting?
    ensures SessionInv(x.(task := if x.task.rest == [] then Idle else Painting(x.task.rest, [])), painted + x.task.now)
  {
    assert (painted + x.task.now) + x.task.rest + [] == painted + x.task.now + x.task.rest;
    if x.task.rest == [] {
      assert painted + x.task.now + [] == painted + x.task.now;
      assert (painted + x.task.now) + x.held == painted + x.task.now;
    }
  }

  lemma WriteKeepsOrder(stdout: seq<Write>, w: Write, cur: nat)
    requires InOrder(stdout) && (forall i :: 0 <= i < |stdout| ==> stdout[i].id <= cur)
    requires w.bytes == [] || w.id == cur
    ensures InOrder(stdout + [w])
  {
  }

  lemma ReceiveFrame(x: Session, data: seq<byte>)
    requires x.task == Idle
    ensures OnData(x, data).mode == x.mode && !OnData(x, data).task.Aborted? && OnData(x, data).task != Closed
    ensures x.mode == Held ==> OnData(x, data).task == Idle
  {
  }

  lemma ReceiveKeeps(s: State, id: nat, data: seq<byte>)
    requires Inv(s) && Enabled(s, Receive(id, data))
    ensures Inv(Next(s, Receive(id, data)))
  {
    hide Painted, OnData, InOrder, SessionInv;
    OnDataKeeps(s.sessions[id], data, Painted(s.stdout, id));
    ReceiveFrame(s.sessions[id], data);
    assert SessionInv(s.sessions[id], Painted(s.stdout, id));
  }

  lemma SeeModeKeeps(s: State, id: nat)
    requires Inv(s) && Enabled(s, SeeMode(id))
    ensures Inv(Next(s, SeeMode(id)))
  {
    hide Painted, InOrder;
    var x, p := s.sessions[id], Painted(s.stdout, id);
    assert p + x.held + [] == p + x.held;
  }

  lemma StraggleKeeps(x: Session, painted: seq<byte>)
    requires SessionInv(x, painted) && x.task.Aborted?
    ensures SessionInv(x.(task := Closed), painted + x.task.now)
  {
  }

  lemma HeldNeverPaints(x: Session, painted: seq<byte>)
    requires SessionInv(x, painted) && (x.task.Painting? || x.task.Aborted?)
    ensures x.mode != Held
  {
  }

  lemma WriteKeeps(s: State, step: Step, id: nat)
    requires Inv(s) && Enabled(s, step) && (step == Land(id) || step == Straggle(id))
    ensures Inv(Next(s, step))
  {
    hide Painted, InOrder, SessionInv;
    var x, next := s.sessions[id], Next(s, step);
    var w := Write(id, x.task.now);
    assert SessionInv(x, Painted(s.stdout, id));
    if step.Land? { LandKeeps(x, Painted(s.stdout, id)); } else { StraggleKeeps(x, Painted(s.stdout, id)); }
    forall other | 0 <= other < |s.sessions| ensures SessionInv(next.sessions[other], Painted(next.stdout, other)) {
      PaintedNext(s.stdout, w, other);
      assert Painted(s.stdout, other) + [] == Painted(s.stdout, other);
    }
    HeldNeverPaints(x, Painted(s.stdout, id));
    if !s.risky { WriteKeepsOrder(s.stdout, w, s.cur); }
  }

  lemma {:induction false} NothingPainted(stdout: seq<Write>, id: nat)
    requires forall i :: 0 <= i < |stdout| ==> stdout[i].id < id
    ensures Painted(stdout, id) == []
  {
    if stdout == [] {
    } else {
      NothingPainted(stdout[..|stdout| - 1], id);
    }
  }

  lemma DialedKeeps(s: State)
    requires Inv(s) && Enabled(s, Dialed)
    ensures Inv(Next(s, Dialed))
  {
    hide Painted, InOrder;
    assert s.sessions[..s.cur + 1] == s.sessions;
    NothingPainted(s.stdout, s.cur + 1);
  }

  lemma IdleCloses(x: Session, painted: seq<byte>)
    requires SessionInv(x, painted) && x.task == Idle
    ensures SessionInv(x.(task := Closed), painted)
  {
    assert painted <= painted + x.held;
  }

  lemma PaintingAborts(x: Session, painted: seq<byte>)
    requires SessionInv(x, painted) && x.task.Painting?
    ensures SessionInv(x.(task := Aborted(x.task.now)), painted)
  {
    assert painted + x.task.now <= painted + x.task.now + x.task.rest;
  }

  lemma GraceKeeps(s: State)
    requires Inv(s) && Enabled(s, RetireGrace)
    ensures Inv(Next(s, RetireGrace))
  {
    hide Painted, InOrder, SessionInv;
    var x, p := s.sessions[s.cur], Painted(s.stdout, s.cur);
    assert SessionInv(x, p);
    if x.task.Painting? {
      PaintingAborts(x, p);
    } else if x.task == Idle {
      IdleCloses(x, p);
    }
  }

  lemma CloseKeeps(s: State, id: nat)
    requires Inv(s) && Enabled(s, CloseTask(id))
    ensures Inv(Next(s, CloseTask(id)))
  {
    hide Painted, InOrder, SessionInv;
    assert SessionInv(s.sessions[id], Painted(s.stdout, id));
    IdleCloses(s.sessions[id], Painted(s.stdout, id));
  }

  lemma RetireKeeps(s: State)
    requires Inv(s) && Enabled(s, Retire)
    ensures Inv(Next(s, Retire))
  {
    hide Painted, InOrder;
  }

  lemma ShowKeeps(s: State)
    requires Inv(s) && Enabled(s, Show)
    ensures Inv(Next(s, Show))
  {
    hide Painted, InOrder;
  }

  /** The steps that touch no session. */
  lemma MoveKeeps(s: State, step: Step)
    requires Inv(s) && Enabled(s, step)
    requires step.Detach? || step.RetireDone? || step.Attach? || step.End? || step.ReadKeys? || step.SendKeys?
    ensures Inv(Next(s, step))
  {
    hide Painted, InOrder, SessionInv;
  }

  lemma StepKeeps(s: State, step: Step)
    requires Inv(s) && Enabled(s, step)
    ensures Inv(Next(s, step))
  {
    hide Inv, Next;
    match step
    case Receive(id, data) => ReceiveKeeps(s, id, data);
    case SeeMode(id) => SeeModeKeeps(s, id);
    case Land(id) => WriteKeeps(s, step, id);
    case Straggle(id) => WriteKeeps(s, step, id);
    case CloseTask(id) => CloseKeeps(s, id);
    case Retire => RetireKeeps(s);
    case Show => ShowKeeps(s);
    case Dialed => DialedKeeps(s);
    case RetireGrace => GraceKeeps(s);
    case _ => MoveKeeps(s, step);
  }

  // ----- runs -----

  /** Steps taken from `s` on. */
  ghost predicate Continues(s: State, states: seq<State>, steps: seq<Step>) {
    && |states| == |steps| + 1 && states[0] == s
    && forall i :: 0 <= i < |steps| ==> Enabled(states[i], steps[i]) && states[i + 1] == Next(states[i], steps[i])
  }

  ghost predicate Run(states: seq<State>, steps: seq<Step>) { Continues(START, states, steps) }

  lemma StartInv()
    ensures Inv(START) && KeysInv(START)
  {
  }

  lemma {:induction false} ContinuationKeeps(s: State, states: seq<State>, steps: seq<Step>, n: nat)
    requires Inv(s) && Continues(s, states, steps) && n <= |steps|
    ensures Inv(states[n]) && (KeysInv(s) ==> KeysInv(states[n]))
    decreases n
  {
    hide Next, Enabled, Inv, KeysInv;
    if n == 0 {
    } else {
      ContinuationKeeps(s, states, steps, n - 1);
      StepKeeps(states[n - 1], steps[n - 1]);
      if KeysInv(s) { StepKeepsKeys(states[n - 1], steps[n - 1]); }
    }
  }

  lemma RunKeeps(states: seq<State>, steps: seq<Step>, n: nat)
    requires Run(states, steps) && n <= |steps|
    ensures Inv(states[n]) && KeysInv(states[n])
  {
    hide Inv, KeysInv, Continues;
    StartInv();
    ContinuationKeeps(START, states, steps, n);
  }

  /** In every run, each session's part of the terminal is a prefix of its own stream, from its first
      byte on; and unless a grace ran out with bytes still under way, the sessions' parts follow one
      another with no byte of an older one after a newer one's first. */
  lemma TerminalIsConcatenation(states: seq<State>, steps: seq<Step>, n: nat, id: nat)
    requires Run(states, steps) && n <= |steps| && id < |states[n].sessions|
    ensures Painted(states[n].stdout, id) <= states[n].sessions[id].received
    ensures !states[n].risky ==> InOrder(states[n].stdout)
  {
    hide Next, Enabled, Painted;
    RunKeeps(states, steps, n);
    var x, p := states[n].sessions[id], Painted(states[n].stdout, id);
    if x.task.Painting? {
      assert p <= p + x.task.now + x.task.rest;
    } else if x.task == Idle {
      assert p <= p + x.held;
    } else if x.task.Aborted? {
      assert p <= p + x.task.now;
    }
  }

  /** Each stdin chunk reaches at most one session. */
  lemma ChunkReachesOneSession(states: seq<State>, steps: seq<Step>, n: nat, i: nat, j: nat)
    requires Run(states, steps) && n <= |steps| && i < j < |states[n].keys|
    ensures states[n].keys[i].chunk != states[n].keys[j].chunk
  {
    hide Next, Enabled, Inv;
    RunKeeps(states, steps, n);
  }

  /** Once bytes are left with stdout, order is lost for good the moment the new session paints: their
      landing then puts an older byte behind a newer one. */
  lemma StragglerBreaksOrder(s: State, id: nat, i: nat)
    requires Enabled(s, Straggle(id)) && s.sessions[id].task.now != []
    requires i < |s.stdout| && s.stdout[i].id > id && s.stdout[i].bytes != []
    ensures !InOrder(Next(s, Straggle(id)).stdout)
  {
    var out := Next(s, Straggle(id)).stdout;
    assert out[i] == s.stdout[i] && out[|out| - 1].id == id;
  }

  /** No further grace runs out on bytes under way. */
  ghost predicate StaysSafe(s: State) {
    forall states: seq<State>, steps: seq<Step> ::
      Continues(s, states, steps) && !states[|steps|].risky ==> InOrder(states[|steps|].stdout)
  }

  lemma StragglerSurfaces(s: State, id: nat) returns (states: seq<State>, steps: seq<Step>)
    requires s.cur < |s.sessions| && s.sessions[s.cur].task == Idle && s.sessions[s.cur].mode == Shown && !s.risky
    requires id < s.cur && s.sessions[id].task.Aborted? && s.sessions[id].task.now != []
    ensures Continues(s, states, steps) && !states[|steps|].risky && !InOrder(states[|steps|].stdout)
  {
    var s1 := Next(s, Receive(s.cur, [0]));
    var s2 := Next(s1, Land(s.cur));
    var s3 := Next(s2, Straggle(id));
    states, steps := [s, s1, s2, s3], [Receive(s.cur, [0]), Land(s.cur), Straggle(id)];
    var out := s3.stdout;
    assert out[|out| - 2].id == s.cur && out[|out| - 2].bytes != [];
    assert out[|out| - 1].id == id && out[|out| - 1].bytes != [];
  }

  /** With the new session on screen, the terminal stays in order whatever comes, later graces aside,
      exactly when no older session's bytes are still with stdout. */
  lemma OrderSafeIff(s: State)
    requires Inv(s) && InOrder(s.stdout) && s.sessions[s.cur].task == Idle && s.sessions[s.cur].mode == Shown
    ensures StaysSafe(s.(risky := false)) <==> NoStragglers(s)
  {
    hide Next, Enabled;
    var calm := s.(risky := false);
    if NoStragglers(s) {
      forall states: seq<State>, steps: seq<Step> | Continues(calm, states, steps) && !states[|steps|].risky
        ensures InOrder(states[|steps|].stdout)
      {
        ContinuationKeeps(calm, states, steps, |steps|);
      }
    } else {
      var id :| 0 <= id < |s.sessions| && s.sessions[id].task.Aborted? && s.sessions[id].task.now != [];
      var states, steps := StragglerSurfaces(calm, id);
    }
  }

  // ----- where the keys go -----

  /** While a session is being served its writer is attached, also while the next one is dialed; between
      detach and attach none is. A session is retired before the next is shown, and stays so. */
  ghost predicate RoleInv(s: State) {
    && s.cur < |s.sessions|
    && s.attached == (if s.phase in {Serving, Moving, Ended} then Some(s.cur) else None)
    && (forall id :: 0 <= id < s.cur ==> s.sessions[id].mode == Retired)
    && (s.phase in {Retiring, Swapped} ==> s.sessions[s.cur].mode == Retired)
  }

  lemma DataKeepsMode(x: Session, data: seq<byte>)
    ensures OnData(x, data).mode == x.mode && (x.mode == Retired ==> OnData(x, data).task == x.task)
  {
  }

  lemma StepKeepsRoles(s: State, step: Step)
    requires RoleInv(s) && Inv(s) && Enabled(s, step)
    ensures RoleInv(Next(s, step))
  {
    hide Painted, InOrder, SessionInv, OnData;
    if step.Receive? { DataKeepsMode(s.sessions[step.id], step.data); }
  }

  lemma StartRoles()
    ensures RoleInv(START)
  {
  }

  lemma {:induction false} RunKeepsRoles(states: seq<State>, steps: seq<Step>, n: nat)
    requires Run(states, steps) && n <= |steps|
    ensures RoleInv(states[n])
    decreases n
  {
    hide Next, Enabled, Inv, RoleInv;
    if n == 0 {
      StartRoles();
    } else {
      RunKeepsRoles(states, steps, n - 1);
      RunKeeps(states, steps, n - 1);
      StepKeepsRoles(states[n - 1], steps[n - 1]);
    }
  }

  /** Step `i` of the run read stdin chunk `key.chunk` while session `key.id` was the current one. */
  ghost predicate ReadFor(states: seq<State>, steps: seq<Step>, i: nat, key: Key)
    requires |states| == |steps| + 1 && i < |steps|
  {
    && steps[i] == ReadKeys && states[i].phase in {Serving, Moving, Ended}
    && key == Key(states[i].chunks, states[i].cur)
  }

  ghost predicate WasReadFor(states: seq<State>, steps: seq<Step>, n: nat, key: Key)
    requires |states| == |steps| + 1 && n <= |steps|
  {
    exists i :: 0 <= i < n && ReadFor(states, steps, i, key)
  }

  lemma KeysOfStep(s: State, step: Step)
    requires Enabled(s, step) && RoleInv(s)
    ensures var next := Next(s, step);
            (step == ReadKeys ==>
               next.keys == s.keys && next.chunks == s.chunks + 1 &&
               next.reading == if s.phase in {Serving, Moving, Ended} then Some(Key(s.chunks, s.cur)) else None) &&
            (step == SendKeys ==> s.reading.Some? && next.keys == s.keys + [s.reading.value] && next.reading == None) &&
            (step != ReadKeys && step != SendKeys ==> next.keys == s.keys && next.reading == s.reading)
  {
    hide OnData;
  }

  /** Every chunk of keys a session was sent was read while that session was the current one, never between
      detach and attach; and every chunk read goes to the session current at that moment, or to none then. */
  lemma {:induction false} KeysGoToTheCurrent(states: seq<State>, steps: seq<Step>, n: nat)
    requires Run(states, steps) && n <= |steps|
    ensures forall k :: 0 <= k < |states[n].keys| ==> WasReadFor(states, steps, n, states[n].keys[k])
    ensures states[n].reading.Some? ==> WasReadFor(states, steps, n, states[n].reading.value)
    ensures n > 0 && steps[n - 1] == ReadKeys ==>
              var before := states[n - 1];
              states[n].reading == if before.phase in {Serving, Moving, Ended} then Some(Key(before.chunks, before.cur)) else None
    decreases n
  {
    hide Next, Enabled, Inv, RoleInv;
    if n == 0 {
    } else {
      KeysGoToTheCurrent(states, steps, n - 1);
      RunKeepsRoles(states, steps, n - 1);
      KeysOfStep(states[n - 1], steps[n - 1]);
      forall key | WasReadFor(states, steps, n - 1, key) ensures WasReadFor(states, steps, n, key) {
        var i :| 0 <= i < n - 1 && ReadFor(states, steps, i, key);
        assert ReadFor(states, steps, i, key);
      }
      forall k | 0 <= k < |states[n].keys| ensures WasReadFor(states, steps, n, states[n].keys[k]) {
        if k < |states[n - 1].keys| { assert states[n].keys[k] == states[n - 1].keys[k]; }
      }
      if steps[n - 1] == ReadKeys && states[n].reading.Some? {
        assert ReadFor(states, steps, n - 1, states[n].reading.value);
      }
    }
  }

  // ----- a retired session is silent -----

  /** What an output task will still put on the terminal if nothing new comes. */
  function Coming(task: Task): seq<byte> {
    match task
    case Painting(now, rest) => now + rest
    case Aborted(now) => now
    case _ => []
  }

  /** All that can come of a session that is retired: what it painted, and what is with stdout. */
  function Ceiling(s: State, id: nat): seq<byte>
    requires id < |s.sessions|
  {
    Painted(s.stdout, id) + Coming(s.sessions[id].task)
  }

  lemma AbortKeepsLess(task: Task)
    ensures task.Painting? ==> Coming(Aborted(task.now)) <= Coming(task)
  {
  }

  lemma RetiredElsewhere(s: State, step: Step, id: nat)
    requires Inv(s) && Enabled(s, step) && id < |s.sessions| && s.sessions[id].mode == Retired
    requires step != Land(id) && step != Straggle(id)
    ensures var next := Next(s, step);
            id < |next.sessions| && next.sessions[id].mode == Retired &&
            (next.sessions[id].task == s.sessions[id].task || Coming(next.sessions[id].task) == [] ||
             (step == RetireGrace && s.sessions[id].task.Painting? &&
              next.sessions[id].task == Aborted(s.sessions[id].task.now)))
  {
    hide Painted, InOrder, SessionInv, OnData;
    if step.Receive? { DataKeepsMode(s.sessions[step.id], step.data); }
  }

  lemma RetiredWrites(s: State, step: Step, id: nat)
    requires Enabled(s, step) && id < |s.sessions| && s.sessions[id].mode == Retired
    requires step == Land(id) || step == Straggle(id)
    ensures var next := Next(s, step);
            id < |next.sessions| && next.sessions[id].mode == Retired &&
            s.sessions[id].task.now + Coming(next.sessions[id].task) == Coming(s.sessions[id].task)
  {
    hide OnData;
    var task := s.sessions[id].task;
    if task.Painting? { assert task.rest + [] == task.rest; }
    if task.Aborted? { assert task.now + [] == task.now; }
  }

  lemma RetiredOutput(s: State, step: Step, id: nat)
    requires Enabled(s, step)
    ensures Painted(Next(s, step).stdout, id) ==
            Painted(s.stdout, id) + (if step == Land(id) || step == Straggle(id) then s.sessions[id].task.now else [])
  {
    hide Painted, OnData;
    var p := Painted(s.stdout, id);
    assert p + [] == p;
    if step.Land? || step.Straggle? {
      PaintedNext(s.stdout, Write(step.id, s.sessions[step.id].task.now), id);
    }
  }

  lemma RetiredStep(s: State, step: Step, id: nat)
    requires Inv(s) && Enabled(s, step) && id < |s.sessions| && s.sessions[id].mode == Retired
    ensures var next := Next(s, step);
            id < |next.sessions| && next.sessions[id].mode == Retired && Ceiling(next, id) <= Ceiling(s, id)
  {
    hide Painted, Next, Inv, Coming;
    RetiredOutput(s, step, id);
    var p := Painted(s.stdout, id);
    if step == Land(id) || step == Straggle(id) {
      RetiredWrites(s, step, id);
      Associates(p, s.sessions[id].task.now, Coming(Next(s, step).sessions[id].task));
    } else {
      RetiredElsewhere(s, step, id);
      assert p + [] == p;
      AbortKeepsLess(s.sessions[id].task);
    }
  }

  lemma PaintedWithin(s: State, id: nat)
    requires id < |s.sessions|
    ensures Painted(s.stdout, id) <= Ceiling(s, id)
  {
    hide Painted;
  }

  /** What a server sends after its session was retired never lands: from then on the session's part of the
      terminal stays within what was painted or with stdout at that moment. */
  lemma {:induction false} RetiredIsSilent(s: State, states: seq<State>, steps: seq<Step>, id: nat, n: nat)
    requires Inv(s) && Continues(s, states, steps) && n <= |steps|
    requires id < |s.sessions| && s.sessions[id].mode == Retired
    ensures id < |states[n].sessions| && states[n].sessions[id].mode == Retired
    ensures Ceiling(states[n], id) <= Ceiling(s, id) && Painted(states[n].stdout, id) <= Ceiling(s, id)
    decreases n
  {
    hide Next, Enabled, Inv, Painted;
    if n == 0 {
      PaintedWithin(s, id);
    } else {
      RetiredIsSilent(s, states, steps, id, n - 1);
      ContinuationKeeps(s, states, steps, n - 1);
      RetiredStep(states[n - 1], steps[n - 1], id);
      PaintedWithin(states[n], id);
    }
  }

  // ----- the end -----

  lemma EndedStays(s: State, step: Step)
    requires Enabled(s, step) && (s.phase == Ended || step == End)
    ensures var next := Next(s, step);
            next.phase == Ended && next.cur == s.cur && |next.sessions| == |s.sessions| && next.attached == s.attached
    ensures step == End ==> s.phase == Serving && s.sessions[s.cur].task == Closed
  {
  }

  /** The session on screen ends the program by closing its own output, outside of any move; after that no
      session is opened, shown, or given the keys. */
  lemma {:induction false} EndIsFinal(states: seq<State>, steps: seq<Step>, i: nat, n: nat)
    requires Run(states, steps) && i < n <= |steps| && steps[i] == End
    ensures states[i].phase == Serving && states[i].cur < |states[i].sessions|
    ensures states[i].sessions[states[i].cur].task == Closed
    ensures states[n].phase == Ended && states[n].cur == states[i].cur
    ensures |states[n].sessions| == |states[i].sessions| && states[n].attached == states[i].attached
    decreases n
  {
    hide Next;
    EndedStays(states[i], steps[i]);
    if n > i + 1 {
      EndIsFinal(states, steps, i, n - 1);
      EndedStays(states[n - 1], steps[n - 1]);
    }
  }

  // ----- a move that goes well -----

  // Two servers, any bytes. What the first sends is painted, what the second draws while it is held comes
  // after it, a late byte of the first is dropped, and the keys typed afterwards go to the second.

  function CleanMoveSteps(a: seq<byte>, b: seq<byte>, late: seq<byte>): seq<Step> {
    [Receive(0, a), Land(0), Dialed, Receive(1, b), Detach, Retire, Receive(0, late), CloseTask(0), RetireDone, Show,
     SeeMode(1), Land(1), Attach, ReadKeys, SendKeys]
  }

  function CleanMove(a: seq<byte>, b: seq<byte>, late: seq<byte>): seq<State> {
    var painting, idle := Session(Shown, Painting(a, []), a, []), Session(Shown, Idle, a, []);
    var ready, held := Session(Held, Idle, [], []), Session(Held, Idle, b, b);
    var retired, refused := Session(Retired, Idle, a, []), Session(Retired, Idle, a + late, []);
    var closed := Session(Retired, Closed, a + late, []);
    var shown, drawing, done :=
      Session(Shown, Idle, b, b), Session(Shown, Painting(b, []), b, []), Session(Shown, Idle, b, []);
    var first, both := [Write(0, a)], [Write(0, a), Write(1, b)];
    [State([Session(Shown, Idle, [], [])], 0, Serving, [], Some(0), 0, None, [], false),
     State([painting], 0, Serving, [], Some(0), 0, None, [], false),
     State([idle], 0, Serving, first, Some(0), 0, None, [], false),
     State([idle, ready], 0, Moving, first, Some(0), 0, None, [], false),
     State([idle, held], 0, Moving, first, Some(0), 0, None, [], false),
     State([idle, held], 0, Detached, first, None, 0, None, [], false),
     State([retired, held], 0, Retiring, first, None, 0, None, [], false),
     State([refused, held], 0, Retiring, first, None, 0, None, [], false),
     State([closed, held], 0, Retiring, first, None, 0, None, [], false),
     State([closed, held], 0, Swapped, first, None, 0, None, [], false),
     State([closed, shown], 1, Unattached, first, None, 0, None, [], false),
     State([closed, drawing], 1, Unattached, first, None, 0, None, [], false),
     State([closed, done], 1, Unattached, both, None, 0, None, [], false),
     State([closed, done], 1, Serving, both, Some(1), 0, None, [], false),
     State([closed, done], 1, Serving, both, Some(1), 1, Some(Key(0, 1)), [], false),
     State([closed, done], 1, Serving, both, Some(1), 1, None, [Key(0, 1)], false)]
  }

  lemma CleanMoveBegins(a: seq<byte>, b: seq<byte>, late: seq<byte>)
    ensures var states, steps := CleanMove(a, b, late), CleanMoveSteps(a, b, late);
            Enabled(states[0], steps[0]) && states[0 + 1] == Next(states[0], steps[0])
  {
    assert [] + a == a;
  }

  lemma CleanMovePaints(a: seq<byte>, b: seq<byte>, late: seq<byte>)
    ensures var states, steps := CleanMove(a, b, late), CleanMoveSteps(a, b, late);
            Enabled(states[1], steps[1]) && states[1 + 1] == Next(states[1], steps[1])
  {
  }

  lemma CleanMoveOpens(a: seq<byte>, b: seq<byte>, late: seq<byte>)
    ensures var states, steps := CleanMove(a, b, late), CleanMoveSteps(a, b, late);
            Enabled(states[2], steps[2]) && states[2 + 1] == Next(states[2], steps[2])
  {
    var before := CleanMove(a, b, late)[2];
    assert before.sessions[..1] == before.sessions;
  }

  lemma CleanMoveDials(a: seq<byte>, b: seq<byte>, late: seq<byte>, i: nat)
    requires 3 <= i < 5
    ensures var states, steps := CleanMove(a, b, late), CleanMoveSteps(a, b, late);
            Enabled(states[i], steps[i]) && states[i + 1] == Next(states[i], steps[i])
  {
    assert [] + b == b;
  }

  lemma CleanMoveRetires(a: seq<byte>, b: seq<byte>, late: seq<byte>, i: nat)
    requires 5 <= i < 8
    ensures var states, steps := CleanMove(a, b, late), CleanMoveSteps(a, b, late);
            Enabled(states[i], steps[i]) && states[i + 1] == Next(states[i], steps[i])
  {
    if i == 5 {
    } else if i == 6 {
    } else {
    }
  }

  lemma CleanMoveSwaps(a: seq<byte>, b: seq<byte>, late: seq<byte>, i: nat)
    requires 8 <= i < 10
    ensures var states, steps := CleanMove(a, b, late), CleanMoveSteps(a, b, late);
            Enabled(states[i], steps[i]) && states[i + 1] == Next(states[i], steps[i])
  {
  }

  lemma CleanMoveEnds(a: seq<byte>, b: seq<byte>, late: seq<byte>, i: nat)
    requires b != [] && 10 <= i < 15
    ensures var states, steps := CleanMove(a, b, late), CleanMoveSteps(a, b, late);
            Enabled(states[i], steps[i]) && states[i + 1] == Next(states[i], steps[i])
  {
  }

  lemma CleanMoveStep(a: seq<byte>, b: seq<byte>, late: seq<byte>, i: nat)
    requires b != [] && i < 15
    ensures var states, steps := CleanMove(a, b, late), CleanMoveSteps(a, b, late);
            Enabled(states[i], steps[i]) && states[i + 1] == Next(states[i], steps[i])
  {
    hide Next, Enabled, CleanMove, CleanMoveSteps;
    if i == 0 {
      CleanMoveBegins(a, b, late);
    } else if i == 1 {
      CleanMovePaints(a, b, late);
    } else if i == 2 {
      CleanMoveOpens(a, b, late);
    } else if i < 5 {
      CleanMoveDials(a, b, late, i);
    } else if i < 8 {
      CleanMoveRetires(a, b, late, i);
    } else if i < 10 {
      CleanMoveSwaps(a, b, late, i);
    } else {
      CleanMoveEnds(a, b, late, i);
    }
  }

  lemma CleanMoveShape(a: seq<byte>, b: seq<byte>, late: seq<byte>)
    ensures |CleanMove(a, b, late)| == 16 && |CleanMoveSteps(a, b, late)| == 15 && CleanMove(a, b, late)[0] == START
    ensures var end := CleanMove(a, b, late)[15];
            end.stdout == [Write(0, a), Write(1, b)] && end.keys == [Key(0, 1)] && end.phase == Serving && end.cur == 1
  {
  }

  /** Such a move is a run, whatever the bytes, and ends with the terminal and the keys as they should be. */
  lemma CleanMoveIsARun(a: seq<byte>, b: seq<byte>, late: seq<byte>)
    requires b != []
    ensures |CleanMove(a, b, late)| == 16 && Run(CleanMove(a, b, late), CleanMoveSteps(a, b, late))
    ensures var end := CleanMove(a, b, late)[15];
            end.stdout == [Write(0, a), Write(1, b)] && end.keys == [Key(0, 1)] && end.phase == Serving && end.cur == 1
  {
    hide Next, Enabled, CleanMove, CleanMoveSteps;
    CleanMoveShape(a, b, late);
    var states, steps := CleanMove(a, b, late), CleanMoveSteps(a, b, late);
    forall i | 0 <= i < |steps| ensures Enabled(states[i], steps[i]) && states[i + 1] == Next(states[i], steps[i]) {
      CleanMoveStep(a, b, late, i);
    }
  }

  // ----- a move that does not -----

  // Such a run exists. The first session's write hangs through the grace.

  const ONE: seq<byte> := [1]
  const TWO: seq<byte> := [2]
  const OLD_PAINTING := Session(Shown, Painting(ONE, []), ONE, [])
  const OLD_RETIRED := Session(Retired, Painting(ONE, []), ONE, [])
  const OLD_ABORTED := Session(Retired, Aborted(ONE), ONE, [])
  const OLD_CLOSED := Session(Retired, Closed, ONE, [])
  const NEW_HELD := Session(Held, Idle, [], [])
  const NEW_SHOWN := Session(Shown, Idle, [], [])
  const NEW_PAINTING := Session(Shown, Painting(TWO, []), TWO, [])
  const NEW_IDLE := Session(Shown, Idle, TWO, [])

  const HUNG: seq<State> := [
    START,
    State([OLD_PAINTING], 0, Serving, [], Some(0), 0, None, [], false),
    State([OLD_PAINTING, NEW_HELD], 0, Moving, [], Some(0), 0, None, [], false),
    State([OLD_PAINTING, NEW_HELD], 0, Detached, [], None, 0, None, [], false),
    State([OLD_RETIRED, NEW_HELD], 0, Retiring, [], None, 0, None, [], false),
    State([OLD_ABORTED, NEW_HELD], 0, Swapped, [], None, 0, None, [], true),
    State([OLD_ABORTED, NEW_SHOWN], 1, Unattached, [], None, 0, None, [], true),
    State([OLD_ABORTED, NEW_PAINTING], 1, Unattached, [], None, 0, None, [], true),
    State([OLD_ABORTED, NEW_IDLE], 1, Unattached, [Write(1, TWO)], None, 0, None, [], true),
    State([OLD_CLOSED, NEW_IDLE], 1, Unattached, [Write(1, TWO), Write(0, ONE)], None, 0, None, [], true)]

  const HUNG_STEPS: seq<Step> :=
    [Receive(0, ONE), Dialed, Detach, Retire, RetireGrace, Show, Receive(1, TWO), Land(1), Straggle(0)]

  lemma HungStart(i: nat)
    requires i < 3
    ensures Enabled(HUNG[i], HUNG_STEPS[i]) && HUNG[i + 1] == Next(HUNG[i], HUNG_STEPS[i])
  {
    assert [] + ONE == ONE;
  }

  lemma HungSwap(i: nat)
    requires 3 <= i < 6
    ensures Enabled(HUNG[i], HUNG_STEPS[i]) && HUNG[i + 1] == Next(HUNG[i], HUNG_STEPS[i])
  {
  }

  lemma HungEnd(i: nat)
    requires 6 <= i < 9
    ensures Enabled(HUNG[i], HUNG_STEPS[i]) && HUNG[i + 1] == Next(HUNG[i], HUNG_STEPS[i])
  {
    assert [] + TWO == TWO;
  }

  lemma HungStep(i: nat)
    requires i < |HUNG_STEPS|
    ensures Enabled(HUNG[i], HUNG_STEPS[i]) && HUNG[i + 1] == Next(HUNG[i], HUNG_STEPS[i])
  {
    if i < 3 { HungStart(i); } else if i < 6 { HungSwap(i); } else { HungEnd(i); }
  }

  /** In that run the old session's byte lands on the new one's screen. */
  lemma HungWriteLandsLate()
    ensures Run(HUNG, HUNG_STEPS) && HUNG[9].risky && !InOrder(HUNG[9].stdout)
  {
    forall i | 0 <= i < |HUNG_STEPS|
      ensures Enabled(HUNG[i], HUNG_STEPS[i]) && HUNG[i + 1] == Next(HUNG[i], HUNG_STEPS[i])
    {
      hide Next, Enabled;
      HungStep(i);
    }
    assert HUNG[9].stdout[0].id > HUNG[9].stdout[1].id;
  }
}
