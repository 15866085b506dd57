/** `drive_native_output`: one session's loop over what its server sends, in the order it takes the
    messages. `Handoff` lets these loops interleave; here is what one of them comes to. */
module OutputLoop {
  import opened Options
  import opened Bytes
  import opened Handoff

  /** What a turn of the loop wakes up to, with the mode it copies out. `Changed` is the mode watch alone. */
  datatype Message =
    | Data(mode: Mode, data: seq<byte>)
    | ExtendedData(mode: Mode, data: seq<byte>)
    | Changed(mode: Mode)
    | ExitStatus(code: nat)
    | ExitSignal(name: string)
    | Ignored
    | Close              // close, end of file, or the end of the channel

  datatype SshExit = RemoteStatus(code: Option<nat>) | RemoteSignal(name: string)

  /** What is on the terminal, what is held back, and what the session's end will be. */
  datatype Output = Output(stdout: seq<byte>, stderr: seq<byte>, held: seq<byte>, code: Option<nat>, signal: Option<string>)

  const NOTHING := Output([], [], [], None, None)

  function Take(o: Output, m: Message): Output {
    match m
    case Data(Held, data) => o.(held := o.held + data)
    case Data(Shown, data) => o.(stdout := o.stdout + o.held + data, held := [])
    case Data(Retired, _) => o
    case ExtendedData(mode, data) => if mode == Shown then o.(stderr := o.stderr + data) else o
    case Changed(mode) => if mode == Shown then o.(stdout := o.stdout + o.held, held := []) else o
    case ExitStatus(code) => o.(code := Some(code))
    case ExitSignal(name) => o.(signal := Some(name))
    case Ignored => o
    case Close => o
  }

  function TakeAll(o: Output, messages: seq<Message>): Output {
    if messages == [] then o else Take(TakeAll(o, messages[..|messages| - 1]), messages[|messages| - 1])
  }

  /** The messages in front of the first close. */
  function UntilClose(messages: seq<Message>): (r: seq<Message>)
    ensures r <= messages && Close !in r && (|r| < |messages| ==> messages[|r|] == Close)
  {
    if messages == [] || messages[0] == Close then [] else [messages[0]] + UntilClose(messages[1..])
  }

  function ExitOf(o: Output): SshExit {
    if o.signal.Some? then RemoteSignal(o.signal.value) else RemoteStatus(o.code)
  }

  class Terminal {
    var stdout: seq<byte>
    var stderr: seq<byte>

    constructor ()
      ensures stdout == [] && stderr == []
    {
      stdout, stderr := [], [];
    }

    /** `paint_held`. */
    method PaintHeld(held: seq<byte>) returns (left: seq<byte>)
      modifies this`stdout
      ensures stdout == old(stdout) + held && left == []
    {
      left := held;
      if held == [] {
        assert stdout + held == stdout;
        return;
      }
      stdout := stdout + held;
      left := [];
    }

    /** `drive_native_output`, on a channel that sends `messages`. */
    method DriveNativeOutput(messages: seq<Message>) returns (exit: SshExit)
      modifies this
      ensures var end := TakeAll(Output(old(stdout), old(stderr), [], None, None), UntilClose(messages));
              stdout == end.stdout && stderr == end.stderr && exit == ExitOf(end)
    {
      var held: seq<byte>, code: Option<nat>, signal: Option<string> := [], None, None;
      ghost var start := Output(stdout, stderr, [], None, None);
      ghost var all := UntilClose(messages);
      var i := 0;
      while i < |messages|
        invariant i <= |all|
        invariant Output(stdout, stderr, held, code, signal) == TakeAll(start, all[..i])
        invariant i == |messages| ==> i == |all|
        decreases |messages| - i
      {
        if messages[i] == Close {
          break;
        }
        assert all[..i + 1][..i] == all[..i];
        match messages[i] {
          case Data(Held, data) => held := held + data;
          case Data(Shown, data) =>
            held := PaintHeld(held);
            stdout := stdout + data;
          case Data(Retired, _) =>
          case ExtendedData(mode, data) => if mode == Shown { stderr := stderr + data; }
          case Changed(mode) => if mode == Shown { held := PaintHeld(held); }
          case ExitStatus(c) => code := Some(c);
          case ExitSignal(name) => signal := Some(name);
          case Ignored =>
        }
        i := i + 1;
      }
      assert all[..|all|] == all;
      exit := if signal.Some? then RemoteSignal(signal.value) else RemoteStatus(code);
    }
  }

  // ----- what it comes to -----

  function Rank(mode: Mode): nat {
    match mode case Held => 0 case Shown => 1 case Retired => 2
  }

  predicate Modal(m: Message) { m.Data? || m.ExtendedData? || m.Changed? }

  /** A session is held, then shown, then retired: the modes a loop copies out never go back. */
  ghost predicate ModesMoveOn(messages: seq<Message>) {
    forall i, j :: 0 <= i < j < |messages| && Modal(messages[i]) && Modal(messages[j]) ==>
      Rank(messages[i].mode) <= Rank(messages[j].mode)
  }

  /** A turn that puts what is held on the terminal. */
  predicate Paints(m: Message) { (m.Data? || m.Changed?) && m.mode == Shown }

  ghost predicate EverPaints(messages: seq<Message>) { exists i :: 0 <= i < |messages| && Paints(messages[i]) }

  /** All that came before the session was retired. */
  function Wanted(messages: seq<Message>): seq<byte> {
    if messages == [] then []
    else
      var m := messages[|messages| - 1];
      Wanted(messages[..|messages| - 1]) + (if m.Data? && m.mode != Retired then m.data else [])
  }

  lemma PaintsNext(messages: seq<Message>)
    requires messages != [] && ModesMoveOn(messages)
    ensures var n := |messages| - 1;
            (EverPaints(messages) <==> EverPaints(messages[..n]) || Paints(messages[n])) &&
            (EverPaints(messages[..n]) && Modal(messages[n]) ==> messages[n].mode != Held)
  {
    var n := |messages| - 1;
    var front := messages[..n];
    if i :| 0 <= i < |messages| && Paints(messages[i]) { assert i < n ==> Paints(front[i]); }
    if i :| 0 <= i < n && Paints(front[i]) { assert Paints(messages[i]) && front[i] == messages[i]; }
  }

  lemma TakeSum(o: Output, m: Message)
    ensures var next := Take(o, m);
            next.stdout + next.held == o.stdout + o.held + (if m.Data? && m.mode != Retired then m.data else []) &&
            (Paints(m) ==> next.held == []) && (!Paints(m) ==> next.stdout == o.stdout) &&
            (o.held == [] && !(m.Data? && m.mode == Held) ==> next.held == [])
  {
    var sum := o.stdout + o.held;
    assert sum + [] == sum;
    if m.Data? && m.mode == Held { assert o.stdout + (o.held + m.data) == sum + m.data; }
    if m.Data? && m.mode == Shown { assert (sum + m.data) + [] == sum + m.data; }
    if m.Changed? && m.mode == Shown { assert sum + [] == sum; }
  }

  /** A session's part of the terminal is everything its server sent until it was retired, from the first
      byte on and nothing twice, if it ever painted; and nothing at all otherwise. */
  lemma {:induction false} PaintsAllOrNothing(messages: seq<Message>)
    requires ModesMoveOn(messages)
    ensures var o := TakeAll(NOTHING, messages);
            o.stdout + o.held == Wanted(messages) && (if EverPaints(messages) then o.held == [] else o.stdout == [])
  {
    hide Take, EverPaints;
    if messages == [] {
    } else {
      var n := |messages| - 1;
      var front, m := messages[..n], messages[n];
      assert ModesMoveOn(front);
      PaintsAllOrNothing(front);
      var o := TakeAll(NOTHING, front);
      PaintsNext(messages);
      TakeSum(o, m);
    }
  }

  ghost predicate LastSignal(messages: seq<Message>, i: nat, name: string)
    requires i < |messages|
  {
    messages[i] == ExitSignal(name) && forall j :: i < j < |messages| ==> !messages[j].ExitSignal?
  }

  ghost predicate LastStatus(messages: seq<Message>, i: nat, code: nat)
    requires i < |messages|
  {
    messages[i] == ExitStatus(code) && forall j :: i < j < |messages| ==> !messages[j].ExitStatus?
  }

  ghost predicate HasSignal(messages: seq<Message>) { exists i :: 0 <= i < |messages| && messages[i].ExitSignal? }

  ghost predicate HasStatus(messages: seq<Message>) { exists i :: 0 <= i < |messages| && messages[i].ExitStatus? }

  lemma {:induction false} LastSignalKept(messages: seq<Message>)
    ensures var signal := TakeAll(NOTHING, messages).signal;
            (signal.Some? <==> HasSignal(messages)) &&
            (signal.Some? ==> exists i :: 0 <= i < |messages| && LastSignal(messages, i, signal.value))
  {
    if messages == [] {
    } else {
      var n := |messages| - 1;
      var front, m := messages[..n], messages[n];
      LastSignalKept(front);
      var before, after := TakeAll(NOTHING, front).signal, TakeAll(NOTHING, messages).signal;
      assert forall i :: 0 <= i < n ==> front[i] == messages[i];
      if m.ExitSignal? {
        assert LastSignal(messages, n, after.value);
      } else if before.Some? {
        var i :| 0 <= i < n && LastSignal(front, i, before.value);
        assert LastSignal(messages, i, after.value);
      }
    }
  }

  lemma {:induction false} LastStatusKept(messages: seq<Message>)
    ensures var code := TakeAll(NOTHING, messages).code;
            (code.Some? <==> HasStatus(messages)) &&
            (code.Some? ==> exists i :: 0 <= i < |messages| && LastStatus(messages, i, code.value))
  {
    if messages == [] {
    } else {
      var n := |messages| - 1;
      var front, m := messages[..n], messages[n];
      LastStatusKept(front);
      var before, after := TakeAll(NOTHING, front).code, TakeAll(NOTHING, messages).code;
      assert forall i :: 0 <= i < n ==> front[i] == messages[i];
      if m.ExitStatus? {
        assert LastStatus(messages, n, after.value);
      } else if before.Some? {
        var i :| 0 <= i < n && LastStatus(front, i, before.value);
        assert LastStatus(messages, i, after.value);
      }
    }
  }

  /** Any signal outranks every status; among signals, and among statuses, the last one counts. */
  lemma SignalOutranksStatus(messages: seq<Message>)
    ensures var exit := ExitOf(TakeAll(NOTHING, messages));
            if HasSignal(messages) then
              exit.RemoteSignal? && exists i :: 0 <= i < |messages| && LastSignal(messages, i, exit.name)
            else if HasStatus(messages) then
              exit.RemoteStatus? && exit.code.Some? &&
              exists i :: 0 <= i < |messages| && LastStatus(messages, i, exit.code.value)
            else exit == RemoteStatus(None)
  {
    hide HasSignal, HasStatus, LastSignal, LastStatus, TakeAll;
    LastSignalKept(messages);
    LastStatusKept(messages);
  }

  /** One turn is what `Handoff` lets the loop do: the bytes it puts with stdout, in order, and what it
      goes on holding. */
  lemma TurnIsHandoffStep(x: Session, o: Output, data: seq<byte>)
    requires x.task == Idle && x.held == o.held
    ensures var y, next := OnData(x, data), Take(o, Data(x.mode, data));
            y.held == next.held &&
            next.stdout == o.stdout + (if y.task.Painting? then y.task.now + y.task.rest else [])
  {
    if x.mode == Shown && x.held != [] { Associates(o.stdout, o.held, data); }
    assert o.stdout + [] == o.stdout && data + [] == data;
  }

  /** The same for a change of the mode alone. */
  lemma ChangeIsHandoffStep(s: State, id: nat, o: Output)
    requires Enabled(s, SeeMode(id)) && s.sessions[id].held == o.held
    ensures var x, y := s.sessions[id], Next(s, SeeMode(id)).sessions[id];
            var next := Take(o, Changed(x.mode));
            y.held == next.held && next.stdout == o.stdout + (if y.task.Painting? then y.task.now + y.task.rest else [])
  {
    assert o.stdout + [] == o.stdout && o.held + [] == o.held;
  }

  /** What the server wrote to stderr while the session was shown. */
  function ErrorsShown(messages: seq<Message>): seq<byte> {
    if messages == [] then []
    else if messages[0].ExtendedData? && messages[0].mode == Shown then messages[0].data + ErrorsShown(messages[1..])
    else ErrorsShown(messages[1..])
  }

  lemma {:induction false} ErrorsShownNext(messages: seq<Message>, m: Message)
    ensures ErrorsShown(messages + [m]) ==
            ErrorsShown(messages) + (if m.ExtendedData? && m.mode == Shown then m.data else [])
    decreases |messages|
  {
    if messages == [] {
      assert [] + [m] == [m] && [m][1..] == [];
      assert m.ExtendedData? ==> m.data + [] == m.data && [] + m.data == m.data;
    } else {
      assert (messages + [m])[1..] == messages[1..] + [m];
      ErrorsShownNext(messages[1..], m);
      if messages[0].ExtendedData? && messages[0].mode == Shown {
        Associates(messages[0].data, ErrorsShown(messages[1..]), if m.ExtendedData? && m.mode == Shown then m.data else []);
      }
    }
  }

  /** Stderr gets exactly that, and nothing held or retired. */
  lemma {:induction false} ErrorsAreNotHeld(messages: seq<Message>)
    ensures TakeAll(NOTHING, messages).stderr == ErrorsShown(messages)
  {
    if messages == [] {
    } else {
      var front, m := messages[..|messages| - 1], messages[|messages| - 1];
      ErrorsAreNotHeld(front);
      ErrorsShownNext(front, m);
      assert messages == front + [m];
      assert ErrorsShown(front) + [] == ErrorsShown(front);
    }
  }
}
