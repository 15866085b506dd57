/** Spectating a live game: one bridge that mutates the mirror and then pulses, any number of watchers
    that mark the pulse seen, snapshot the mirror and send a frame, every step free to interleave.

    The terminal emulator is a parameter; the only things asked of it are the laws in `Lawful`. */
module WatchProtocol {
  import opened Options
  import opened Bytes

  // ----- frames -----

  datatype Frame = Reset(cols: nat, rows: nat, contents: seq<byte>) | Diff(bytes: seq<byte>)

  /** What the host asks of a screen, and how a client turns bytes back into one. */
  datatype Terminal<!S> = Terminal(
    rows: S -> nat,
    cols: S -> nat,
    diff: (S, S) -> seq<byte>,            // `screen.contents_diff(prev)`, as diff(prev, screen)
    draw: S -> seq<byte>,                 // `screen.contents_formatted()`
    patch: (S, seq<byte>) -> S,           // a client applies a diff to what it shows
    restart: (nat, nat, seq<byte>) -> S)    // a client starts over at cols x rows with a full redraw

  ghost predicate Lawful<S(!new)>(t: Terminal<S>) {
    && (forall prev, s :: t.rows(prev) == t.rows(s) && t.cols(prev) == t.cols(s) ==> t.patch(prev, t.diff(prev, s)) == s)
    && (forall prev :: t.patch(prev, []) == prev)
    && (forall s :: t.restart(t.cols(s), t.rows(s), t.draw(s)) == s)
  }

  /** `screen_frame`. */
  function ScreenFrame<S>(t: Terminal<S>, prev: Option<S>, screen: S): Option<Frame> {
    if prev.Some? && t.rows(prev.value) == t.rows(screen) && t.cols(prev.value) == t.cols(screen) then
      var bytes := t.diff(prev.value, screen);
      if bytes == [] then None else Some(Diff(bytes))
    else Some(Reset(t.cols(screen), t.rows(screen), t.draw(screen)))
  }

  /** What a client shows after a frame, if any came. */
  function Show<S>(t: Terminal<S>, client: Option<S>, frame: Option<Frame>): Option<S> {
    match frame
    case None => client
    case Some(Reset(cols, rows, contents)) => Some(t.restart(cols, rows, contents))
    case Some(Diff(bytes)) => if client.Some? then Some(t.patch(client.value, bytes)) else None
  }

  /** A client that showed the previous screen shows the new one after its frame. */
  lemma FrameBringsScreen<S(!new)>(t: Terminal<S>, prev: Option<S>, screen: S)
    requires Lawful(t)
    ensures Show(t, prev, ScreenFrame(t, prev, screen)) == Some(screen)
  {
    if prev.Some? && t.rows(prev.value) == t.rows(screen) && t.cols(prev.value) == t.cols(screen) {
      assert t.patch(prev.value, t.diff(prev.value, screen)) == screen;
      assert t.patch(prev.value, []) == prev.value;
    } else {
      assert t.restart(t.cols(screen), t.rows(screen), t.draw(screen)) == screen;
    }
  }

  /** Which frame that is: at the size last sent a diff, or nothing when the diff is empty; a reset only for
      a first screen or a new size. */
  lemma FrameIs<S>(t: Terminal<S>, prev: Option<S>, screen: S)
    ensures var same := prev.Some? && t.rows(prev.value) == t.rows(screen) && t.cols(prev.value) == t.cols(screen);
            (ScreenFrame(t, prev, screen) == None <==> same && t.diff(prev.value, screen) == []) &&
            (same && t.diff(prev.value, screen) != [] ==>
               ScreenFrame(t, prev, screen) == Some(Diff(t.diff(prev.value, screen)))) &&
            (!same ==> ScreenFrame(t, prev, screen) == Some(Reset(t.cols(screen), t.rows(screen), t.draw(screen))))
  {
  }

  // ----- the protocol -----

  /** What the bridge is about to do. `Fed` is between the mirror's lock and `send_modify`. */
  datatype Bridge = Running | Fed | Dropped

  /** Where a watcher's loop stands. */
  datatype Pc = Top | Marked | Snapped | Waiting | Done | Gone

  datatype Watcher<S> = Watcher(
    pc: Pc,
    seen: nat,               // the pulse version last marked seen
    readEnded: bool,
    snap: Option<S>,
    snapAt: nat,             // how many mutations the snapshot includes
    prev: Option<S>,         // the screen last sent
    client: Option<S>,       // what the client shows
    sentAt: nat,             // how many mutations that includes
    owed: nat)               // mutations already pulsed when the loop last marked

  /** One game. `screens[k]` is the mirror after `k` mutations. */
  datatype Game<S> = Game(
    screens: seq<S>,
    pulsed: nat,             // mutations whose pulse has gone out
    version: nat,            // the pulse's version counter
    ended: bool,
    bridge: Bridge,
    watchers: seq<Watcher<S>>)

  datatype Step<S> =
    | Mutate(screen: S)      // a chunk of output or a resize reaches the mirror
    | Pulse
    | DropHandle
    | Subscribe
    | Mark(w: nat)
    | Snapshot(w: nat)
    | Send(w: nat)
    | SendFails(w: nat)
    | Wake(w: nat)           // `changed()` returned: the new version is marked seen
    | WakeAnyway(w: nat)     // the host's shutdown watch changed without a shutdown
    | Stop(w: nat)

  function Mirror<S>(g: Game<S>): S
    requires g.screens != []
  {
    g.screens[|g.screens| - 1]
  }

  function Mutations<S>(g: Game<S>): nat
    requires g.screens != []
  {
    |g.screens| - 1
  }

  ghost predicate Enabled<S>(g: Game<S>, step: Step<S>) {
    match step
    case Mutate(_) => g.bridge == Running
    case Pulse => g.bridge == Fed
    case DropHandle => g.bridge == Running
    case Subscribe => true
    case Mark(w) => w < |g.watchers| && g.watchers[w].pc == Top
    case Snapshot(w) => w < |g.watchers| && g.watchers[w].pc == Marked
    case Send(w) => w < |g.watchers| && g.watchers[w].pc == Snapped && g.watchers[w].snap.Some?
    case SendFails(w) => w < |g.watchers| && g.watchers[w].pc == Snapped
    case Wake(w) => w < |g.watchers| && g.watchers[w].pc == Waiting && g.watchers[w].seen != g.version
    case WakeAnyway(w) => w < |g.watchers| && g.watchers[w].pc == Waiting
    case Stop(w) => w < |g.watchers| && g.watchers[w].pc == Waiting
  }

  function Put<S>(g: Game<S>, w: nat, x: Watcher<S>): Game<S>
    requires w < |g.watchers|
  {
    g.(watchers := g.watchers[w := x])
  }

  function Next<S>(t: Terminal<S>, g: Game<S>, step: Step<S>): Game<S>
    requires Enabled(g, step) && g.screens != []
  {
    match step
    case Mutate(screen) => g.(screens := g.screens + [screen], bridge := Fed)
    case Pulse => g.(pulsed := Mutations(g), version := g.version + 1, bridge := Running)
    case DropHandle => g.(ended := true, version := g.version + 1, bridge := Dropped)
    case Subscribe => g.(watchers := g.watchers + [Watcher(Top, g.version, false, None, 0, None, None, 0, 0)])
    case Mark(w) =>
      Put(g, w, g.watchers[w].(pc := Marked, seen := g.version, readEnded := g.ended, owed := g.pulsed))
    case Snapshot(w) => Put(g, w, g.watchers[w].(pc := Snapped, snap := Some(Mirror(g)), snapAt := Mutations(g)))
    case Send(w) =>
      var x := g.watchers[w];
      var frame := ScreenFrame(t, x.prev, x.snap.value);
      Put(g, w, x.(pc := if x.readEnded then Done else Waiting,
                   prev := x.snap, client := Show(t, x.client, frame), sentAt := x.snapAt))
    case SendFails(w) => Put(g, w, g.watchers[w].(pc := Gone))
    case Wake(w) => Put(g, w, g.watchers[w].(pc := Top, seen := g.version))
    case WakeAnyway(w) => Put(g, w, g.watchers[w].(pc := Top))
    case Stop(w) => Put(g, w, g.watchers[w].(pc := Gone))
  }

  // ----- what every step keeps -----

  ghost predicate WatcherInv<S>(g: Game<S>, x: Watcher<S>)
    requires g.screens != []
  {
    && x.seen <= g.version && x.owed <= g.pulsed
    // the client shows what was last sent
    && x.client == x.prev
    && (x.prev.Some? ==> x.sentAt <= Mutations(g) && x.prev.value == g.screens[x.sentAt])
    // a version marked seen by the loop's own mark carries no pulse the watcher does not owe
    && (x.pc in {Marked, Snapped, Waiting, Done} && x.seen == g.version ==>
          x.owed == g.pulsed && x.readEnded == g.ended)
    && (x.pc in {Marked, Snapped, Done} && x.readEnded ==> g.ended)
    && (x.pc == Done ==> x.readEnded) && (x.pc == Waiting ==> !x.readEnded)
    && (x.pc == Snapped ==>
          && x.snap.Some? && x.owed <= x.snapAt <= Mutations(g) && x.snap.value == g.screens[x.snapAt]
          && (x.readEnded ==> x.snapAt == Mutations(g)))
    && (x.pc in {Waiting, Done} ==> x.prev.Some? && x.owed <= x.sentAt)
    && (x.pc == Done ==> x.sentAt == Mutations(g))
  }

  ghost predicate Inv<S>(g: Game<S>) {
    && g.screens != []
    && g.pulsed <= Mutations(g)
    && (g.bridge != Fed ==> g.pulsed == Mutations(g))
    && (g.ended <==> g.bridge == Dropped)
    && (forall w :: 0 <= w < |g.watchers| ==> WatcherInv(g, g.watchers[w]))
  }

  function Start<S>(first: S): Game<S> { Game([first], 0, 0, false, Running, []) }

  /** The watcher a step is about, if any. */
  function Acting<S>(step: Step<S>): int {
    match step
    case Mark(w) => w
    case Snapshot(w) => w
    case Send(w) => w
    case SendFails(w) => w
    case Wake(w) => w
    case WakeAnyway(w) => w
    case Stop(w) => w
    case _ => -1
  }

  lemma ActorKeeps<S(!new)>(t: Terminal<S>, g: Game<S>, step: Step<S>, w: nat)
    requires Lawful(t) && Inv(g) && Enabled(g, step) && w == Acting(step)
    ensures WatcherInv(Next(t, g, step), Next(t, g, step).watchers[w])
  {
    hide Show, ScreenFrame, Lawful;
    assert WatcherInv(g, g.watchers[w]);
    if step.Send? { FrameBringsScreen(t, g.watchers[w].prev, g.watchers[w].snap.value); }
  }

  /** A watcher that does nothing: the bridge may have moved on, or another watcher may have. */
  lemma BystanderKeeps<S(!new)>(t: Terminal<S>, g: Game<S>, step: Step<S>, w: nat)
    requires Lawful(t) && Inv(g) && Enabled(g, step) && w != Acting(step) && w < |g.watchers|
    ensures WatcherInv(Next(t, g, step), Next(t, g, step).watchers[w])
  {
    hide Show, ScreenFrame, Lawful;
    assert WatcherInv(g, g.watchers[w]);
  }

  lemma NewcomerKeeps<S(!new)>(t: Terminal<S>, g: Game<S>)
    requires Inv(g)
    ensures WatcherInv(Next(t, g, Subscribe), Next(t, g, Subscribe).watchers[|g.watchers|])
  {
  }

  lemma WatcherKeeps<S(!new)>(t: Terminal<S>, g: Game<S>, step: Step<S>, w: nat)
    requires Lawful(t) && Inv(g) && Enabled(g, step) && w < |Next(t, g, step).watchers|
    ensures WatcherInv(Next(t, g, step), Next(t, g, step).watchers[w])
  {
    hide WatcherInv, Show, ScreenFrame, Lawful;
    if w == Acting(step) {
      ActorKeeps(t, g, step, w);
    } else if w < |g.watchers| {
      BystanderKeeps(t, g, step, w);
    } else {
      NewcomerKeeps(t, g);
    }
  }

  lemma StepKeeps<S(!new)>(t: Terminal<S>, g: Game<S>, step: Step<S>)
    requires Lawful(t) && Inv(g) && Enabled(g, step)
    ensures Inv(Next(t, g, step))
  {
    hide WatcherInv, Show, ScreenFrame, Lawful;
    var next := Next(t, g, step);
    forall w | 0 <= w < |next.watchers| ensures WatcherInv(next, next.watchers[w]) {
      WatcherKeeps(t, g, step, w);
    }
  }

  ghost predicate Run<S>(t: Terminal<S>, states: seq<Game<S>>, steps: seq<Step<S>>) {
    && |states| == |steps| + 1
    && states[0].screens != [] && states[0] == Start(states[0].screens[0])
    && forall i :: 0 <= i < |steps| ==>
         states[i].screens != [] && Enabled(states[i], steps[i]) && states[i + 1] == Next(t, states[i], steps[i])
  }

  lemma StartInv<S>(first: S)
    ensures Inv(Start(first))
  {
  }

  lemma {:induction false} RunKeeps<S(!new)>(t: Terminal<S>, states: seq<Game<S>>, steps: seq<Step<S>>, n: nat)
    requires Lawful(t) && Run(t, states, steps) && n <= |steps|
    ensures Inv(states[n])
    decreases n
  {
    hide Next, Inv, Enabled;
    if n == 0 {
      StartInv(states[0].screens[0]);
    } else {
      RunKeeps(t, states, steps, n - 1);
      StepKeeps(t, states[n - 1], steps[n - 1]);
    }
  }

  /** No lost update: in every interleaving, a watcher that waits with no pulse pending has put a screen
      in front of its client that includes every mutation pulsed so far; and a watcher that stops
      because it read the end has shown the final screen. */
  lemma NoLostUpdate<S(!new)>(t: Terminal<S>, states: seq<Game<S>>, steps: seq<Step<S>>, n: nat, w: nat)
    requires Lawful(t) && Run(t, states, steps) && n <= |steps| && w < |states[n].watchers|
    ensures states[n].screens != []
    ensures var g, x := states[n], states[n].watchers[w];
            (x.pc == Waiting && x.seen == g.version ==>
               g.pulsed <= x.sentAt < |g.screens| && x.client == Some(g.screens[x.sentAt])) &&
            (x.pc == Done ==> g.ended && x.client == Some(g.screens[|g.screens| - 1]))
  {
    hide Next, Enabled;
    RunKeeps(t, states, steps, n);
  }

  /** With the bridge at rest too, that screen is the mirror itself. */
  lemma QuietWatcherShowsMirror<S(!new)>(t: Terminal<S>, states: seq<Game<S>>, steps: seq<Step<S>>, n: nat, w: nat)
    requires Lawful(t) && Run(t, states, steps) && n <= |steps| && w < |states[n].watchers|
    requires states[n].bridge != Fed && states[n].watchers[w].pc == Waiting && states[n].watchers[w].seen == states[n].version
    ensures states[n].screens != [] && states[n].watchers[w].client == Some(Mirror(states[n]))
    ensures !states[n].ended
  {
    hide Next, Enabled;
    RunKeeps(t, states, steps, n);
  }

  // ----- a pulse gets through -----

  function Woken<S>(t: Terminal<S>, g: Game<S>, w: nat): Game<S>
    requires g.screens != [] && w < |g.watchers| && g.watchers[w].pc == Waiting && g.watchers[w].seen != g.version
  {
    var woken := Next(t, g, Wake(w));
    var marked := Next(t, woken, Mark(w));
    var snapped := Next(t, marked, Snapshot(w));
    Next(t, snapped, Send(w))
  }

  /** A waiting watcher with a pulse pending can always go on: it wakes, marks, snapshots and sends, and then
      its client shows the mirror; it waits again, or is done if the game has ended. */
  lemma PendingPulseGetsThrough<S(!new)>(t: Terminal<S>, g: Game<S>, w: nat)
    requires Lawful(t) && Inv(g)
    requires w < |g.watchers| && g.watchers[w].pc == Waiting && g.watchers[w].seen != g.version
    ensures var after := Woken(t, g, w);
            w < |after.watchers| && after.watchers[w].client == Some(Mirror(g)) &&
            after.watchers[w].pc == (if g.ended then Done else Waiting) &&
            after.screens == g.screens && after.ended == g.ended && after.version == g.version
  {
    hide ScreenFrame, Show, Lawful;
    var x := g.watchers[w];
    assert WatcherInv(g, x);
    FrameBringsScreen(t, x.prev, Mirror(g));
  }
}
