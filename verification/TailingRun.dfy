/** Whole runs of the stats stream: the log grows, the host reads chunks, the client takes frames over
    one by one, and the connection drops and comes back, in any order. */
module TailingRun {
  import opened Bytes
  import opened Tailing

  /** The log, the host's cursor, the frames under way, and the frames the client has committed. */
  datatype Stream = Stream(log: seq<byte>, offset: nat, wire: seq<Frame>, got: seq<Frame>)

  datatype Event =
    | Append(bytes: seq<byte>)
    | ReadChunk          // one turn of the loop in `pump`
    | Deliver            // the client commits a frame and its cursor
    | Reconnect          // frames under way are lost; the new session starts at the client's cursor

  /** The offset the client asks to resume from. */
  function Cursor(got: seq<Frame>): nat { if got == [] then 0 else got[|got| - 1].next }

  function Chunk(s: Stream): seq<byte>
    requires s.offset <= |s.log|
  {
    s.log[s.offset..if |s.log| - s.offset < READ_CHUNK then |s.log| else s.offset + READ_CHUNK]
  }

  function Next(s: Stream, e: Event): Stream
    requires s.offset <= |s.log|
  {
    match e
    case Append(bytes) => s.(log := s.log + bytes)
    case ReadChunk =>
      s.(offset := s.offset + Consumed(Chunk(s)), wire := s.wire + Lines(s.offset, Chunk(s)))
    case Deliver => if s.wire == [] then s else s.(wire := s.wire[1..], got := s.got + [s.wire[0]])
    case Reconnect => s.(offset := Cursor(s.got), wire := [])
  }

  /** Committed frames and frames under way are together the lines up to the host's cursor. */
  ghost predicate Inv(s: Stream) {
    && s.offset <= |s.log|
    && Consumed(s.log[..s.offset]) == s.offset
    && s.got + s.wire == Lines(0, s.log[..s.offset])
  }

  lemma PrefixOfCons<T>(x: T, tail: seq<T>, k: nat)
    requires k <= |tail|
    ensures ([x] + tail)[..k + 1] == [x] + tail[..k]
  {
  }

  lemma {:induction false} UpToFrame(offset: nat, bytes: seq<byte>, k: nat)
    requires k < |Lines(offset, bytes)|
    ensures var n := Lines(offset, bytes)[k].next - offset;
            0 < n <= |bytes| && Lines(offset, bytes[..n]) == Lines(offset, bytes)[..k + 1] && Consumed(bytes[..n]) == n
    decreases |bytes|
  {
    hide Lines, Consumed, LineEnd;
    NextLine(offset, bytes);
    var e := LineEnd(bytes);
    var rest, o := bytes[e + 1..], offset + e + 1;
    var tail := Lines(o, rest);
    var whole := Lines(offset, bytes);
    assert whole == [Frame(o, bytes[..e])] + tail;
    if k == 0 {
      var part := bytes[..e + 1];
      LineEndIs(part, e);
      NextLine(offset, part);
      NextLine(o, []);
      assert part[e + 1..] == [] && part[..e] == bytes[..e];
      assert whole[..1] == [whole[0]];
    } else {
      UpToFrame(o, rest, k - 1);
      var n := tail[k - 1].next - offset;
      var part := bytes[..n];
      LineEndIs(part, e);
      assert part[e + 1..] == rest[..n - e - 1] && part[..e] == bytes[..e];
      PrefixOfCons(whole[0], tail, k);
      NextLine(offset, part);
    }
  }

  lemma ReadOn(log: seq<byte>, offset: nat, m: nat)
    requires offset + m <= |log| && Consumed(log[..offset]) == offset
    ensures var chunk := log[offset..offset + m];
            var to := offset + Consumed(chunk);
            Lines(0, log[..to]) == Lines(0, log[..offset]) + Lines(offset, chunk) && Consumed(log[..to]) == to
  {
    hide Lines, Consumed, LineEnd;
    var before, chunk := log[..offset], log[offset..offset + m];
    WholeJoins(0, before, chunk);
    assert before + chunk[..Consumed(chunk)] == log[..offset + Consumed(chunk)];
  }

  lemma ReadKeeps(s: Stream)
    requires Inv(s)
    ensures Inv(Next(s, ReadChunk))
  {
    hide Lines, Consumed, LineEnd;
    ReadOn(s.log, s.offset, |Chunk(s)|);
    Associates(s.got, s.wire, Lines(s.offset, Chunk(s)));
  }

  lemma ReconnectKeeps(s: Stream)
    requires Inv(s)
    ensures Inv(Next(s, Reconnect))
  {
    hide Lines, Consumed, LineEnd;
    NextLine(0, []);
    assert s.log[..0] == [] && s.got + [] == s.got;
    if s.got != [] {
      var upTo, k := s.log[..s.offset], |s.got| - 1;
      var all := Lines(0, upTo);
      assert all[k] == s.got[k] && all[..k + 1] == s.got;
      UpToFrame(0, upTo, k);
      assert upTo[..Cursor(s.got)] == s.log[..Cursor(s.got)];
    }
  }

  /** Every step keeps it. */
  lemma StepKeeps(s: Stream, e: Event)
    requires Inv(s)
    ensures Inv(Next(s, e))
  {
    hide Lines, Consumed, LineEnd;
    match e
    case Append(bytes) => assert (s.log + bytes)[..s.offset] == s.log[..s.offset];
    case ReadChunk => ReadKeeps(s);
    case Deliver =>
      if s.wire != [] {
        assert s.wire == [s.wire[0]] + s.wire[1..];
        Associates(s.got, [s.wire[0]], s.wire[1..]);
      }
    case Reconnect => ReconnectKeeps(s);
  }

  ghost predicate Run(states: seq<Stream>, events: seq<Event>) {
    && |states| == |events| + 1
    && states[0].offset == 0 && states[0].wire == [] && states[0].got == []
    && forall i :: 0 <= i < |events| ==>
         states[i].offset <= |states[i].log| && states[i + 1] == Next(states[i], events[i])
  }

  lemma {:induction false} RunKeeps(states: seq<Stream>, events: seq<Event>, n: nat)
    requires Run(states, events) && n <= |events|
    ensures Inv(states[n])
    decreases n
  {
    hide Lines, Consumed, LineEnd, Next;
    if n == 0 {
      NextLine(0, []);
      assert states[0].log[..0] == [];
      assert states[0].got + states[0].wire == [];
    } else {
      RunKeeps(states, events, n - 1);
      StepKeeps(states[n - 1], events[n - 1]);
    }
  }

  lemma SplitAt(log: seq<byte>, offset: nat)
    requires offset <= |log| && Consumed(log[..offset]) == offset
    ensures Lines(0, log) == Lines(0, log[..offset]) + Lines(offset, log[offset..])
  {
    hide Lines, Consumed, LineEnd;
    var a, b := log[..offset], log[offset..];
    LinesSplit(0, a, b);
    assert log == a + b && a[offset..] + b == b;
  }

  lemma SpentPartial(offset: nat, rest: seq<byte>)
    requires Consumed(rest) == 0
    ensures Lines(offset, rest) == []
  {
    hide Lines, Consumed, LineEnd;
    NextLine(offset, rest);
  }

  /** In every run the client holds exactly the first lines of the log, in order: none is lost, none
      comes twice; and once the host is caught up with nothing under way, it holds them all. */
  lemma NothingLostOrRepeated(states: seq<Stream>, events: seq<Event>, n: nat)
    requires Run(states, events) && n <= |events|
    ensures states[n].got <= Lines(0, states[n].log) && states[n].offset <= |states[n].log|
    ensures states[n].wire == [] && Consumed(states[n].log[states[n].offset..]) == 0 ==>
              states[n].got == Lines(0, states[n].log)
  {
    hide Lines, Consumed, LineEnd;
    RunKeeps(states, events, n);
    SplitAt(states[n].log, states[n].offset);
    var rest := states[n].log[states[n].offset..];
    if Consumed(rest) == 0 { SpentPartial(states[n].offset, rest); }
    var upTo := Lines(0, states[n].log[..states[n].offset]);
    assert states[n].got <= upTo && upTo + [] == upTo;
  }

  /** What the client has committed stays: no reconnect takes it back. */
  lemma {:induction false} CommittedStays(states: seq<Stream>, events: seq<Event>, m: nat, n: nat)
    requires Run(states, events) && m <= n <= |events|
    ensures states[m].got <= states[n].got && states[m].log <= states[n].log
    decreases n
  {
    if m < n {
      CommittedStays(states, events, m, n - 1);
      assert states[n] == Next(states[n - 1], events[n - 1]);
    }
  }

  // ----- everything arrives -----

  /** The state after these events. */
  ghost function After(s: Stream, events: seq<Event>): (t: Stream)
    requires Inv(s)
    ensures Inv(t)
    decreases |events|
  {
    if events == [] then s
    else
      StepKeeps(s, events[0]);
      After(Next(s, events[0]), events[1..])
  }

  lemma AfterFirst(s: Stream, e: Event, more: seq<Event>)
    requires Inv(s)
    ensures Inv(Next(s, e)) && After(s, [e] + more) == After(Next(s, e), more)
  {
    StepKeeps(s, e);
    assert ([e] + more)[1..] == more;
  }

  ghost predicate OnlyReadsAndDeliveries(events: seq<Event>) {
    forall k :: 0 <= k < |events| ==> events[k] == ReadChunk || events[k] == Deliver
  }

  /** While a complete line waits and every waiting line fits a chunk, a read gets at least one. */
  lemma ReadProgresses(s: Stream)
    requires Inv(s) && Consumed(s.log[s.offset..]) > 0 && AllFit(Lines(s.offset, s.log[s.offset..]))
    ensures var next := Next(s, ReadChunk);
            s.offset < next.offset <= |next.log| && next.log == s.log &&
            AllFit(Lines(next.offset, next.log[next.offset..]))
  {
    hide Lines, Consumed, LineEnd, Reachable, AllFit;
    var rest, m := s.log[s.offset..], |Chunk(s)|;
    assert Chunk(s) == rest[..m];
    var c := Consumed(rest[..m]);
    ReachesAllIffLinesFit(s.offset, rest);
    ChunkReaches(rest, m);
    LinesSplit(s.offset, rest[..m], rest[m..]);
    assert rest[..m] + rest[m..] == rest && rest[..m][c..] + rest[m..] == rest[c..];
    DropDrop(s.log, s.offset, c);
    ReachesAllIffLinesFit(s.offset + c, rest[c..]);
  }

  lemma InBounds(s: Stream)
    requires Inv(s)
    ensures s.offset <= |s.log|
  {
  }

  lemma AllDelivered(s: Stream)
    requires Inv(s) && s.wire == [] && Consumed(s.log[s.offset..]) == 0
    ensures After(s, []) == s && s.got == Lines(0, s.log)
  {
    hide Lines, Consumed, LineEnd;
    SplitAt(s.log, s.offset);
    SpentPartial(s.offset, s.log[s.offset..]);
    assert s.got + [] == s.got;
    var upTo := Lines(0, s.log[..s.offset]);
    assert upTo + [] == upTo;
  }

  /** From any state on, with every waiting line short enough, reads and deliveries alone bring the client all
      complete lines of the log. */
  lemma {:induction false} EverythingArrives(s: Stream) returns (events: seq<Event>)
    requires Inv(s) && AllFit(Lines(s.offset, s.log[s.offset..]))
    ensures OnlyReadsAndDeliveries(events)
    ensures After(s, events).log == s.log && After(s, events).got == Lines(0, s.log)
    decreases |s.log| - s.offset, |s.wire|
  {
    hide Lines, Consumed, LineEnd, AllFit, Inv, After;
    StepKeeps(s, ReadChunk);
    StepKeeps(s, Deliver);
    InBounds(s);
    if Consumed(s.log[s.offset..]) > 0 {
      ReadProgresses(s);
      var more := EverythingArrives(Next(s, ReadChunk));
      AfterFirst(s, ReadChunk, more);
      events := [ReadChunk] + more;
    } else if s.wire != [] {
      var more := EverythingArrives(Next(s, Deliver));
      AfterFirst(s, Deliver, more);
      events := [Deliver] + more;
    } else {
      AllDelivered(s);
      events := [];
    }
  }

  // ----- the cursors on their way back -----

  const COMMA: byte := 0x2c

  function CommaAt(s: seq<byte>): (e: nat)
    ensures e <= |s| && (e < |s| ==> s[e] == COMMA) && forall k :: 0 <= k < e ==> s[k] != COMMA
  {
    if s == [] || s[0] == COMMA then 0 else 1 + CommaAt(s[1..])
  }

  /** `parse_cursors`: later entries win. What one entry says is a given function. */
  function ParseCursors(entry: seq<byte> -> map<seq<byte>, nat>, value: seq<byte>): map<seq<byte>, nat>
    decreases |value|
  {
    var e := CommaAt(value);
    if e == |value| then entry(value) else entry(value[..e]) + ParseCursors(entry, value[e + 1..])
  }

  /** `append_cursors`. */
  function AppendCursors(current: seq<byte>, value: seq<byte>): seq<byte> {
    if current == [] then value else current + [COMMA] + value
  }

  lemma CommaAtIs(s: seq<byte>, e: nat)
    requires e < |s| && s[e] == COMMA && forall k :: 0 <= k < e ==> s[k] != COMMA
    ensures CommaAt(s) == e
  {
  }

  lemma MergeAssociates<K, V>(x: map<K, V>, y: map<K, V>, z: map<K, V>)
    ensures x + (y + z) == (x + y) + z
  {
  }

  lemma {:induction false} ParseAcrossComma(entry: seq<byte> -> map<seq<byte>, nat>, a: seq<byte>, b: seq<byte>)
    ensures ParseCursors(entry, a + [COMMA] + b) == ParseCursors(entry, a) + ParseCursors(entry, b)
    decreases |a|
  {
    var all, e := a + [COMMA] + b, CommaAt(a);
    CommaAtIs(all, e);
    assert all[..e] == a[..e];
    if e == |a| {
      assert a[..e] == a && all[e + 1..] == b;
    } else {
      assert all[e + 1..] == a[e + 1..] + [COMMA] + b;
      ParseAcrossComma(entry, a[e + 1..], b);
      MergeAssociates(entry(a[..e]), ParseCursors(entry, a[e + 1..]), ParseCursors(entry, b));
    }
  }

  /** A cursor set split over several requests parses as the requests would one after the other; the first
      request, with nothing accumulated yet, as it stands. */
  lemma AppendedCursorsMerge(entry: seq<byte> -> map<seq<byte>, nat>, current: seq<byte>, value: seq<byte>)
    ensures ParseCursors(entry, AppendCursors(current, value)) ==
            (if current == [] then map[] else ParseCursors(entry, current)) + ParseCursors(entry, value)
  {
    if current == [] {
      assert map[] + ParseCursors(entry, value) == ParseCursors(entry, value);
    } else {
      ParseAcrossComma(entry, current, value);
    }
  }

  /** Cursor lists, byte by byte: entries between commas, and requests joined with one. */
  lemma CursorsByComma(entry: seq<byte> -> map<seq<byte>, nat>, first: seq<byte>, rest: seq<byte>)
    requires 0x2c !in first
    ensures ParseCursors(entry, first) == entry(first)
    ensures ParseCursors(entry, first + [0x2c] + rest) == entry(first) + ParseCursors(entry, rest)
    ensures AppendCursors(first, rest) == if first == [] then rest else first + [0x2c] + rest
  {
    assert CommaAt(first) == |first|;
    ParseAcrossComma(entry, first, rest);
  }
}
