/** The stats stream: complete lines of an append-only log, framed with the offset to resume from.

    `Lines` is what a stretch of the log means; `Pump` is the program's chunked reading of it; the run
    at the end lets appends, reads, deliveries and reconnects interleave in any order. */
module Tailing {
  import opened Options
  import opened Bytes

  const READ_CHUNK := 64 * 1024
  const I64_LIMIT := 0x8000_0000_0000_0000

  /** One complete line and the offset just after its newline. */
  datatype Frame = Frame(next: nat, line: seq<byte>)

  /** The first newline, or the length of `bytes`. */
  function LineEnd(bytes: seq<byte>): (e: nat)
    ensures e <= |bytes| && (e < |bytes| ==> bytes[e] == NEWLINE)
    ensures forall k :: 0 <= k < e ==> bytes[k] != NEWLINE
  {
    if bytes == [] || bytes[0] == NEWLINE then 0 else 1 + LineEnd(bytes[1..])
  }

  /** The complete lines of `bytes`, which stand at `offset` in the log. */
  function Lines(offset: nat, bytes: seq<byte>): seq<Frame>
    decreases |bytes|
  {
    var e := LineEnd(bytes);
    if e == |bytes| then []
    else [Frame(offset + e + 1, bytes[..e])] + Lines(offset + e + 1, bytes[e + 1..])
  }

  /** How many bytes the complete lines take up. */
  function Consumed(bytes: seq<byte>): (n: nat)
    ensures n <= |bytes|
    decreases |bytes|
  {
    var e := LineEnd(bytes);
    if e == |bytes| then 0 else e + 1 + Consumed(bytes[e + 1..])
  }

  // ----- cutting a log at a line end -----

  lemma LineEndIs(bytes: seq<byte>, e: nat)
    requires e < |bytes| && bytes[e] == NEWLINE && forall k :: 0 <= k < e ==> bytes[k] != NEWLINE
    ensures LineEnd(bytes) == e
  {
  }

  lemma NextLine(offset: nat, bytes: seq<byte>)
    ensures var e := LineEnd(bytes);
            if e == |bytes| then Lines(offset, bytes) == [] && Consumed(bytes) == 0
            else
              Lines(offset, bytes) == [Frame(offset + e + 1, bytes[..e])] + Lines(offset + e + 1, bytes[e + 1..]) &&
              Consumed(bytes) == e + 1 + Consumed(bytes[e + 1..])
  {
  }

  /** What `a` completes stays; reading goes on at its partial last line. */
  lemma {:induction false} LinesSplit(offset: nat, a: seq<byte>, b: seq<byte>)
    ensures var n := Consumed(a);
            Lines(offset, a + b) == Lines(offset, a) + Lines(offset + n, a[n..] + b) &&
            Consumed(a + b) == n + Consumed(a[n..] + b)
    decreases |a|
  {
    hide Lines, Consumed, LineEnd;
    NextLine(offset, a);
    var e := LineEnd(a);
    if e == |a| {
      assert a[0..] == a && [] + Lines(offset, a + b) == Lines(offset, a + b);
    } else {
      var rest, o := a[e + 1..], offset + e + 1;
      LineEndIs(a + b, e);
      NextLine(offset, a + b);
      assert (a + b)[e + 1..] == rest + b && (a + b)[..e] == a[..e];
      LinesSplit(o, rest, b);
      var n := Consumed(rest);
      assert rest[n..] == a[e + 1 + n..];
      Associates([Frame(o, a[..e])], Lines(o, rest), Lines(o + n, rest[n..] + b));
    }
  }

  lemma {:induction false} NothingAfterConsumed(offset: nat, bytes: seq<byte>)
    ensures var n := Consumed(bytes); Lines(offset, bytes[n..]) == [] && Consumed(bytes[n..]) == 0
    ensures LineEnd(bytes[Consumed(bytes)..]) == |bytes| - Consumed(bytes)
    decreases |bytes|
  {
    hide Lines, Consumed, LineEnd;
    NextLine(offset, bytes);
    var e := LineEnd(bytes);
    if e < |bytes| {
      var rest := bytes[e + 1..];
      NothingAfterConsumed(offset, rest);
      assert rest[Consumed(rest)..] == bytes[Consumed(bytes)..];
    } else {
      assert bytes[0..] == bytes;
    }
  }

  /** Every line with its newline, put together again, is the part of the log that was consumed. */
  function WithNewlines(frames: seq<Frame>): seq<byte> {
    if frames == [] then [] else frames[0].line + [NEWLINE] + WithNewlines(frames[1..])
  }

  lemma {:induction false} LinesAreTheLog(offset: nat, bytes: seq<byte>)
    ensures WithNewlines(Lines(offset, bytes)) == bytes[..Consumed(bytes)]
    decreases |bytes|
  {
    hide Lines, Consumed, LineEnd;
    NextLine(offset, bytes);
    var e := LineEnd(bytes);
    if e == |bytes| {
    } else {
      var rest := bytes[e + 1..];
      LinesAreTheLog(offset + e + 1, rest);
      assert Lines(offset, bytes)[1..] == Lines(offset + e + 1, rest);
      assert bytes[..Consumed(bytes)] == bytes[..e] + [NEWLINE] + rest[..Consumed(rest)];
    }
  }

  /** Resuming from the offset in any frame gives exactly the frames after it. */
  lemma {:induction false} ResumeFromFrame(offset: nat, bytes: seq<byte>, k: nat)
    requires k < |Lines(offset, bytes)|
    ensures var next := Lines(offset, bytes)[k].next;
            offset < next <= offset + Consumed(bytes) &&
            Lines(next, bytes[next - offset..]) == Lines(offset, bytes)[k + 1..] &&
            next - offset + Consumed(bytes[next - offset..]) == Consumed(bytes)
    decreases |bytes|
  {
    hide Lines, Consumed, LineEnd;
    NextLine(offset, bytes);
    var e := LineEnd(bytes);
    var rest, o := bytes[e + 1..], offset + e + 1;
    var tail := Lines(o, rest);
    if k == 0 {
      assert ([Frame(o, bytes[..e])] + tail)[1..] == tail;
    } else {
      ResumeFromFrame(o, rest, k - 1);
      var next := tail[k - 1].next;
      assert rest[next - o..] == bytes[next - offset..];
      assert ([Frame(o, bytes[..e])] + tail)[k + 1..] == tail[k..];
    }
  }

  // ----- frames on the wire -----

  /** `file \t next \t line \n`. */
  function Encode(file: seq<byte>, frame: Frame): seq<byte> {
    file + [TAB] + Decimal(frame.next) + [TAB] + frame.line
  }

  function EncodeAll(file: seq<byte>, frames: seq<Frame>): seq<byte> {
    if frames == [] then []
    else EncodeAll(file, frames[..|frames| - 1]) + Encode(file, frames[|frames| - 1]) + [NEWLINE]
  }

  function TabAt(s: seq<byte>): (e: nat)
    ensures e <= |s| && (e < |s| ==> s[e] == TAB) && forall k :: 0 <= k < e ==> s[k] != TAB
  {
    if s == [] || s[0] == TAB then 0 else 1 + TabAt(s[1..])
  }

  lemma TabAtIs(s: seq<byte>, e: nat)
    requires e < |s| && s[e] == TAB && forall k :: 0 <= k < e ==> s[k] != TAB
    ensures TabAt(s) == e
  {
  }

  /** What the client makes of a frame. */
  datatype StatsFrame = StatsFrame(file: seq<byte>, next: int, line: seq<byte>)

  /** The client's `parse_frame`: `splitn(3, '\t')`, so tabs inside the line survive. */
  function ParseFrame(raw: seq<byte>): Option<StatsFrame> {
    var t1 := TabAt(raw);
    if t1 == |raw| then None
    else
      var rest := raw[t1 + 1..];
      var t2 := TabAt(rest);
      if t2 == |rest| || t1 == 0 then None
      else
        var next := ParseSigned(rest[..t2], I64_LIMIT);
        if next.None? then None else Some(StatsFrame(raw[..t1], next.value, rest[t2 + 1..]))
  }

  /** What a raw line must look like to be a frame: a file, an offset and a line between two tabs. */
  ghost predicate SpellsFrame(raw: seq<byte>, f: StatsFrame, digits: seq<byte>) {
    && raw == f.file + [0x09] + digits + [0x09] + f.line
    && f.file != [] && 0x09 !in f.file && 0x09 !in digits
    && ParseSigned(digits, 0x8000_0000_0000_0000) == Some(f.next)
  }

  lemma SpelledFrame(raw: seq<byte>, f: StatsFrame, digits: seq<byte>)
    requires SpellsFrame(raw, f, digits)
    ensures ParseFrame(raw) == Some(f)
  {
    hide ParseSigned;
    TabAtIs(raw, |f.file|);
    var rest := digits + [0x09] + f.line;
    assert raw == f.file + [0x09] + rest;
    assert raw[|f.file| + 1..] == rest;
    TabAtIs(rest, |digits|);
    assert rest[..|digits|] == digits && rest[|digits| + 1..] == f.line && raw[..|f.file|] == f.file;
  }

  lemma CutAtTab(s: seq<byte>, t: nat)
    requires t < |s| && s[t] == 0x09
    ensures s == s[..t] + [0x09] + s[t + 1..]
  {
  }

  lemma TwoTabs(raw: seq<byte>, file: seq<byte>, rest: seq<byte>, digits: seq<byte>, line: seq<byte>)
    requires raw == file + [0x09] + rest && rest == digits + [0x09] + line
    ensures raw == file + [0x09] + digits + [0x09] + line
  {
  }

  lemma FrameIsSpelled(raw: seq<byte>)
    requires ParseFrame(raw).Some?
    ensures exists digits: seq<byte> :: SpellsFrame(raw, ParseFrame(raw).value, digits)
  {
    hide ParseSigned, TabAt;
    var t1 := TabAt(raw);
    var rest := raw[t1 + 1..];
    var t2 := TabAt(rest);
    var digits: seq<byte> := rest[..t2];
    CutAtTab(raw, t1);
    CutAtTab(rest, t2);
    TwoTabs(raw, raw[..t1], rest, digits, rest[t2 + 1..]);
    assert SpellsFrame(raw, ParseFrame(raw).value, digits);
  }

  /** The client takes exactly such lines for frames. */
  lemma ParseFrameIff(raw: seq<byte>, f: StatsFrame)
    ensures ParseFrame(raw) == Some(f) <==> exists digits: seq<byte> :: SpellsFrame(raw, f, digits)
  {
    hide ParseFrame, SpellsFrame;
    if ParseFrame(raw) == Some(f) { FrameIsSpelled(raw); }
    if exists digits: seq<byte> :: SpellsFrame(raw, f, digits) {
      var digits: seq<byte> :| SpellsFrame(raw, f, digits);
      SpelledFrame(raw, f, digits);
    }
  }

  /** How the client turns the bytes of a raw line into text, which is bytes again. */
  type Decoder = seq<byte> -> seq<byte>

  predicate IsAscii(b: byte) { b < 0x80 }

  /** What is asked of it: an ASCII byte stands for itself, whatever is around it. */
  ghost predicate KeepsAscii(decode: Decoder) {
    && decode([]) == []
    && forall a, c: byte, b :: IsAscii(c) ==> decode(a + [c] + b) == decode(a) + [c] + decode(b)
  }

  lemma {:induction false} AsciiStays(decode: Decoder, s: seq<byte>)
    requires KeepsAscii(decode) && forall k :: 0 <= k < |s| ==> IsAscii(s[k])
    ensures decode(s) == s
  {
    if s == [] {
    } else {
      var front, last := s[..|s| - 1], s[|s| - 1];
      AsciiStays(decode, front);
      assert s == front + [last] + [];
      assert decode(front + [last] + []) == decode(front) + [last] + decode([]);
    }
  }

  /** Files the host names: text without the bytes that would break the encodings. */
  ghost predicate FileId(file: seq<byte>) {
    file != [] && TAB !in file && NEWLINE !in file && forall k :: 0 <= k < |file| ==> IsAscii(file[k])
  }

  lemma FileIsAscii(file: seq<byte>)
    requires FileId(file)
    ensures forall k :: 0 <= k < |file| ==> IsAscii(file[k])
  {
  }

  lemma DecodedFrame(decode: Decoder, file: seq<byte>, frame: Frame)
    requires KeepsAscii(decode) && FileId(file)
    ensures decode(Encode(file, frame)) == Encode(file, Frame(frame.next, decode(frame.line)))
  {
    hide Decimal, FileId;
    var digits := Decimal(frame.next);
    FileIsAscii(file);
    AsciiStays(decode, file);
    AsciiStays(decode, digits);
    var rest := digits + [TAB] + frame.line;
    assert decode(digits + [TAB] + frame.line) == decode(digits) + [TAB] + decode(frame.line);
    assert decode(file + [TAB] + rest) == decode(file) + [TAB] + decode(rest);
    assert Encode(file, frame) == file + [TAB] + rest;
    var line := decode(frame.line);
    assert file + [TAB] + (digits + [TAB] + line) == file + [TAB] + digits + [TAB] + line;
  }

  lemma EncodedParses(file: seq<byte>, frame: Frame)
    requires FileId(file) && frame.next < I64_LIMIT
    ensures ParseFrame(Encode(file, frame)) == Some(StatsFrame(file, frame.next, frame.line))
  {
    hide Decimal, ParseSigned;
    var raw, digits := Encode(file, frame), Decimal(frame.next);
    TabAtIs(raw, |file|);
    var rest := raw[|file| + 1..];
    assert rest == digits + [TAB] + frame.line;
    assert forall k :: 0 <= k < |digits| ==> IsDigit(rest[k]);
    TabAtIs(rest, |digits|);
    assert rest[..|digits|] == digits && rest[|digits| + 1..] == frame.line && raw[..|file|] == file;
    DecimalParsesSigned(frame.next, I64_LIMIT);
  }

  /** A frame comes back as its file, its offset and its line as the client decodes it, tabs included; the
      very same line exactly when decoding leaves it alone. */
  lemma FrameRoundTrip(decode: Decoder, file: seq<byte>, frame: Frame)
    requires KeepsAscii(decode) && FileId(file) && frame.next < I64_LIMIT
    ensures ParseFrame(decode(Encode(file, frame))) == Some(StatsFrame(file, frame.next, decode(frame.line)))
  {
    hide Decimal, ParseFrame, FileId, KeepsAscii, Encode;
    DecodedFrame(decode, file, frame);
    EncodedParses(file, Frame(frame.next, decode(frame.line)));
  }

  ghost predicate NoNewlines(frames: seq<Frame>) {
    forall k :: 0 <= k < |frames| ==> NEWLINE !in frames[k].line
  }

  lemma NoNewlineEncoded(file: seq<byte>, frame: Frame)
    requires FileId(file) && NEWLINE !in frame.line
    ensures NEWLINE !in Encode(file, frame)
  {
    hide Decimal;
    assert forall d :: d in Decimal(frame.next) ==> IsDigit(d);
  }

  /** One line and its newline. */
  lemma OneLine(offset: nat, raw: seq<byte>)
    requires NEWLINE !in raw
    ensures var line := raw + [NEWLINE];
            Lines(offset, line) == [Frame(offset + |raw| + 1, raw)] && Consumed(line) == |line|
  {
    hide Lines, Consumed, LineEnd;
    var line := raw + [NEWLINE];
    LineEndIs(line, |raw|);
    NextLine(offset, line);
    NextLine(offset + |raw| + 1, []);
    assert line[|raw| + 1..] == [] && line[..|raw|] == raw;
  }

  /** A line ends at its newline byte, whatever follows; without one it is not complete. */
  lemma LineByLine(offset: nat, line: seq<byte>, rest: seq<byte>)
    requires 0x0a !in line
    ensures var log := line + [0x0a] + rest;
            Lines(offset, log) == [Frame(offset + |line| + 1, line)] + Lines(offset + |line| + 1, rest) &&
            Consumed(log) == |line| + 1 + Consumed(rest)
    ensures Lines(offset, line) == [] && Consumed(line) == 0
  {
    hide Lines, Consumed, LineEnd;
    var log := line + [0x0a] + rest;
    LineEndIs(log, |line|);
    NextLine(offset, log);
    assert log[..|line|] == line && log[|line| + 1..] == rest;
    NextLine(offset, line);
  }

  lemma EncodeNext(file: seq<byte>, done: seq<Frame>, frame: Frame)
    ensures EncodeAll(file, done + [frame]) == EncodeAll(file, done) + Encode(file, frame) + [NEWLINE]
  {
    hide Encode;
    assert (done + [frame])[..|done|] == done;
  }

  /** A frame on the wire, byte by byte. */
  lemma FrameOnTheWire(file: seq<byte>, frame: Frame)
    ensures EncodeAll(file, [frame]) == file + [0x09] + Decimal(frame.next) + [0x09] + frame.line + [0x0a]
  {
    EncodeNext(file, [], frame);
    assert [] + [frame] == [frame] && EncodeAll(file, []) == [];
    assert [] + Encode(file, frame) == Encode(file, frame);
  }

  /** A line more at the end of whole lines. */
  lemma LineAdded(before: seq<byte>, raw: seq<byte>)
    requires Consumed(before) == |before| && NEWLINE !in raw
    ensures var wire := before + raw + [NEWLINE];
            Lines(0, wire) == Lines(0, before) + [Frame(|wire|, raw)] && Consumed(wire) == |wire|
  {
    hide Lines, Consumed, LineEnd;
    var line := raw + [NEWLINE];
    OneLine(|before|, raw);
    LinesSplit(0, before, line);
    assert before[|before|..] + line == line && before + raw + [NEWLINE] == before + line;
  }

  /** The client's own line splitting finds one raw line for each frame, in order. */
  lemma {:induction false} WireSplitsIntoFrames(file: seq<byte>, frames: seq<Frame>)
    requires FileId(file) && NoNewlines(frames)
    ensures var wire := EncodeAll(file, frames);
            Consumed(wire) == |wire| && |Lines(0, wire)| == |frames| &&
            forall k :: 0 <= k < |frames| ==> Lines(0, wire)[k].line == Encode(file, frames[k])
    decreases |frames|
  {
    hide Lines, Consumed, LineEnd, Encode;
    if frames == [] {
      NextLine(0, []);
    } else {
      var front, last := frames[..|frames| - 1], frames[|frames| - 1];
      WireSplitsIntoFrames(file, front);
      NoNewlineEncoded(file, last);
      LineAdded(EncodeAll(file, front), Encode(file, last));
    }
  }

  lemma NoNewlinesCons(frame: Frame, rest: seq<Frame>)
    requires NEWLINE !in frame.line && NoNewlines(rest)
    ensures NoNewlines([frame] + rest)
  {
  }

  lemma {:induction false} LinesHaveNoNewlines(offset: nat, bytes: seq<byte>)
    ensures NoNewlines(Lines(offset, bytes))
    decreases |bytes|
  {
    hide Lines, Consumed, LineEnd;
    var e := LineEnd(bytes);
    NextLine(offset, bytes);
    if e == |bytes| {
    } else {
      LinesHaveNoNewlines(offset + e + 1, bytes[e + 1..]);
      NoNewlinesCons(Frame(offset + e + 1, bytes[..e]), Lines(offset + e + 1, bytes[e + 1..]));
    }
  }

  /** Log to client: the raw lines the client finds on the wire parse to exactly the log's lines, decoded,
      each with its file and the offset to resume from. */
  lemma WireCarriesLines(decode: Decoder, file: seq<byte>, offset: nat, log: seq<byte>)
    requires KeepsAscii(decode) && FileId(file) && offset + |log| < I64_LIMIT
    ensures var frames := Lines(offset, log);
            var raw := Lines(0, EncodeAll(file, frames));
            Consumed(EncodeAll(file, frames)) == |EncodeAll(file, frames)| && |raw| == |frames| &&
            forall k :: 0 <= k < |frames| ==>
              ParseFrame(decode(raw[k].line)) == Some(StatsFrame(file, frames[k].next, decode(frames[k].line)))
  {
    hide Lines, Consumed, LineEnd, Encode, EncodeAll, ParseFrame, KeepsAscii, FileId;
    var frames := Lines(offset, log);
    LinesHaveNoNewlines(offset, log);
    WireSplitsIntoFrames(file, frames);
    forall k | 0 <= k < |frames|
      ensures ParseFrame(decode(Encode(file, frames[k]))) == Some(StatsFrame(file, frames[k].next, decode(frames[k].line)))
    {
      ResumeFromFrame(offset, log, k);
      FrameRoundTrip(decode, file, frames[k]);
    }
  }

  // ----- the program's reading -----

  /** How far a framing under way has come. */
  ghost predicate FramedUpTo(offset: nat, bytes: seq<byte>, done: seq<Frame>, consumed: nat) {
    && consumed <= |bytes|
    && Lines(offset, bytes) == done + Lines(offset + consumed, bytes[consumed..])
    && Consumed(bytes) == consumed + Consumed(bytes[consumed..])
  }

  lemma FramingStarts(offset: nat, bytes: seq<byte>)
    ensures FramedUpTo(offset, bytes, [], 0)
  {
    hide Lines, Consumed;
    assert bytes[0..] == bytes && [] + Lines(offset, bytes) == Lines(offset, bytes);
  }

  lemma FramingNext(offset: nat, bytes: seq<byte>, done: seq<Frame>, consumed: nat)
    requires FramedUpTo(offset, bytes, done, consumed)
    ensures var rest := bytes[consumed..];
            var e := LineEnd(rest);
            var to := consumed + e + 1;
            if e == |rest| then Lines(offset, bytes) == done && Consumed(bytes) == consumed
            else FramedUpTo(offset, bytes, done + [Frame(offset + to, rest[..e])], to)
  {
    hide Lines, Consumed, LineEnd;
    var rest := bytes[consumed..];
    var e := LineEnd(rest);
    NextLine(offset + consumed, rest);
    if e == |rest| {
      assert done + [] == done;
    } else {
      DropDrop(bytes, consumed, e + 1);
      var to := consumed + e + 1;
      Associates(done, [Frame(offset + to, rest[..e])], Lines(offset + to, bytes[to..]));
    }
  }

  /** `frame_lines`. */
  method FrameLines(file: seq<byte>, offset: nat, bytes: seq<byte>) returns (out: seq<byte>, consumed: nat)
    ensures out == EncodeAll(file, Lines(offset, bytes)) && consumed == Consumed(bytes)
  {
    hide Lines, Consumed, LineEnd, Encode, FramedUpTo;
    out, consumed := [], 0;
    ghost var done: seq<Frame> := [];
    FramingStarts(offset, bytes);
    while true
      invariant consumed <= |bytes| && out == EncodeAll(file, done)
      invariant FramedUpTo(offset, bytes, done, consumed)
      decreases |bytes| - consumed
    {
      var rest := bytes[consumed..];
      var nl := LineEnd(rest);
      FramingNext(offset, bytes, done, consumed);
      if nl == |rest| {
        break;
      }
      consumed := consumed + nl + 1;
      var frame := Frame(offset + consumed, rest[..nl]);
      EncodeNext(file, done, frame);
      out := out + Encode(file, frame) + [NEWLINE];
      done := done + [frame];
    }
  }

  /** The bytes taken up by the lines before the first one that does not fit a read chunk. */
  function Reachable(bytes: seq<byte>): (n: nat)
    ensures n <= |bytes|
    decreases |bytes|
  {
    var e := LineEnd(bytes);
    if e == |bytes| || e + 1 > READ_CHUNK then 0 else e + 1 + Reachable(bytes[e + 1..])
  }

  lemma ReachStep(bytes: seq<byte>)
    ensures var e := LineEnd(bytes);
            Reachable(bytes) ==
            if e == |bytes| || e + 1 > READ_CHUNK then 0 else e + 1 + Reachable(bytes[e + 1..])
  {
    hide LineEnd;
  }

  ghost predicate AllFit(frames: seq<Frame>) {
    forall k :: 0 <= k < |frames| ==> |frames[k].line| + 1 <= 65536
  }

  lemma AllFitSplits(first: Frame, rest: seq<Frame>)
    ensures AllFit([first] + rest) <==> |first.line| + 1 <= 65536 && AllFit(rest)
  {
    var all := [first] + rest;
    if AllFit(all) {
      assert |all[0].line| + 1 <= 65536;
      forall k | 0 <= k < |rest| ensures |rest[k].line| + 1 <= 65536 { assert all[k + 1] == rest[k]; }
    }
  }

  lemma NoneUnfit()
    ensures AllFit([])
  {
  }

  /** Everything complete is reachable exactly when every complete line fits a chunk. */
  lemma {:induction false} ReachesAllIffLinesFit(offset: nat, bytes: seq<byte>)
    ensures Reachable(bytes) <= Consumed(bytes)
    ensures Reachable(bytes) == Consumed(bytes) <==> AllFit(Lines(offset, bytes))
    decreases |bytes|
  {
    hide AllFit, Lines, Consumed, LineEnd, Reachable;
    NextLine(offset, bytes);
    ReachStep(bytes);
    var e := LineEnd(bytes);
    if e < |bytes| {
      var rest, o := bytes[e + 1..], offset + e + 1;
      ReachesAllIffLinesFit(o, rest);
      AllFitSplits(Frame(o, bytes[..e]), Lines(o, rest));
    } else {
      NoneUnfit();
    }
  }

  /** An instance: a line of just a chunk's length is complete and never reached. */
  lemma LongLineStalls(offset: nat)
    ensures var line: seq<byte> := seq(65536, _ => 0x61);
            Lines(offset, line + [0x0a]) == [Frame(offset + 65537, line)] && Reachable(line + [0x0a]) == 0
  {
    hide Lines, Consumed, LineEnd, Reachable;
    var line: seq<byte> := seq(65536, _ => 0x61);
    OneLine(offset, line);
    LineEndIs(line + [NEWLINE], READ_CHUNK);
    ReachStep(line + [NEWLINE]);
  }

  lemma {:induction false} ChunkTakes(rest: seq<byte>, m: nat)
    requires m <= |rest| && m <= READ_CHUNK
    ensures Reachable(rest) == Consumed(rest[..m]) + Reachable(rest[Consumed(rest[..m])..])
    decreases m
  {
    hide Lines, Consumed, LineEnd, Reachable;
    var chunk := rest[..m];
    var e := LineEnd(chunk);
    NextLine(0, chunk);
    if e == m {
      assert rest[0..] == rest;
    } else {
      LineEndIs(rest, e);
      ReachStep(rest);
      var later := rest[e + 1..];
      assert later[..m - e - 1] == chunk[e + 1..];
      ChunkTakes(later, m - e - 1);
      DropDrop(rest, e + 1, Consumed(chunk[e + 1..]));
    }
  }

  lemma NoLineInChunk(rest: seq<byte>, m: nat)
    requires m <= |rest| && m <= READ_CHUNK && (m < READ_CHUNK ==> m == |rest|) && Consumed(rest[..m]) == 0
    ensures Reachable(rest) == 0
  {
    hide Lines, Consumed, LineEnd, Reachable;
    var chunk := rest[..m];
    NextLine(0, chunk);
    ReachStep(rest);
    assert forall k :: 0 <= k < m ==> rest[k] == chunk[k];
  }

  /** One chunk takes exactly what a whole read of the rest would take first. */
  lemma ChunkReaches(rest: seq<byte>, m: nat)
    requires m <= |rest| && m <= READ_CHUNK && (m < READ_CHUNK ==> m == |rest|)
    ensures Reachable(rest) == Consumed(rest[..m]) + Reachable(rest[Consumed(rest[..m])..])
    ensures Consumed(rest[..m]) == 0 ==> Reachable(rest) == 0
    ensures m < READ_CHUNK ==> Reachable(rest[Consumed(rest[..m])..]) == 0
  {
    hide Lines, Consumed, LineEnd, Reachable;
    ChunkTakes(rest, m);
    var chunk := rest[..m];
    if Consumed(chunk) == 0 {
      NoLineInChunk(rest, m);
      assert rest[0..] == rest;
    }
    if m < READ_CHUNK {
      assert chunk == rest;
      NothingAfterConsumed(0, rest);
      ReachStep(rest[Consumed(rest)..]);
    }
  }

  lemma NothingReachable()
    ensures Reachable([]) == 0
  {
  }

  lemma NoLines(file: seq<byte>, offset: nat)
    ensures EncodeAll(file, Lines(offset, [])) == [] && Consumed([]) == 0
  {
  }

  lemma {:induction false} EncodeAllConcat(file: seq<byte>, a: seq<Frame>, b: seq<Frame>)
    ensures EncodeAll(file, a + b) == EncodeAll(file, a) + EncodeAll(file, b)
    decreases |b|
  {
    hide Encode;
    if b == [] {
      assert a + b == a && EncodeAll(file, a) + [] == EncodeAll(file, a);
    } else {
      var b', last := b[..|b| - 1], b[|b| - 1];
      assert (a + b)[..|a + b| - 1] == a + b' && (a + b)[|a + b| - 1] == last;
      EncodeAllConcat(file, a, b');
      Associates(EncodeAll(file, a), EncodeAll(file, b'), Encode(file, last) + [NEWLINE]);
      Associates(EncodeAll(file, b'), Encode(file, last), [NEWLINE]);
      Associates(EncodeAll(file, a) + EncodeAll(file, b'), Encode(file, last), [NEWLINE]);
    }
  }

  lemma {:induction false} WholeLines(offset: nat, bytes: seq<byte>)
    ensures Lines(offset, bytes[..Consumed(bytes)]) == Lines(offset, bytes)
    ensures Consumed(bytes[..Consumed(bytes)]) == Consumed(bytes)
    decreases |bytes|
  {
    hide Lines, Consumed, LineEnd;
    NextLine(offset, bytes);
    var e, n := LineEnd(bytes), Consumed(bytes);
    var whole := bytes[..n];
    if e < |bytes| {
      var rest := bytes[e + 1..];
      WholeLines(offset + e + 1, rest);
      LineEndIs(whole, e);
      NextLine(offset, whole);
      assert whole[e + 1..] == rest[..Consumed(rest)] && whole[..e] == bytes[..e];
    } else {
      NextLine(offset, whole);
      assert whole == [];
    }
  }

  /** Reading on at a line end: the complete lines of what comes next are added, and nothing else. */
  lemma WholeJoins(start: nat, a: seq<byte>, chunk: seq<byte>)
    requires Consumed(a) == |a|
    ensures var more := a + chunk[..Consumed(chunk)];
            Lines(start, more) == Lines(start, a) + Lines(start + |a|, chunk) && Consumed(more) == |more|
  {
    hide Lines, Consumed, LineEnd;
    var whole := chunk[..Consumed(chunk)];
    WholeLines(start + |a|, chunk);
    LinesSplit(start, a, whole);
    assert a[|a|..] + whole == whole;
  }

  /** The frames of a chunk join the frames before it as if both had been read at once. */
  lemma ChunkJoins(file: seq<byte>, log: seq<byte>, start: nat, offset: nat, filled: nat)
    requires start <= offset && offset + filled <= |log| && Consumed(log[start..offset]) == offset - start
    ensures var chunk := log[offset..offset + filled];
            var to := offset + Consumed(chunk);
            EncodeAll(file, Lines(start, log[start..to])) ==
              EncodeAll(file, Lines(start, log[start..offset])) + EncodeAll(file, Lines(offset, chunk)) &&
            Consumed(log[start..to]) == to - start
  {
    hide Lines, Consumed, LineEnd, EncodeAll;
    var a, chunk := log[start..offset], log[offset..offset + filled];
    WholeJoins(start, a, chunk);
    assert a + chunk[..Consumed(chunk)] == log[start..offset + Consumed(chunk)];
    EncodeAllConcat(file, Lines(start, a), Lines(offset, chunk));
  }

  class FileTail {
    var offset: nat

    constructor (cursor: nat)
      ensures offset == cursor
    {
      offset := cursor;
    }

    /** `pump`, on a log that does not change while it runs: the frames put on the wire, and the
        cursor moved past them. A log shorter than the cursor starts over. */
    method Pump(file: seq<byte>, log: seq<byte>) returns (wire: seq<byte>)
      modifies this
      ensures var start := if |log| < old(offset) then 0 else old(offset);
              offset == start + Reachable(log[start..]) &&
              wire == EncodeAll(file, Lines(start, log[start..offset]))
    {
      hide Lines, Consumed, LineEnd, Reachable, EncodeAll;
      wire := [];
      if |log| < offset {
        offset := 0;
      }
      ghost var start := offset;
      NoLines(file, start);
      assert log[start..start] == [];
      while true
        invariant start <= offset <= |log|
        invariant wire == EncodeAll(file, Lines(start, log[start..offset]))
        invariant Consumed(log[start..offset]) == offset - start
        invariant Reachable(log[start..]) == offset - start + Reachable(log[offset..])
        decreases |log| - offset
      {
        var filled := if |log| - offset < READ_CHUNK then |log| - offset else READ_CHUNK;
        var chunk := log[offset..offset + filled];
        assert log[offset..][..filled] == chunk;
        ChunkReaches(log[offset..], filled);
        if filled == 0 {
          NothingReachable();
          assert log[offset..] == [];
          return;
        }
        var frames, consumed := FrameLines(file, offset, chunk);
        if consumed == 0 {
          return;
        }
        ChunkJoins(file, log, start, offset, filled);
        assert log[offset..][consumed..] == log[offset + consumed..];
        offset := offset + consumed;
        wire := wire + frames;
        if filled < READ_CHUNK {
          return;
        }
      }
    }
  }
}
