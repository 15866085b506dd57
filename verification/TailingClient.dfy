/** The receiving end of the stats stream: raw lines put together from whatever pieces the channel delivers,
    and parsed one by one. */
module TailingClient {
  import opened Options
  import opened Bytes
  import opened Tailing

  function Raw(frames: seq<Frame>): seq<seq<byte>> {
    seq(|frames|, k requires 0 <= k < |frames| => frames[k].line)
  }

  /** The complete lines of `bytes`. */
  function RawLines(bytes: seq<byte>): seq<seq<byte>> { Raw(Lines(0, bytes)) }

  /** What the lines parse to, those no host writes left out. */
  function ParseAll(decode: Decoder, raws: seq<seq<byte>>): seq<StatsFrame> {
    if raws == [] then []
    else
      var last := ParseFrame(decode(raws[|raws| - 1]));
      ParseAll(decode, raws[..|raws| - 1]) + (if last.Some? then [last.value] else [])
  }

  lemma RawCons(frame: Frame, frames: seq<Frame>)
    ensures Raw([frame] + frames) == [frame.line] + Raw(frames)
  {
  }

  lemma {:induction false} RawAtAnyOffset(a: nat, b: nat, bytes: seq<byte>)
    ensures Raw(Lines(a, bytes)) == Raw(Lines(b, bytes))
    decreases |bytes|
  {
    hide Lines, LineEnd;
    var e := LineEnd(bytes);
    NextLine(a, bytes);
    NextLine(b, bytes);
    if e == |bytes| {
    } else {
      RawAtAnyOffset(a + e + 1, b + e + 1, bytes[e + 1..]);
      RawCons(Frame(a + e + 1, bytes[..e]), Lines(a + e + 1, bytes[e + 1..]));
      RawCons(Frame(b + e + 1, bytes[..e]), Lines(b + e + 1, bytes[e + 1..]));
    }
  }

  lemma RawConcat(a: seq<Frame>, b: seq<Frame>)
    ensures Raw(a + b) == Raw(a) + Raw(b)
  {
  }

  lemma RawSplit(a: seq<byte>, b: seq<byte>)
    ensures var rest := a[Consumed(a)..] + b;
            RawLines(a + b) == RawLines(a) + RawLines(rest) && (a + b)[Consumed(a + b)..] == rest[Consumed(rest)..]
  {
    hide Lines, LineEnd, Consumed, Raw;
    var n := Consumed(a);
    var rest := a[n..] + b;
    LinesSplit(0, a, b);
    RawConcat(Lines(0, a), Lines(n, rest));
    RawAtAnyOffset(0, n, rest);
    assert (a + b)[n..] == rest;
    DropDrop(a + b, n, Consumed(rest));
  }

  lemma {:induction false} ParseAllConcat(decode: Decoder, a: seq<seq<byte>>, b: seq<seq<byte>>)
    ensures ParseAll(decode, a + b) == ParseAll(decode, a) + ParseAll(decode, b)
  {
    hide ParseFrame;
    if b == [] {
      assert a + b == a && ParseAll(decode, a) + [] == ParseAll(decode, a);
    } else {
      var b', last := b[..|b| - 1], ParseFrame(decode(b[|b| - 1]));
      assert (a + b)[..|a + b| - 1] == a + b' && (a + b)[|a + b| - 1] == b[|b| - 1];
      ParseAllConcat(decode, a, b');
      Associates(ParseAll(decode, a), ParseAll(decode, b'), if last.Some? then [last.value] else []);
    }
  }

  lemma ParseOne(decode: Decoder, raw: seq<byte>)
    ensures ParseAll(decode, [raw]) == if ParseFrame(decode(raw)).Some? then [ParseFrame(decode(raw)).value] else []
  {
    hide ParseFrame;
    assert [raw][..0] == [];
  }

  /** Where the client's loop stands, and how it goes on. */
  ghost predicate TakenUpTo(decode: Decoder, all: seq<byte>, buf: seq<byte>, frames: seq<StatsFrame>) {
    ParseAll(decode, RawLines(all)) == frames + ParseAll(decode, RawLines(buf)) && all[Consumed(all)..] == buf[Consumed(buf)..]
  }

  lemma NothingToTake(decode: Decoder)
    ensures ParseAll(decode, Raw([])) == []
  {
  }

  lemma TakingNext(decode: Decoder, all: seq<byte>, buf: seq<byte>, frames: seq<StatsFrame>)
    requires TakenUpTo(decode, all, buf, frames)
    ensures var nl := LineEnd(buf);
            if nl == |buf| then ParseAll(decode, RawLines(all)) == frames && all[Consumed(all)..] == buf
            else TakenUpTo(decode, all, buf[nl + 1..], frames + ParseAll(decode, [buf[..nl]]))
  {
    hide Lines, LineEnd, Consumed, ParseAll, Raw;
    var nl := LineEnd(buf);
    NextLine(0, buf);
    if nl == |buf| {
      NothingToTake(decode);
      assert frames + [] == frames && buf[0..] == buf;
    } else {
      var rest := buf[nl + 1..];
      RawCons(Frame(nl + 1, buf[..nl]), Lines(nl + 1, rest));
      RawAtAnyOffset(0, nl + 1, rest);
      ParseAllConcat(decode, [buf[..nl]], RawLines(rest));
      Associates(frames, ParseAll(decode, [buf[..nl]]), ParseAll(decode, RawLines(rest)));
      DropDrop(buf, nl + 1, Consumed(rest));
    }
  }

  lemma TakingStarts(decode: Decoder, all: seq<byte>)
    ensures TakenUpTo(decode, all, all, [])
  {
    assert [] + ParseAll(decode, RawLines(all)) == ParseAll(decode, RawLines(all));
  }

  class StreamClient {
    const decode: Decoder
    var buf: seq<byte>

    constructor (decode: Decoder)
      ensures buf == [] && this.decode == decode
    {
      this.decode := decode;
      buf := [];
    }

    /** One data message: every line it completes is parsed, the rest waits. */
    method Receive(data: seq<byte>) returns (frames: seq<StatsFrame>)
      modifies this
      ensures var all := old(buf) + data;
              frames == ParseAll(decode, RawLines(all)) && buf == all[Consumed(all)..]
    {
      hide Lines, LineEnd, Consumed, ParseAll, RawLines, ParseFrame, TakenUpTo;
      buf := buf + data;
      frames := [];
      ghost var all := buf;
      TakingStarts(decode, all);
      while true
        invariant TakenUpTo(decode, all, buf, frames)
        decreases |buf|
      {
        var nl := LineEnd(buf);
        TakingNext(decode, all, buf, frames);
        if nl == |buf| {
          break;
        }
        ParseOne(decode, buf[..nl]);
        var frame := ParseFrame(decode(buf[..nl]));
        buf := buf[nl + 1..];
        frames := frames + (if frame.Some? then [frame.value] else []);
      }
    }
  }

  // ----- whatever the pieces -----

  datatype Received = Received(frames: seq<StatsFrame>, buf: seq<byte>)

  /** The messages in turn, as `Receive` takes each. */
  function ReceiveAll(decode: Decoder, pieces: seq<seq<byte>>): Received {
    if pieces == [] then Received([], [])
    else
      var before := ReceiveAll(decode, pieces[..|pieces| - 1]);
      var all := before.buf + pieces[|pieces| - 1];
      Received(before.frames + ParseAll(decode, RawLines(all)), all[Consumed(all)..])
  }

  function Joined(pieces: seq<seq<byte>>): seq<byte> {
    if pieces == [] then [] else Joined(pieces[..|pieces| - 1]) + pieces[|pieces| - 1]
  }

  lemma NoBytes(decode: Decoder)
    ensures RawLines([]) == [] && Consumed([]) == 0 && ParseAll(decode, []) == []
  {
  }

  /** However the channel cuts the wire, the client gets what it would get from all of it at once. */
  lemma {:induction false} PiecesDoNotMatter(decode: Decoder, pieces: seq<seq<byte>>)
    ensures var wire := Joined(pieces);
            ReceiveAll(decode, pieces) == Received(ParseAll(decode, RawLines(wire)), wire[Consumed(wire)..])
    decreases |pieces|
  {
    hide ParseAll, RawLines, Consumed;
    if pieces == [] {
      NoBytes(decode);
    } else {
      var front, last := pieces[..|pieces| - 1], pieces[|pieces| - 1];
      PiecesDoNotMatter(decode, front);
      var wire := Joined(front);
      RawSplit(wire, last);
      ParseAllConcat(decode, RawLines(wire), RawLines(wire[Consumed(wire)..] + last));
    }
  }

  /** What the client gets for a line of the log. */
  function Sent(decode: Decoder, file: seq<byte>, frame: Frame): StatsFrame {
    StatsFrame(file, frame.next, decode(frame.line))
  }

  lemma {:induction false} AllParse(decode: Decoder, raws: seq<seq<byte>>, file: seq<byte>, frames: seq<Frame>)
    requires |raws| == |frames|
    requires forall k :: 0 <= k < |raws| ==> ParseFrame(decode(raws[k])) == Some(Sent(decode, file, frames[k]))
    ensures |ParseAll(decode, raws)| == |raws|
    ensures forall k :: 0 <= k < |raws| ==> ParseAll(decode, raws)[k] == Sent(decode, file, frames[k])
  {
    hide ParseFrame;
    if raws == [] {
    } else {
      AllParse(decode, raws[..|raws| - 1], file, frames[..|frames| - 1]);
    }
  }

  /** End to end: however the wire of a stretch of log is cut, the client ends up with exactly the lines of
      that stretch, decoded, in order, with their file and offsets, and nothing left over. */
  lemma ClientGetsTheLines(decode: Decoder, file: seq<byte>, offset: nat, log: seq<byte>, pieces: seq<seq<byte>>)
    requires KeepsAscii(decode) && FileId(file) && offset + |log| < I64_LIMIT
    requires Joined(pieces) == EncodeAll(file, Lines(offset, log))
    ensures ReceiveAll(decode, pieces).buf == []
    ensures |ReceiveAll(decode, pieces).frames| == |Lines(offset, log)|
    ensures forall k :: 0 <= k < |Lines(offset, log)| ==>
              ReceiveAll(decode, pieces).frames[k] == Sent(decode, file, Lines(offset, log)[k])
  {
    hide ParseAll, Lines, Consumed, EncodeAll, ParseFrame, KeepsAscii, FileId, ReceiveAll;
    var wire := Joined(pieces);
    PiecesDoNotMatter(decode, pieces);
    WireCarriesLines(decode, file, offset, log);
    AllParse(decode, RawLines(wire), file, Lines(offset, log));
  }
}
