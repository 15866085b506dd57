/** `TtyFilter`: carries mpv's output to the terminal with its terminal-mode writes removed, its
    cursor moves attached to the frames they place, and every escape sequence whole.

    The meaning is a fold over the tokens of the stream, which no read boundary appears in. */
module TtyFilter {
  import opened Options
  import opened Bytes
  import opened Tokens

  const RELAY_HOLD_CAP := 8 * 1024 * 1024
  const U32_LIMIT := 0x1_0000_0000

  const BRACKET: byte := 0x5b
  const UNDERSCORE: byte := 0x5f
  const BACKSLASH: byte := 0x5c
  const SEMICOLON: byte := 0x3b
  const QUESTION: byte := 0x3f

  const SAVE_CURSOR: seq<byte> := [ESC, 0x37]
  const RESTORE_CURSOR: seq<byte> := [ESC, 0x38]

  /** `ESC _ G a=d ; ESC \`. */
  const DELETE_ALL: seq<byte> := [ESC, UNDERSCORE, 0x47, 0x61, 0x3d, 0x64, SEMICOLON, ESC, BACKSLASH]

  /** `25`, `1003` and `1049`. */
  const STRIPPED_PRIVATE_MODES: seq<seq<byte>> :=
    [[0x32, 0x35], [0x31, 0x30, 0x30, 0x33], [0x31, 0x30, 0x34, 0x39]]

  /** A 1-based `(row, col)` as a cursor move names it. */
  datatype CellPos = CellPos(row: nat, col: nat)

  // ----- sequences -----

  datatype SequenceEnd = Complete(len: nat) | Incomplete | NotASequence

  predicate IsFinal(b: byte) { 0x40 <= b <= 0x7e }

  /** The first CSI final byte at `k` or later. */
  function FinalAt(s: seq<byte>, k: nat): (e: nat)
    requires k <= |s|
    ensures k <= e <= |s| && (forall x :: k <= x < e ==> !IsFinal(s[x])) && (e < |s| ==> IsFinal(s[e]))
    decreases |s| - k
  {
    if k < |s| && !IsFinal(s[k]) then FinalAt(s, k + 1) else k
  }

  predicate IsTerminator(s: seq<byte>, x: nat) {
    x + 1 < |s| && s[x] == ESC && s[x + 1] == BACKSLASH
  }

  /** The first `ESC \` at `k` or later, or the length of `s`. */
  function TerminatorAt(s: seq<byte>, k: nat): (e: nat)
    requires k <= |s|
    ensures k <= e <= |s| && (forall x :: k <= x < e ==> !IsTerminator(s, x)) && (e < |s| ==> IsTerminator(s, e))
    decreases |s| - k
  {
    if k < |s| && !IsTerminator(s, k) then TerminatorAt(s, k + 1) else k
  }

  /** `sequence_end`: where the CSI or APC sequence at the start of `s` ends. */
  function SequenceEndOf(s: seq<byte>): SequenceEnd
    requires s != [] && s[0] == ESC
  {
    if |s| == 1 then Incomplete
    else if s[1] == BRACKET then
      var e := FinalAt(s, 2);
      if e < |s| then Complete(e + 1) else Incomplete
    else if s[1] == UNDERSCORE then
      var e := TerminatorAt(s, 2);
      if e < |s| then Complete(e + 2) else Incomplete
    else NotASequence
  }

  /** The tokens `feed` walks over: whole sequences, and single bytes. */
  function NextLen(s: seq<byte>): (n: nat)
    ensures n <= |s|
  {
    if s == [] then 0
    else if s[0] != ESC then 1
    else
      match SequenceEndOf(s)
      case Complete(len) => len
      case Incomplete => 0
      case NotASequence => 1
  }

  // ----- what a sequence is to the relay -----

  datatype MpvWrite = Mode | CursorMove(cell: CellPos) | DeleteAll | Graphics | Other

  function SemicolonAt(s: seq<byte>, k: nat): (e: nat)
    requires k <= |s|
    ensures k <= e <= |s| && (forall x :: k <= x < e ==> s[x] != SEMICOLON) && (e < |s| ==> s[e] == SEMICOLON)
    decreases |s| - k
  {
    if k < |s| && s[k] != SEMICOLON then SemicolonAt(s, k + 1) else k
  }

  function CursorCell(params: seq<byte>): Option<CellPos> {
    var cut := SemicolonAt(params, 0);
    if cut == |params| then None
    else
      var row := ParseUnsigned(params[..cut], U32_LIMIT);
      var col := ParseUnsigned(params[cut + 1..], U32_LIMIT);
      if row.Some? && col.Some? then Some(CellPos(row.value, col.value)) else None
  }

  predicate EndsWith(s: seq<byte>, b: byte) { s != [] && s[|s| - 1] == b }

  function Classify(sequence: seq<byte>): MpvWrite {
    if sequence == DELETE_ALL then DeleteAll
    else if [ESC, UNDERSCORE, 0x47] <= sequence then Graphics
    else if !([ESC, BRACKET] <= sequence) then Other
    else
      var params := sequence[2..];
      if [QUESTION] <= params && (EndsWith(params[1..], 0x68) || EndsWith(params[1..], 0x6c))
         && params[1..|params| - 1] in STRIPPED_PRIVATE_MODES then Mode
      else if EndsWith(params, 0x66) || EndsWith(params, 0x48) then
        var cell := CursorCell(params[..|params| - 1]);
        if cell.Some? then CursorMove(cell.value) else Other
      else Other
  }

  /** `ESC [ row ; col f`. */
  function CursorBytes(cell: CellPos): seq<byte> {
    [ESC, BRACKET] + Decimal(cell.row) + [SEMICOLON] + Decimal(cell.col) + [0x66]
  }

  /** `ESC _ G a=d,d=P,x=col,y=row,q=2 ESC \`. */
  function DeleteBytes(cell: CellPos): seq<byte> {
    [ESC, UNDERSCORE, 0x47, 0x61, 0x3d, 0x64, 0x2c, 0x64, 0x3d, 0x50, 0x2c, 0x78, 0x3d] + Decimal(cell.col)
    + [0x2c, 0x79, 0x3d] + Decimal(cell.row) + [0x2c, 0x71, 0x3d, 0x32, ESC, BACKSLASH]
  }

  function Deletes(cells: seq<CellPos>): seq<byte> {
    if cells == [] then [] else Deletes(cells[..|cells| - 1]) + DeleteBytes(cells[|cells| - 1])
  }

  // ----- the relay as a fold over tokens -----

  datatype State = State(cursor: Option<CellPos>, placed: seq<CellPos>)
  datatype Relayed = Relayed(st: State, out: seq<byte>)

  const START := State(None, [])

  function RelayToken(st: State, token: seq<byte>): Relayed {
    if |token| <= 1 then Relayed(st, token)
    else
      match Classify(token)
      case Mode => Relayed(st, [])
      case CursorMove(cell) => Relayed(st.(cursor := Some(cell)), [])
      case DeleteAll => Relayed(st.(placed := []), Deletes(st.placed))
      case Graphics =>
        (match st.cursor
         case Some(cell) =>
           Relayed(if cell in st.placed then st else st.(placed := st.placed + [cell]), CursorBytes(cell) + token)
         case None => Relayed(st, token))
      case Other => Relayed(st, token)
  }

  function RelayAll(st: State, tokens: seq<seq<byte>>): Relayed {
    if tokens == [] then Relayed(st, [])
    else
      var before := RelayAll(st, tokens[..|tokens| - 1]);
      var last := RelayToken(before.st, tokens[|tokens| - 1]);
      Relayed(last.st, before.out + last.out)
  }

  datatype Filter = Filter(held: seq<byte>, st: State)
  datatype Fed = Fed(filter: Filter, raw: seq<byte>)

  /** One feed: the tokens the read completes, relayed; a tail past the cap goes out as it is. */
  function FeedResult(f: Filter, input: seq<byte>): Fed {
    var scanned := Tokenise(NextLen, f.held + input);
    var relayed := RelayAll(f.st, scanned.tokens);
    if |scanned.tail| > RELAY_HOLD_CAP then Fed(Filter([], relayed.st), relayed.out + scanned.tail)
    else Fed(Filter(scanned.tail, relayed.st), relayed.out)
  }

  /** What one relay write puts on the terminal around its bytes. */
  function Wrapped(raw: seq<byte>): seq<byte> {
    if raw == [] then [] else SAVE_CURSOR + raw + RESTORE_CURSOR
  }

  // ----- the program's loops -----

  lemma {:induction false} RelayAllConcat(st: State, a: seq<seq<byte>>, b: seq<seq<byte>>)
    ensures RelayAll(st, a + b) ==
            Relayed(RelayAll(RelayAll(st, a).st, b).st, RelayAll(st, a).out + RelayAll(RelayAll(st, a).st, b).out)
  {
    hide RelayToken;
    var first := RelayAll(st, a);
    if b == [] {
      assert a + b == a && first.out + [] == first.out;
    } else {
      var b', last := b[..|b| - 1], b[|b| - 1];
      assert (a + b)[..|a + b| - 1] == a + b' && (a + b)[|a + b| - 1] == last;
      RelayAllConcat(st, a, b');
      var mid := RelayAll(first.st, b');
      assert (first.out + mid.out) + RelayToken(mid.st, last).out == first.out + (mid.out + RelayToken(mid.st, last).out);
    }
  }

  lemma RelayOne(st: State, token: seq<byte>)
    ensures RelayAll(st, [token]) == RelayToken(st, token)
  {
    hide RelayToken;
    assert [token][..0] == [] && [] + RelayToken(st, token).out == RelayToken(st, token).out;
  }

  lemma RelayNothing(st: State)
    ensures RelayAll(st, []) == Relayed(st, [])
  {
  }

  lemma NothingLeft()
    ensures Tokenise(NextLen, []) == Scanned([], [])
  {
  }

  lemma SequenceIsLong(s: seq<byte>)
    requires s != [] && s[0] == ESC && SequenceEndOf(s).Complete?
    ensures 2 < SequenceEndOf(s).len <= |s|
  {
  }

  lemma RelayByte(st: State, done: seq<seq<byte>>, b: byte)
    ensures RelayAll(st, done + [[b]]) == Relayed(RelayAll(st, done).st, RelayAll(st, done).out + [b])
  {
    RelayAllConcat(st, done, [[b]]);
    RelayOne(RelayAll(st, done).st, [b]);
  }

  /** Where the loop of `feed` stands after the token at `at`. */
  lemma NextToken(bytes: seq<byte>, done: seq<seq<byte>>, at: nat)
    requires at < |bytes|
    requires Tokenise(NextLen, bytes).tokens == done + Tokenise(NextLen, bytes[at..]).tokens
    requires Tokenise(NextLen, bytes).tail == Tokenise(NextLen, bytes[at..]).tail
    ensures var n := NextLen(bytes[at..]);
            if n == 0 then Tokenise(NextLen, bytes) == Scanned(done, bytes[at..])
            else
              Tokenise(NextLen, bytes).tokens == (done + [bytes[at..][..n]]) + Tokenise(NextLen, bytes[at + n..]).tokens &&
              Tokenise(NextLen, bytes).tail == Tokenise(NextLen, bytes[at + n..]).tail
  {
    hide NextLen, Tokenise;
    var rest, n := bytes[at..], NextLen(bytes[at..]);
    TokeniseStep(NextLen, rest);
    if n == 0 {
      assert done + [] == done;
    } else {
      DropDrop(bytes, at, n);
      Associates(done, [rest[..n]], Tokenise(NextLen, bytes[at + n..]).tokens);
    }
  }

  class TtyFilter {
    var held: seq<byte>
    var cursor: Option<CellPos>
    var placed: seq<CellPos>

    function Abstract(): Filter
      reads this
    {
      Filter(held, State(cursor, placed))
    }

    constructor ()
      ensures Abstract() == Filter([], START)
    {
      held, cursor, placed := [], None, [];
    }

    /** `relay_sequence`. */
    method RelaySequence(sequence: seq<byte>, out: seq<byte>) returns (r: seq<byte>)
      requires |sequence| > 1
      modifies this`cursor, this`placed
      ensures var relayed := RelayToken(old(State(cursor, placed)), sequence);
              State(cursor, placed) == relayed.st && r == out + relayed.out
    {
      hide Classify, CursorBytes, DeleteBytes;
      r := out;
      match Classify(sequence)
      case Mode =>
        assert out + [] == out;
      case CursorMove(cell) =>
        assert out + [] == out;
        cursor := Some(cell);
      case DeleteAll =>
        ghost var all := placed;
        for i := 0 to |placed|
          invariant r == out + Deletes(all[..i]) && placed == all && cursor == old(cursor)
        {
          assert all[..i + 1][..i] == all[..i];
          assert (out + Deletes(all[..i])) + DeleteBytes(all[i]) == out + (Deletes(all[..i]) + DeleteBytes(all[i]));
          r := r + DeleteBytes(placed[i]);
        }
        assert all[..|all|] == all;
        placed := [];
      case Graphics =>
        if cursor.Some? {
          var cell := cursor.value;
          r := r + CursorBytes(cell);
          if cell !in placed {
            placed := placed + [cell];
          }
          assert (out + CursorBytes(cell)) + sequence == out + (CursorBytes(cell) + sequence);
        }
        r := r + sequence;
      case Other =>
        r := r + sequence;
    }

    method Feed(input: seq<byte>) returns (out: seq<byte>)
      modifies this
      ensures Abstract() == FeedResult(old(Abstract()), input).filter
      ensures out == Wrapped(FeedResult(old(Abstract()), input).raw)
    {
      hide RelayToken, RelayAll, Tokenise, SequenceEndOf;
      var bytes := held + input;
      held := [];
      var raw: seq<byte> := [];
      ghost var st0 := State(cursor, placed);
      ghost var done: seq<seq<byte>> := [];
      var at := 0;
      assert bytes[0..] == bytes;
      RelayNothing(st0);
      assert [] + Tokenise(NextLen, bytes).tokens == Tokenise(NextLen, bytes).tokens;
      while at < |bytes|
        invariant at <= |bytes| && held == []
        invariant Tokenise(NextLen, bytes).tokens == done + Tokenise(NextLen, bytes[at..]).tokens
        invariant Tokenise(NextLen, bytes).tail == Tokenise(NextLen, bytes[at..]).tail
        invariant RelayAll(st0, done) == Relayed(State(cursor, placed), raw)
      {
        ghost var rest := bytes[at..];
        NextToken(bytes, done, at);
        if bytes[at] != ESC {
          RelayByte(st0, done, bytes[at]);
          assert rest[..1] == [bytes[at]];
          done := done + [rest[..1]];
          raw := raw + [bytes[at]];
          at := at + 1;
          continue;
        }
        match SequenceEndOf(bytes[at..])
        case Complete(len) =>
          RelayAllConcat(st0, done, [rest[..len]]);
          RelayOne(State(cursor, placed), rest[..len]);
          SequenceIsLong(rest);
          done := done + [rest[..len]];
          assert bytes[at..at + len] == rest[..len];
          raw := RelaySequence(bytes[at..at + len], raw);
          at := at + len;
        case Incomplete =>
          assert done + [] == done;
          if |bytes| - at > RELAY_HOLD_CAP {
            raw := raw + bytes[at..];
          } else {
            held := bytes[at..];
          }
          break;
        case NotASequence =>
          RelayByte(st0, done, bytes[at]);
          assert rest[..1] == [bytes[at]];
          done := done + [rest[..1]];
          raw := raw + [bytes[at]];
          at := at + 1;
      }
      if at == |bytes| {
        NothingLeft();
        assert bytes[at..] == [] && done + [] == done;
      }
      out := if raw == [] then raw else SAVE_CURSOR + raw + RESTORE_CURSOR;
    }
  }

  // ----- reads do not matter -----

  lemma FinalAtIs(s: seq<byte>, k: nat, e: nat)
    requires k <= e <= |s| && (forall x :: k <= x < e ==> !IsFinal(s[x])) && (e < |s| ==> IsFinal(s[e]))
    ensures FinalAt(s, k) == e
  {
  }

  lemma TerminatorAtIs(s: seq<byte>, k: nat, e: nat)
    requires k <= e <= |s| && (forall x :: k <= x < e ==> !IsTerminator(s, x)) && (e < |s| ==> IsTerminator(s, e))
    ensures TerminatorAt(s, k) == e
  {
  }

  lemma SequenceStable(s: seq<byte>, t: seq<byte>)
    requires NextLen(s) > 0
    ensures NextLen(s + t) == NextLen(s)
  {
    if s[0] == ESC && s[1] == BRACKET {
      FinalAtIs(s + t, 2, FinalAt(s, 2));
    } else if s[0] == ESC && s[1] == UNDERSCORE {
      var e := TerminatorAt(s, 2);
      forall x | 2 <= x < e ensures !IsTerminator(s + t, x) { assert !IsTerminator(s, x); }
      TerminatorAtIs(s + t, 2, e);
    }
  }

  lemma NextLenStable()
    ensures PrefixStable(NextLen)
  {
    forall s, t | NextLen(s) > 0 ensures NextLen(s + t) == NextLen(s) {
      SequenceStable(s, t);
    }
  }

  lemma TokenIsWhole(s: seq<byte>)
    requires NextLen(s) > 1 || (NextLen(s) == 1 && s[0] != ESC)
    ensures NextLen(s[..NextLen(s)]) == NextLen(s)
  {
    var n := NextLen(s);
    var token := s[..n];
    if s[0] == ESC && s[1] == BRACKET {
      FinalAtIs(token, 2, n - 1);
    } else if s[0] == ESC && s[1] == UNDERSCORE {
      forall x | 2 <= x < n - 2 ensures !IsTerminator(token, x) { assert !IsTerminator(s, x); }
      TerminatorAtIs(token, 2, n - 2);
    }
  }

  /** Two feeds in turn. */
  function TwoFeeds(f: Filter, a: seq<byte>, b: seq<byte>): Fed {
    var first := FeedResult(f, a);
    var second := FeedResult(first.filter, b);
    Fed(second.filter, first.raw + second.raw)
  }

  function TailAfter(f: Filter, a: seq<byte>): seq<byte> { Tokenise(NextLen, f.held + a).tail }

  /** A read of `a + b` is a read of `a` and then of what `a` left unfinished, with `b`. */
  lemma FeedPeels(f: Filter, a: seq<byte>, b: seq<byte>)
    ensures var settled := RelayAll(f.st, Tokenise(NextLen, f.held + a).tokens);
            var rest := FeedResult(Filter(TailAfter(f, a), settled.st), b);
            FeedResult(f, a + b) == Fed(rest.filter, settled.out + rest.raw)
  {
    hide Tokenise, RelayAll;
    NextLenStable();
    Associates(f.held, a, b);
    TokeniseSplit(NextLen, f.held + a, b);
    var scanned := Tokenise(NextLen, f.held + a);
    var more := Tokenise(NextLen, scanned.tail + b);
    RelayAllConcat(f.st, scanned.tokens, more.tokens);
    var settled := RelayAll(f.st, scanned.tokens);
    Associates(settled.out, RelayAll(settled.st, more.tokens).out, more.tail);
  }

  /** What an unfinished tail looks like. */
  predicate Unfinished(tail: seq<byte>) {
    && tail != [] && tail[0] == ESC
    && (|tail| > 1 ==>
          || (tail[1] == BRACKET && FinalAt(tail, 2) == |tail|)
          || (tail[1] == UNDERSCORE && TerminatorAt(tail, 2) == |tail|))
  }

  lemma UnfinishedTail(f: Filter, a: seq<byte>)
    requires TailAfter(f, a) != []
    ensures Unfinished(TailAfter(f, a))
  {
    NextLenStable();
    TailIsUnfinished(NextLen, f.held + a);
  }

  const MODE_WRITE: seq<byte> := [ESC, BRACKET, QUESTION, 0x32, 0x35, 0x68]

  /** A mode write that a long unfinished sequence would take in as part of itself. */
  function Revealing(tail: seq<byte>): seq<byte>
    requires |tail| > 1
  {
    if tail[1] == BRACKET then MODE_WRITE else MODE_WRITE + [ESC, BACKSLASH]
  }

  lemma ModeWriteIsMode()
    ensures Classify(MODE_WRITE) == Mode
  {
    var params := MODE_WRITE[2..];
    assert params == [QUESTION, 0x32, 0x35, 0x68];
    assert params[1..|params| - 1] == [0x32, 0x35] == STRIPPED_PRIVATE_MODES[0];
    assert MODE_WRITE[1] == BRACKET && [ESC, UNDERSCORE, 0x47][1] == UNDERSCORE && DELETE_ALL[1] == UNDERSCORE;
    assert params[1..] == [0x32, 0x35, 0x68];
  }

  lemma ModeWriteFirst(rest: seq<byte>)
    ensures Tokenise(NextLen, MODE_WRITE + rest) ==
            Scanned([MODE_WRITE] + Tokenise(NextLen, rest).tokens, Tokenise(NextLen, rest).tail)
  {
    hide Tokenise;
    var s := MODE_WRITE + rest;
    FinalAtIs(s, 2, 5);
    TokeniseStep(NextLen, s);
    assert s[..6] == MODE_WRITE && s[6..] == rest;
  }

  lemma LoneTerminator()
    ensures Tokenise(NextLen, [ESC, BACKSLASH]) == Scanned([[ESC], [BACKSLASH]], [])
  {
    hide Tokenise;
    var t: seq<byte> := [ESC, BACKSLASH];
    TokeniseStep(NextLen, t);
    assert t[..1] == [ESC] && t[1..] == [BACKSLASH];
    TokeniseStep(NextLen, [BACKSLASH]);
    assert [BACKSLASH][..1] == [BACKSLASH] && [BACKSLASH][1..] == [];
    NothingLeft();
  }

  lemma DroppedThen(st: State, tokens: seq<seq<byte>>)
    ensures RelayAll(st, [MODE_WRITE] + tokens).out == RelayAll(st, tokens).out
  {
    hide RelayAll, Classify;
    ModeWriteIsMode();
    RelayAllConcat(st, [MODE_WRITE], tokens);
    RelayOne(st, MODE_WRITE);
    assert [] + RelayAll(st, tokens).out == RelayAll(st, tokens).out;
  }

  lemma FreshModeWriteIsDropped(st: State)
    ensures FeedResult(Filter([], st), MODE_WRITE).raw == []
    ensures FeedResult(Filter([], st), MODE_WRITE + [ESC, BACKSLASH]).raw == [ESC, BACKSLASH]
  {
    hide Tokenise, RelayAll;
    NothingLeft();
    LoneTerminator();
    ModeWriteFirst([]);
    assert MODE_WRITE + [] == MODE_WRITE && [] + MODE_WRITE == MODE_WRITE;
    assert Tokenise(NextLen, [] + MODE_WRITE) == Scanned([MODE_WRITE] + [], []);
    DroppedThen(st, []);
    RelayNothing(st);
    assert |[] + MODE_WRITE| <= RELAY_HOLD_CAP;
    var bytes: seq<seq<byte>> := [[ESC], [BACKSLASH]];
    ModeWriteFirst([ESC, BACKSLASH]);
    assert [] + (MODE_WRITE + [ESC, BACKSLASH]) == MODE_WRITE + [ESC, BACKSLASH];
    DroppedThen(st, bytes);
    RelayByte(st, [], ESC);
    RelayByte(st, [[ESC]], BACKSLASH);
    assert [] + [[ESC]] == [[ESC]] && [[ESC]] + [[BACKSLASH]] == bytes;
  }

  ghost predicate Plain(s: seq<byte>) { forall k :: 0 <= k < |s| ==> s[k] != ESC }

  lemma {:induction false} PlainRest(s: seq<byte>)
    requires Plain(s)
    ensures Tokenise(NextLen, s).tail == []
    decreases |s|
  {
    if s == [] {
    } else {
      PlainRest(s[1..]);
    }
  }

  lemma {:induction false} PlainRelay(st: State, s: seq<byte>)
    requires Plain(s)
    ensures RelayAll(st, Tokenise(NextLen, s).tokens).out == s
    decreases |s|
  {
    hide Tokenise, RelayAll;
    TokeniseStep(NextLen, s);
    if s == [] {
      RelayNothing(st);
    } else {
      PlainRelay(st, s[1..]);
      RelayAllConcat(st, [s[..1]], Tokenise(NextLen, s[1..]).tokens);
      RelayOne(st, s[..1]);
      assert s == s[..1] + s[1..];
    }
  }

  lemma LongCsiTakesItIn(tail: seq<byte>, st: State)
    requires Unfinished(tail) && |tail| > RELAY_HOLD_CAP && tail[1] == BRACKET
    ensures |FeedResult(Filter(tail, st), Revealing(tail)).raw| >= |tail| + 6
  {
    hide Tokenise, RelayAll;
    var s := tail + MODE_WRITE;
    var token, rest := tail + [ESC, BRACKET], MODE_WRITE[2..];
    FinalAtIs(s, 2, |tail| + 1);
    TokeniseStep(NextLen, s);
    assert s[..|tail| + 2] == token && s[|tail| + 2..] == rest;
    PlainRest(rest);
    assert Classify(token) == Other;
    RelayAllConcat(st, [token], Tokenise(NextLen, rest).tokens);
    RelayOne(st, token);
    PlainRelay(st, rest);
  }

  lemma LongApcPasses(st: State, s: seq<byte>)
    requires |s| > |DELETE_ALL| && s[0] == ESC && s[1] == UNDERSCORE
    ensures |RelayToken(st, s).out| >= |s|
  {
    hide CursorBytes;
    assert [ESC, BRACKET][1] == BRACKET;
  }

  lemma LongApcTakesItIn(tail: seq<byte>, st: State)
    requires Unfinished(tail) && |tail| > RELAY_HOLD_CAP && tail[1] == UNDERSCORE
    ensures |FeedResult(Filter(tail, st), Revealing(tail)).raw| >= |tail| + 6
  {
    hide RelayToken, Classify;
    hide Tokenise, RelayAll;
    var s := tail + Revealing(tail);
    forall x | 2 <= x < |tail| + 6 ensures !IsTerminator(s, x) {
      if x < |tail| - 1 { assert !IsTerminator(tail, x); }
    }
    TerminatorAtIs(s, 2, |tail| + 6);
    TokeniseStep(NextLen, s);
    assert s[..|s|] == s && s[|s|..] == [];
    NothingLeft();
    assert [s] + [] == [s];
    LongApcPasses(st, s);
    RelayOne(st, s);
  }

  lemma ShortTailCut(f: Filter, a: seq<byte>, b: seq<byte>)
    requires |TailAfter(f, a)| <= RELAY_HOLD_CAP
    ensures FeedResult(f, a + b) == TwoFeeds(f, a, b)
  {
    hide Tokenise, RelayAll;
    FeedPeels(f, a, b);
  }

  lemma LongTailCut(f: Filter, a: seq<byte>)
    requires |TailAfter(f, a)| > RELAY_HOLD_CAP
    ensures var b := Revealing(TailAfter(f, a)); FeedResult(f, a + b) != TwoFeeds(f, a, b)
  {
    hide Tokenise, RelayAll;
    var tail := TailAfter(f, a);
    UnfinishedTail(f, a);
    var b := Revealing(tail);
    FeedPeels(f, a, b);
    var settled := RelayAll(f.st, Tokenise(NextLen, f.held + a).tokens);
    if tail[1] == BRACKET {
      LongCsiTakesItIn(tail, settled.st);
    } else {
      LongApcTakesItIn(tail, settled.st);
    }
    FreshModeWriteIsDropped(settled.st);
    assert |FeedResult(f, a + b).raw| >= |settled.out| + |tail| + 6;
    assert |TwoFeeds(f, a, b).raw| <= |settled.out| + |tail| + 2;
  }

  /** A read boundary after `a` is invisible to every continuation, exactly when the sequence it cuts
      is within the cap: same bytes out, same held bytes, cursor and placements. */
  lemma CutInvisibleIff(f: Filter, a: seq<byte>)
    ensures (forall b :: FeedResult(f, a + b) == TwoFeeds(f, a, b)) <==> |TailAfter(f, a)| <= 8388608
  {
    hide Tokenise, RelayAll, FeedResult;
    if |TailAfter(f, a)| <= RELAY_HOLD_CAP {
      forall b ensures FeedResult(f, a + b) == TwoFeeds(f, a, b) { ShortTailCut(f, a, b); }
    } else {
      LongTailCut(f, a);
    }
  }

  lemma UnfinishedCsi(a: seq<byte>)
    requires |a| >= 2 && a[0] == ESC && a[1] == BRACKET && forall x :: 2 <= x < |a| ==> !IsFinal(a[x])
    ensures Tokenise(NextLen, a) == Scanned([], a)
  {
    assert FinalAt(a, 2) == |a|;
  }

  /** An instance: a control sequence one byte past the cap, cut in front of a mode write. */
  lemma LongSequenceShows()
    ensures var a: seq<byte> := [ESC, BRACKET] + seq(RELAY_HOLD_CAP - 1, _ => 0x30);
            var f := Filter([], START);
            |a| == RELAY_HOLD_CAP + 1 && FeedResult(f, a + MODE_WRITE) != TwoFeeds(f, a, MODE_WRITE)
  {
    hide FeedResult, TwoFeeds;
    var a: seq<byte> := [ESC, BRACKET] + seq(RELAY_HOLD_CAP - 1, _ => 0x30);
    UnfinishedCsi(a);
    assert [] + a == a;
    LongTailCut(Filter([], START), a);
  }

  /** Reads in turn. */
  function FeedAll(f: Filter, chunks: seq<seq<byte>>): Fed
    decreases |chunks|
  {
    if chunks == [] then Fed(f, [])
    else
      var first := FeedResult(f, chunks[0]);
      var rest := FeedAll(first.filter, chunks[1..]);
      Fed(rest.filter, first.raw + rest.raw)
  }

  /** No read boundary of this cutting leaves a sequence past the cap unfinished. */
  ghost predicate WithinCap(f: Filter, chunks: seq<seq<byte>>) {
    forall k :: 0 <= k <= |chunks| ==> |TailAfter(f, Concat(chunks[..k]))| <= RELAY_HOLD_CAP
  }

  /** Chunk invariance over whole streams: however the stream is cut within the cap, the relay puts out
      the same bytes and ends in the same state as one feed of all of it. */
  lemma {:induction false} ChunksDoNotMatter(f: Filter, chunks: seq<seq<byte>>)
    requires WithinCap(f, chunks) && |f.held| <= RELAY_HOLD_CAP && NextLen(f.held) == 0
    ensures FeedAll(f, chunks) == FeedResult(f, Concat(chunks))
    decreases |chunks|
  {
    hide Tokenise, RelayAll, RelayToken;
    if chunks == [] {
      assert f.held + [] == f.held;
      TokeniseStep(NextLen, f.held);
      RelayNothing(f.st);
    } else {
      var a, rest := chunks[0], chunks[1..];
      assert Concat(chunks[..1]) == a by { assert chunks[..1][1..] == []; assert a + [] == a; }
      ShortTailCut(f, a, Concat(rest));
      var next := FeedResult(f, a).filter;
      NextLenStable();
      TailIsUnfinished(NextLen, f.held + a);
      forall k | 0 <= k <= |rest| ensures |TailAfter(next, Concat(rest[..k]))| <= RELAY_HOLD_CAP {
        assert chunks[..k + 1][0] == a && chunks[..k + 1][1..] == rest[..k];
        Associates(f.held, a, Concat(rest[..k]));
        TokeniseSplit(NextLen, f.held + a, Concat(rest[..k]));
      }
      ChunksDoNotMatter(next, rest);
    }
  }

  // ----- placements -----

  predicate MovesTo(token: seq<byte>, cell: CellPos) { |token| > 1 && Classify(token) == CursorMove(cell) }
  predicate IsMove(token: seq<byte>) { |token| > 1 && Classify(token).CursorMove? }
  predicate IsGraphics(token: seq<byte>) { |token| > 1 && Classify(token) == Graphics }
  predicate IsDeleteAll(token: seq<byte>) { |token| > 1 && Classify(token) == DeleteAll }

  /** The cursor cell in force in front of token `k`: the last move before it went to `cell`. */
  ghost predicate CursorAt(tokens: seq<seq<byte>>, k: nat, cell: CellPos)
    requires k <= |tokens|
  {
    exists m :: 0 <= m < k && MovesTo(tokens[m], cell) && forall x :: m < x < k ==> !IsMove(tokens[x])
  }

  /** Token `k` is a graphics command placed at `cell`, and no delete-all came after it. */
  ghost predicate PlacedAt(tokens: seq<seq<byte>>, k: int, cell: CellPos) {
    && 0 <= k < |tokens| && IsGraphics(tokens[k]) && CursorAt(tokens, k, cell)
    && forall x :: k < x < |tokens| ==> !IsDeleteAll(tokens[x])
  }

  ghost predicate UsedBefore(tokens: seq<seq<byte>>, k: int, cell: CellPos) {
    exists x :: x < k && PlacedAt(tokens, x, cell)
  }

  /** `placed` is exactly the cells frames stand at, without repeats, in the order of first use. */
  ghost predicate Accounts(tokens: seq<seq<byte>>, placed: seq<CellPos>) {
    && (forall c :: c in placed <==> exists k :: PlacedAt(tokens, k, c))
    && (forall i, j :: 0 <= i < j < |placed| ==> placed[i] != placed[j])
    && (forall i, j, k :: 0 <= i < j < |placed| && PlacedAt(tokens, k, placed[j]) ==>
          UsedBefore(tokens, k, placed[i]))
  }

  lemma CursorAtEarlier(tokens: seq<seq<byte>>, t: seq<byte>, cell: CellPos, k: nat)
    requires k <= |tokens|
    ensures CursorAt(tokens + [t], k, cell) <==> CursorAt(tokens, k, cell)
  {
    hide MovesTo, IsMove;
    var all := tokens + [t];
    assert forall x :: 0 <= x < k ==> all[x] == tokens[x];
    if CursorAt(tokens, k, cell) {
      var m :| 0 <= m < k && MovesTo(tokens[m], cell) && forall x :: m < x < k ==> !IsMove(tokens[x]);
      assert MovesTo(all[m], cell);
    }
    if CursorAt(all, k, cell) {
      var m :| 0 <= m < k && MovesTo(all[m], cell) && forall x :: m < x < k ==> !IsMove(all[x]);
      assert MovesTo(tokens[m], cell);
    }
  }

  lemma CursorAtNext(tokens: seq<seq<byte>>, t: seq<byte>, cell: CellPos)
    ensures CursorAt(tokens + [t], |tokens| + 1, cell) <==>
            MovesTo(t, cell) || (!IsMove(t) && CursorAt(tokens, |tokens|, cell))
  {
    hide MovesTo, IsMove;
    var all, n := tokens + [t], |tokens|;
    assert all[n] == t;
    CursorAtEarlier(tokens, t, cell, n);
    if MovesTo(t, cell) { assert MovesTo(all[n], cell); }
    if CursorAt(all, n + 1, cell) && !MovesTo(t, cell) {
      var m :| 0 <= m < n + 1 && MovesTo(all[m], cell) && forall x :: m < x < n + 1 ==> !IsMove(all[x]);
      assert m < n && CursorAt(all, n, cell) && !IsMove(all[n]);
    }
    if !IsMove(t) && CursorAt(all, n, cell) {
      var m :| 0 <= m < n && MovesTo(all[m], cell) && forall x :: m < x < n ==> !IsMove(all[x]);
      assert MovesTo(all[m], cell);
    }
  }

  lemma PlacedAtNext(tokens: seq<seq<byte>>, t: seq<byte>, k: int, cell: CellPos)
    ensures PlacedAt(tokens + [t], k, cell) <==>
            (k == |tokens| && IsGraphics(t) && CursorAt(tokens, k, cell)) || (PlacedAt(tokens, k, cell) && !IsDeleteAll(t))
  {
    hide Classify, CursorAt;
    if 0 <= k <= |tokens| { CursorAtEarlier(tokens, t, cell, k); }
    var all, n := tokens + [t], |tokens|;
    assert forall x :: 0 <= x < n ==> all[x] == tokens[x];
    if 0 <= k < n && PlacedAt(all, k, cell) {
      assert !IsDeleteAll(all[n]);
      forall x | k < x < n ensures !IsDeleteAll(tokens[x]) { assert !IsDeleteAll(all[x]); }
    }
  }

  lemma {:induction false} CursorIsLastMove(tokens: seq<seq<byte>>, cell: CellPos)
    ensures RelayAll(START, tokens).st.cursor == Some(cell) <==> CursorAt(tokens, |tokens|, cell)
  {
    hide Classify;
    if tokens == [] {
    } else {
      var front, t := tokens[..|tokens| - 1], tokens[|tokens| - 1];
      CursorIsLastMove(front, cell);
      CursorAtNext(front, t, cell);
      assert tokens == front + [t];
    }
  }

  lemma NothingPlaced(k: int, c: CellPos)
    ensures !PlacedAt([], k, c)
  {
  }

  lemma WithinTokens(tokens: seq<seq<byte>>, k: int, c: CellPos)
    requires PlacedAt(tokens, k, c)
    ensures 0 <= k < |tokens|
  {
  }

  lemma AccountGraphics(front: seq<seq<byte>>, t: seq<byte>, placed: seq<CellPos>, cell: CellPos)
    requires Accounts(front, placed)
    requires forall k, c :: PlacedAt(front + [t], k, c) <==> (k == |front| && c == cell) || PlacedAt(front, k, c)
    ensures Accounts(front + [t], if cell in placed then placed else placed + [cell])
  {
    hide PlacedAt;
    var all, after := front + [t], if cell in placed then placed else placed + [cell];
    assert PlacedAt(all, |front|, cell);
    forall c ensures c in after <==> exists k :: PlacedAt(all, k, c) {
      if c in placed {
        var k :| PlacedAt(front, k, c);
        assert PlacedAt(all, k, c);
      }
    }
    forall i, j, k | 0 <= i < j < |after| && PlacedAt(all, k, after[j])
      ensures UsedBefore(all, k, after[i])
    {
      assert after[i] in placed;
      var first :| PlacedAt(front, first, after[i]);
      WithinTokens(front, first, after[i]);
      if PlacedAt(front, k, after[j]) {
        assert j < |placed| && UsedBefore(front, k, placed[i]);
        var k' :| k' < k && PlacedAt(front, k', after[i]);
        assert PlacedAt(all, k', after[i]);
      } else {
        assert PlacedAt(all, first, after[i]) && first < k;
      }
    }
  }

  lemma AccountNext(front: seq<seq<byte>>, t: seq<byte>, before: State)
    requires before == RelayAll(START, front).st && Accounts(front, before.placed)
    ensures Accounts(front + [t], RelayToken(before, t).st.placed)
  {
    hide Classify, CursorAt, PlacedAt, Deletes, CursorBytes, RelayAll;
    var after := RelayToken(before, t).st.placed;
    forall k, c
      ensures PlacedAt(front + [t], k, c) <==>
              (k == |front| && IsGraphics(t) && before.cursor == Some(c)) || (PlacedAt(front, k, c) && !IsDeleteAll(t))
    {
      PlacedAtNext(front, t, k, c);
      CursorIsLastMove(front, c);
    }
    if IsGraphics(t) && before.cursor.Some? {
      AccountGraphics(front, t, before.placed, before.cursor.value);
    } else {
      forall c ensures c in after <==> exists k :: PlacedAt(front + [t], k, c) {
        if c in after {
          var k :| PlacedAt(front, k, c);
          assert PlacedAt(front + [t], k, c);
        }
      }
      forall i, j, k | 0 <= i < j < |after| && PlacedAt(front + [t], k, after[j])
        ensures UsedBefore(front + [t], k, after[i])
      {
        assert PlacedAt(front, k, after[j]) && UsedBefore(front, k, after[i]);
        var k' :| k' < k && PlacedAt(front, k', after[i]);
        assert PlacedAt(front + [t], k', after[i]);
      }
    }
  }

  /** Placement accounting: after any tokens at all, `placed` lists without repeats, in order of first
      use, exactly the cells a graphics command went out at since the last delete-all. */
  lemma {:induction false} PlacementsAccounted(tokens: seq<seq<byte>>)
    ensures Accounts(tokens, RelayAll(START, tokens).st.placed)
  {
    hide Classify, CursorAt, PlacedAt, Deletes, CursorBytes;
    if tokens == [] {
      forall k, c ensures !PlacedAt([], k, c) { NothingPlaced(k, c); }
    } else {
      var front, t := tokens[..|tokens| - 1], tokens[|tokens| - 1];
      assert tokens == front + [t];
      PlacementsAccounted(front);
      var before := RelayAll(START, front).st;
      AccountNext(front, t, before);
    }
  }

  /** A delete-all goes out as one delete for each cell accounted for, in order, and empties the list. */
  lemma DeleteAllIsOnePerCell(tokens: seq<seq<byte>>, t: seq<byte>)
    requires IsDeleteAll(t)
    ensures var before := RelayAll(START, tokens);
            RelayAll(START, tokens + [t]).out == before.out + Deletes(before.st.placed) &&
            RelayAll(START, tokens + [t]).st.placed == [] &&
            Accounts(tokens, before.st.placed)
  {
    hide RelayAll, Accounts, Deletes;
    PlacementsAccounted(tokens);
    RelayAllConcat(START, tokens, [t]);
    RelayOne(RelayAll(START, tokens).st, t);
  }

  // ----- placements over a run -----

  /** The filter after these reads. */
  function After(f: Filter, chunks: seq<seq<byte>>): Filter {
    if chunks == [] then f else FeedResult(After(f, chunks[..|chunks| - 1]), chunks[|chunks| - 1]).filter
  }

  /** All the tokens these reads find. */
  function RunTokens(f: Filter, chunks: seq<seq<byte>>): seq<seq<byte>> {
    if chunks == [] then []
    else
      var front := chunks[..|chunks| - 1];
      RunTokens(f, front) + Tokenise(NextLen, After(f, front).held + chunks[|chunks| - 1]).tokens
  }

  lemma {:induction false} RunIsRelay(f: Filter, chunks: seq<seq<byte>>)
    ensures After(f, chunks).st == RelayAll(f.st, RunTokens(f, chunks)).st
    decreases |chunks|
  {
    hide Tokenise, RelayAll;
    if chunks == [] {
      RelayNothing(f.st);
    } else {
      var front := chunks[..|chunks| - 1];
      RunIsRelay(f, front);
      RelayAllConcat(f.st, RunTokens(f, front), Tokenise(NextLen, After(f, front).held + chunks[|chunks| - 1]).tokens);
    }
  }

  /** After any reads at all, past the cap or not, a relay that started fresh lists exactly the cells frames
      stand at, and its cursor is the last move. */
  lemma RunPlacementsAccounted(chunks: seq<seq<byte>>)
    ensures var tokens, st := RunTokens(Filter([], START), chunks), After(Filter([], START), chunks).st;
            Accounts(tokens, st.placed) && forall cell :: st.cursor == Some(cell) <==> CursorAt(tokens, |tokens|, cell)
  {
    hide RunTokens, After, RelayAll, Accounts, CursorAt;
    RunIsRelay(Filter([], START), chunks);
    var tokens := RunTokens(Filter([], START), chunks);
    PlacementsAccounted(tokens);
    forall cell { CursorIsLastMove(tokens, cell); }
  }

  // ----- byte by byte -----

  // The sequences the relay looks for, and what becomes of them, with every byte written out.

  /** A control sequence ends at its first byte from 0x40 to 0x7e. */
  lemma ControlSequence(params: seq<byte>, final: byte, rest: seq<byte>)
    requires (forall k :: 0 <= k < |params| ==> !(0x40 <= params[k] <= 0x7e)) && 0x40 <= final <= 0x7e
    ensures NextLen([0x1b, 0x5b] + params + [final] + rest) == |params| + 3
    ensures NextLen([0x1b, 0x5b] + params) == 0
  {
    var s, open := [0x1b, 0x5b] + params + [final] + rest, [0x1b, 0x5b] + params;
    FinalAtIs(s, 2, 2 + |params|);
    assert FinalAt(open, 2) == |open|;
  }

  /** An application command ends at its first `ESC \`. */
  lemma ApplicationCommand(body: seq<byte>, rest: seq<byte>)
    requires forall k :: 0 <= k < |body| - 1 ==> !(body[k] == 0x1b && body[k + 1] == 0x5c)
    ensures NextLen([0x1b, 0x5f] + body + [0x1b, 0x5c] + rest) == |body| + 4
    ensures NextLen([0x1b, 0x5f] + body) == 0
  {
    var s, open := [0x1b, 0x5f] + body + [0x1b, 0x5c] + rest, [0x1b, 0x5f] + body;
    forall x | 2 <= x < 2 + |body| ensures !IsTerminator(s, x) {
      if x < 1 + |body| { assert s[x] == body[x - 2] && s[x + 1] == body[x - 1]; }
    }
    TerminatorAtIs(s, 2, 2 + |body|);
    forall x | 2 <= x < |open| ensures !IsTerminator(open, x) {
      if x < |open| - 1 { assert open[x] == body[x - 2] && open[x + 1] == body[x - 1]; }
    }
    assert TerminatorAt(open, 2) == |open|;
  }

  /** Every other byte stands alone, an `ESC` once the byte behind it has come. */
  lemma SingleBytes(b: byte, c: byte, rest: seq<byte>)
    ensures b != 0x1b ==> NextLen([b] + rest) == 1
    ensures c != 0x5b && c != 0x5f ==> NextLen([0x1b, c] + rest) == 1
    ensures NextLen([0x1b]) == 0 && NextLen([]) == 0
  {
  }

  lemma ModeText(mode: seq<byte>)
    ensures mode in STRIPPED_PRIVATE_MODES <==>
            mode == [0x32, 0x35] || mode == [0x31, 0x30, 0x30, 0x33] || mode == [0x31, 0x30, 0x34, 0x39]
  {
  }

  lemma ModeBegins(s: seq<byte>)
    requires Classify(s) == Mode
    ensures |s| > 3 && s[..3] == [0x1b, 0x5b, 0x3f]
  {
    hide CursorCell;
  }

  lemma ModeBehindMark(mode: seq<byte>, last: byte)
    ensures Classify([0x1b, 0x5b, 0x3f] + mode + [last]) == Mode <==>
            (last == 0x68 || last == 0x6c) && mode in STRIPPED_PRIVATE_MODES
  {
    hide CursorCell;
    var s := [0x1b, 0x5b, 0x3f] + mode + [last];
    var params := s[2..];
    assert params == [0x3f] + mode + [last];
    assert params[1..] == mode + [last] && params[1..|params| - 1] == mode;
    assert s[1] != [ESC, UNDERSCORE, 0x47][1];
  }

  lemma SameText(mode: seq<byte>, last: byte, m: seq<byte>, final: byte)
    ensures [0x1b, 0x5b, 0x3f] + mode + [last] == [0x1b, 0x5b, 0x3f] + m + [final] <==> mode == m && last == final
  {
    var s, u := [0x1b, 0x5b, 0x3f] + mode + [last], [0x1b, 0x5b, 0x3f] + m + [final];
    assert s[3..|s| - 1] == mode && s[|s| - 1] == last;
    assert u[3..|u| - 1] == m && u[|u| - 1] == final;
  }

  lemma ModeWritten(s: seq<byte>, mode: seq<byte>, last: byte)
    requires s == [0x1b, 0x5b, 0x3f] + mode + [last]
    ensures (last == 0x68 || last == 0x6c) && mode in STRIPPED_PRIVATE_MODES <==>
            || s == [0x1b, 0x5b, 0x3f, 0x32, 0x35, 0x68] || s == [0x1b, 0x5b, 0x3f, 0x32, 0x35, 0x6c]
            || s == [0x1b, 0x5b, 0x3f, 0x31, 0x30, 0x30, 0x33, 0x68] || s == [0x1b, 0x5b, 0x3f, 0x31, 0x30, 0x30, 0x33, 0x6c]
            || s == [0x1b, 0x5b, 0x3f, 0x31, 0x30, 0x34, 0x39, 0x68] || s == [0x1b, 0x5b, 0x3f, 0x31, 0x30, 0x34, 0x39, 0x6c]
  {
    var before := [0x1b, 0x5b, 0x3f];
    assert before + [0x32, 0x35] == [0x1b, 0x5b, 0x3f, 0x32, 0x35];
    assert before + [0x31, 0x30, 0x30, 0x33] == [0x1b, 0x5b, 0x3f, 0x31, 0x30, 0x30, 0x33];
    assert before + [0x31, 0x30, 0x34, 0x39] == [0x1b, 0x5b, 0x3f, 0x31, 0x30, 0x34, 0x39];
    ModeText(mode);
    SameText(mode, last, [0x32, 0x35], 0x68);
    SameText(mode, last, [0x32, 0x35], 0x6c);
    SameText(mode, last, [0x31, 0x30, 0x30, 0x33], 0x68);
    SameText(mode, last, [0x31, 0x30, 0x30, 0x33], 0x6c);
    SameText(mode, last, [0x31, 0x30, 0x34, 0x39], 0x68);
    SameText(mode, last, [0x31, 0x30, 0x34, 0x39], 0x6c);
  }

  /** The writes that set a terminal mode: show and hide the cursor, any-motion mouse on and off, and the
      alternate screen on and off. No other sequence counts as one. */
  lemma ModeIff(s: seq<byte>)
    ensures Classify(s) == Mode <==>
            || s == [0x1b, 0x5b, 0x3f, 0x32, 0x35, 0x68] || s == [0x1b, 0x5b, 0x3f, 0x32, 0x35, 0x6c]
            || s == [0x1b, 0x5b, 0x3f, 0x31, 0x30, 0x30, 0x33, 0x68] || s == [0x1b, 0x5b, 0x3f, 0x31, 0x30, 0x30, 0x33, 0x6c]
            || s == [0x1b, 0x5b, 0x3f, 0x31, 0x30, 0x34, 0x39, 0x68] || s == [0x1b, 0x5b, 0x3f, 0x31, 0x30, 0x34, 0x39, 0x6c]
  {
    hide Classify;
    if |s| > 3 && s[..3] == [0x1b, 0x5b, 0x3f] {
      var mode, last := s[3..|s| - 1], s[|s| - 1];
      assert s == [0x1b, 0x5b, 0x3f] + mode + [last];
      ModeBehindMark(mode, last);
      ModeWritten(s, mode, last);
    } else if Classify(s) == Mode {
      ModeBegins(s);
    }
  }

  /** The delete of every image, and the other graphics commands. */
  lemma GraphicsIff(s: seq<byte>)
    ensures Classify(s) == DeleteAll <==> s == [0x1b, 0x5f, 0x47, 0x61, 0x3d, 0x64, 0x3b, 0x1b, 0x5c]
    ensures Classify(s) == Graphics <==>
            [0x1b, 0x5f, 0x47] <= s && s != [0x1b, 0x5f, 0x47, 0x61, 0x3d, 0x64, 0x3b, 0x1b, 0x5c]
  {
    hide CursorCell;
  }

  /** A cursor move names its row, then its column. */
  ghost predicate SpellsMove(s: seq<byte>, cell: CellPos, row: seq<byte>, col: seq<byte>, final: byte) {
    && s == [0x1b, 0x5b] + row + [0x3b] + col + [final]
    && (final == 0x66 || final == 0x48) && 0x3b !in row
    && ParseUnsigned(row, 4294967296) == Some(cell.row) && ParseUnsigned(col, 4294967296) == Some(cell.col)
  }

  lemma SemicolonAtIs(s: seq<byte>, k: nat, e: nat)
    requires k <= e < |s| && s[e] == 0x3b && forall x :: k <= x < e ==> s[x] != 0x3b
    ensures SemicolonAt(s, k) == e
  {
  }

  lemma SpelledMove(s: seq<byte>, cell: CellPos, row: seq<byte>, col: seq<byte>, final: byte)
    requires SpellsMove(s, cell, row, col, final)
    ensures Classify(s) == CursorMove(cell)
  {
    hide ParseUnsigned, DigitsValue;
    var inner := row + [0x3b] + col;
    assert s[2..] == inner + [final] && (inner + [final])[..|inner|] == inner;
    SemicolonAtIs(inner, 0, |row|);
    assert inner[..|row|] == row && inner[|row| + 1..] == col;
    assert s[1] == 0x5b && [ESC, UNDERSCORE, 0x47][1] == 0x5f;
  }

  lemma CutAt(s: seq<byte>, cut: nat)
    requires cut < |s|
    ensures s == s[..cut] + [s[cut]] + s[cut + 1..]
  {
  }

  lemma Framed(s: seq<byte>)
    requires |s| >= 3 && [0x1b, 0x5b] <= s
    ensures s == [0x1b, 0x5b] + s[2..|s| - 1] + [s[|s| - 1]]
  {
  }

  /** What a sequence taken for a move has to show for it. */
  lemma MoveParts(s: seq<byte>, cell: CellPos)
    requires Classify(s) == CursorMove(cell)
    ensures |s| >= 3 && [0x1b, 0x5b] <= s && (s[|s| - 1] == 0x66 || s[|s| - 1] == 0x48)
    ensures CursorCell(s[2..|s| - 1]) == Some(cell)
  {
    hide CursorCell;
    var params := s[2..];
    assert params[..|params| - 1] == s[2..|s| - 1];
  }

  lemma CellParts(params: seq<byte>, cell: CellPos) returns (cut: nat)
    requires CursorCell(params) == Some(cell)
    ensures cut < |params| && params[cut] == 0x3b && 0x3b !in params[..cut]
    ensures ParseUnsigned(params[..cut], 4294967296) == Some(cell.row)
    ensures ParseUnsigned(params[cut + 1..], 4294967296) == Some(cell.col)
  {
    hide ParseUnsigned;
    cut := SemicolonAt(params, 0);
  }

  lemma PutTogether(s: seq<byte>, inner: seq<byte>, row: seq<byte>, col: seq<byte>, final: byte)
    requires s == [0x1b, 0x5b] + inner + [final] && inner == row + [0x3b] + col
    ensures s == [0x1b, 0x5b] + row + [0x3b] + col + [final]
  {
  }

  lemma MoveIsSpelled(s: seq<byte>, cell: CellPos)
    requires Classify(s) == CursorMove(cell)
    ensures exists row: seq<byte>, col: seq<byte>, final: byte :: SpellsMove(s, cell, row, col, final)
  {
    hide ParseUnsigned, Classify, CursorCell;
    MoveParts(s, cell);
    var inner := s[2..|s| - 1];
    var cut := CellParts(inner, cell);
    Framed(s);
    CutAt(inner, cut);
    PutTogether(s, inner, inner[..cut], inner[cut + 1..], s[|s| - 1]);
    assert SpellsMove(s, cell, inner[..cut], inner[cut + 1..], s[|s| - 1]);
  }

  lemma MoveIff(s: seq<byte>, cell: CellPos)
    ensures Classify(s) == CursorMove(cell) <==> exists row: seq<byte>, col: seq<byte>, final: byte :: SpellsMove(s, cell, row, col, final)
  {
    hide Classify, SpellsMove;
    if Classify(s) == CursorMove(cell) { MoveIsSpelled(s, cell); }
    if exists row: seq<byte>, col: seq<byte>, final: byte :: SpellsMove(s, cell, row, col, final) {
      var row, col, final :| SpellsMove(s, cell, row, col, final);
      SpelledMove(s, cell, row, col, final);
    }
  }

  /** What leaves: modes and moves nothing, everything else as it is, and a frame directly behind the cursor
      move to the last cell named, row first. */
  lemma WhatLeaves(st: State, token: seq<byte>)
    ensures |token| <= 1 || Classify(token) == Other ==> RelayToken(st, token) == Relayed(st, token)
    ensures |token| > 1 && (Classify(token) == Mode || Classify(token).CursorMove?) ==> RelayToken(st, token).out == []
    ensures |token| > 1 && Classify(token) == Graphics ==>
              RelayToken(st, token).out ==
              if st.cursor == None then token
              else [0x1b, 0x5b] + Decimal(st.cursor.value.row) + [0x3b] + Decimal(st.cursor.value.col) + [0x66] + token
  {
    hide Classify, Decimal;
  }

  /** Around what one read puts out the cursor is saved and restored. */
  lemma WrittenAs(raw: seq<byte>)
    ensures Wrapped(raw) == if raw == [] then [] else [0x1b, 0x37] + raw + [0x1b, 0x38]
  {
  }
}
