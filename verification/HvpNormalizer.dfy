/** `HvpNormalizer` of the brogue mirror: rewrites the final byte of `ESC [ digits;.. f` to `H`,
    holding an unfinished candidate back between reads. */
module HvpNormalizer {
  import opened Bytes
  import opened Tokens

  const BRACKET: byte := 0x5b
  const SEMICOLON: byte := 0x3b
  const LOWER_F: byte := 0x66
  const UPPER_H: byte := 0x48

  const HVP_CARRY_MAX := 16

  predicate IsParam(b: byte) { IsDigit(b) || b == SEMICOLON }

  /** The first position from `j` on that is not a parameter byte. */
  function ParamsEnd(s: seq<byte>, j: nat): (e: nat)
    requires j <= |s|
    ensures j <= e <= |s|
    ensures forall k :: j <= k < e ==> IsParam(s[k])
    ensures e < |s| ==> !IsParam(s[e])
    decreases |s| - j
  {
    if j < |s| && IsParam(s[j]) then ParamsEnd(s, j + 1) else j
  }

  /** The input as the normalizer walks it: single bytes, and numeric CSI candidates up to and
      including their final byte. */
  function Candidate(s: seq<byte>): (n: nat)
    ensures n <= |s|
  {
    if s == [] then 0
    else if s[0] != ESC then 1
    else if |s| == 1 then 0
    else if s[1] != BRACKET then 1
    else
      var j := ParamsEnd(s, 2);
      if j == |s| then 0 else j + 1
  }

  /** One token on its way out. */
  function Rewrite(token: seq<byte>): (r: seq<byte>)
    ensures |r| == |token|
  {
    var last := |token| - 1;
    if |token| > 1 && token[last] == LOWER_F && last <= HVP_CARRY_MAX then token[..last] + [UPPER_H] else token
  }

  function RewriteAll(tokens: seq<seq<byte>>): seq<byte> {
    if tokens == [] then [] else Rewrite(tokens[0]) + RewriteAll(tokens[1..])
  }

  /** What the finished tokens of `s` become. */
  function Settled(s: seq<byte>): seq<byte> { RewriteAll(Tokenise(Candidate, s).tokens) }

  /** The unfinished candidate at the end of `s`, before any cap. */
  function Unread(s: seq<byte>): seq<byte> { Tokenise(Candidate, s).tail }

  datatype Read = Read(out: seq<byte>, carry: seq<byte>)

  function Prepend(piece: seq<byte>, read: Read): Read { Read(piece + read.out, read.carry) }

  /** Output and carry of one read: the tail is held back while it could still become an HVP, and
      flushed otherwise. */
  function FeedResult(s: seq<byte>): Read {
    var tail := Unread(s);
    if |tail| <= HVP_CARRY_MAX then Read(Settled(s), tail) else Read(Settled(s) + tail, [])
  }

  lemma OneToken(s: seq<byte>)
    requires Candidate(s) > 0
    ensures Settled(s) == Rewrite(s[..Candidate(s)]) + Settled(s[Candidate(s)..])
    ensures Unread(s) == Unread(s[Candidate(s)..])
  {
    hide Candidate, Rewrite, Tokenise;
    TokeniseStep(Candidate, s);
    var first, rest := s[..Candidate(s)], Tokenise(Candidate, s[Candidate(s)..]).tokens;
    assert ([first] + rest)[1..] == rest;
  }

  lemma NoToken(s: seq<byte>)
    requires Candidate(s) == 0
    ensures Settled(s) == [] && Unread(s) == s
    ensures FeedResult(s) == if |s| <= HVP_CARRY_MAX then Read([], s) else Read(s, [])
  {
    hide Candidate, Rewrite, Tokenise;
    TokeniseStep(Candidate, s);
    assert [] + s == s;
  }

  lemma FirstTokenOut(s: seq<byte>)
    requires Candidate(s) > 0
    ensures FeedResult(s) == Prepend(Rewrite(s[..Candidate(s)]), FeedResult(s[Candidate(s)..]))
  {
    hide Candidate, Settled, Unread;
    OneToken(s);
    var n := Candidate(s);
    assert Rewrite(s[..n]) + (Settled(s[n..]) + Unread(s)) == (Rewrite(s[..n]) + Settled(s[n..])) + Unread(s);
  }

  lemma PrependAgain(a: seq<byte>, b: seq<byte>, read: Read)
    ensures Prepend(a, Prepend(b, read)) == Prepend(a + b, read)
    ensures Prepend([], read) == read
  {
    assert a + (b + read.out) == (a + b) + read.out;
    assert [] + read.out == read.out;
  }

  lemma OneByte(input: seq<byte>, i: nat)
    requires i < |input|
    ensures Rewrite(input[i..i + 1]) == [input[i]]
  {
    assert input[i..i + 1] == [input[i]];
  }

  lemma RewriteSpan(input: seq<byte>, start: nat, j: nat)
    requires start < j < |input|
    ensures Rewrite(input[start..j + 1]) ==
            if input[j] == LOWER_F && j - start <= HVP_CARRY_MAX then input[start..j] + [UPPER_H]
            else input[start..j + 1]
  {
    assert input[start..j + 1][..j - start] == input[start..j];
  }

  /** One turn of `feed`'s loop: the token at `i` on its way out, or `next == i` when it is unfinished. */
  method TakeToken(input: seq<byte>, i: nat) returns (next: nat, piece: seq<byte>)
    requires i < |input|
    ensures next == i + Candidate(input[i..])
    ensures next > i ==> piece == Rewrite(input[i..next])
  {
    hide Rewrite;
    OneByte(input, i);
    if input[i] != ESC {
      return i + 1, [input[i]];
    }
    var j := i + 1;
    if j >= |input| {
      return i, [];
    }
    if input[j] != BRACKET {
      return i + 1, [input[i]];
    }
    j := j + 1;
    while j < |input| && IsParam(input[j])
      invariant i + 2 <= j <= |input|
      invariant ParamsEnd(input[i..], 2) == ParamsEnd(input[i..], j - i)
    {
      j := j + 1;
    }
    if j >= |input| {
      return i, [];
    }
    RewriteSpan(input, i, j);
    if input[j] == LOWER_F && j - i <= HVP_CARRY_MAX {
      return j + 1, input[i..j] + [UPPER_H];
    }
    return j + 1, input[i..j + 1];
  }

  /** Where the loop of `feed` stands after one more token, or how it ends. */
  lemma NextToken(input: seq<byte>, out: seq<byte>, i: nat)
    requires i < |input| && FeedResult(input) == Prepend(out, FeedResult(input[i..]))
    ensures var n := Candidate(input[i..]);
            if n > 0 then
              FeedResult(input) == Prepend(out + Rewrite(input[i..i + n]), FeedResult(input[i + n..]))
            else
              FeedResult(input) ==
              if |input| - i <= HVP_CARRY_MAX then Read(out, input[i..]) else Read(out + input[i..], [])
  {
    hide Candidate, Settled, Unread, FeedResult, Rewrite;
    var rest, n := input[i..], Candidate(input[i..]);
    if n > 0 {
      FirstTokenOut(rest);
      assert rest[..n] == input[i..i + n];
      assert rest[n..] == input[i + n..];
      PrependAgain(out, Rewrite(rest[..n]), FeedResult(rest[n..]));
    } else {
      NoToken(rest);
      assert out + [] == out;
    }
  }

  class Normalizer {
    var carry: seq<byte>

    constructor ()
      ensures carry == []
    {
      carry := [];
    }

    method Feed(data: seq<byte>) returns (out: seq<byte>)
      modifies this
      ensures Read(out, carry) == FeedResult(old(carry) + data)
    {
      hide Settled, Unread, FeedResult, Rewrite, Candidate;
      var input := carry + data;
      carry := [];
      out := [];
      var i := 0;
      PrependAgain([], [], FeedResult(input));
      assert input[0..] == input;
      while i < |input|
        invariant i <= |input| && carry == []
        invariant FeedResult(input) == Prepend(out, FeedResult(input[i..]))
      {
        NextToken(input, out, i);
        var next, piece := TakeToken(input, i);
        if next == i {
          // Unterminated at the read edge: held back if it could still become an HVP.
          var tail := input[i..];
          if |tail| <= HVP_CARRY_MAX {
            carry := tail;
          } else {
            out := out + tail;
          }
          return;
        }
        out := out + piece;
        i := next;
      }
      NoToken([]);
      assert input[i..] == [] && out + [] == out;
    }
  }

  // ----- one cut -----

  lemma ParamsEndIs(s: seq<byte>, j: nat, e: nat)
    requires j <= e <= |s| && (e < |s| ==> !IsParam(s[e])) && forall k :: j <= k < e ==> IsParam(s[k])
    ensures ParamsEnd(s, j) == e
  {
  }

  /** A finished token stays what it is whatever follows. */
  lemma CandidateStable(s: seq<byte>, t: seq<byte>)
    requires Candidate(s) > 0
    ensures Candidate(s + t) == Candidate(s)
  {
    if s[0] == ESC && s[1] == BRACKET { ParamsEndIs(s + t, 2, ParamsEnd(s, 2)); }
  }

  lemma CandidatesStable()
    ensures PrefixStable(Candidate)
  {
    hide Candidate;
    forall s, t | Candidate(s) > 0 ensures Candidate(s + t) == Candidate(s) { CandidateStable(s, t); }
  }

  lemma {:induction false} RewriteAllConcat(a: seq<seq<byte>>, b: seq<seq<byte>>)
    ensures RewriteAll(a + b) == RewriteAll(a) + RewriteAll(b)
  {
    hide Rewrite;
    if a == [] {
      assert a + b == b;
    } else {
      assert (a + b)[1..] == a[1..] + b;
      RewriteAllConcat(a[1..], b);
      Associates(Rewrite(a[0]), RewriteAll(a[1..]), RewriteAll(b));
    }
  }

  /** Reading on looks again only at the candidate left unfinished. */
  lemma Peels(a: seq<byte>, b: seq<byte>)
    ensures Settled(a + b) == Settled(a) + Settled(Unread(a) + b)
    ensures Unread(a + b) == Unread(Unread(a) + b)
    ensures Candidate(Unread(a)) == 0
  {
    hide Candidate, Tokenise, RewriteAll;
    CandidatesStable();
    TokeniseSplit(Candidate, a, b);
    TailIsUnfinished(Candidate, a);
    RewriteAllConcat(Tokenise(Candidate, a).tokens, Tokenise(Candidate, Unread(a) + b).tokens);
  }

  lemma CapAfter(first: seq<byte>, out: seq<byte>, tail: seq<byte>)
    ensures (if |tail| <= HVP_CARRY_MAX then Read(first + out, tail) else Read((first + out) + tail, [])) ==
            Prepend(first, if |tail| <= HVP_CARRY_MAX then Read(out, tail) else Read(out + tail, []))
  {
    assert (first + out) + tail == first + (out + tail);
  }

  /** Reading on from an uncapped tail. */
  lemma FeedPeels(a: seq<byte>, b: seq<byte>)
    ensures FeedResult(a + b) == Prepend(Settled(a), FeedResult(Unread(a) + b))
  {
    hide Settled, Unread, Candidate, Clean;
    Peels(a, b);
    var rest := Unread(a) + b;
    CapAfter(Settled(a), Settled(rest), Unread(rest));
  }

  /** Two reads `a` then `b`, starting with an empty carry. */
  function TwoReads(a: seq<byte>, b: seq<byte>): Read {
    Prepend(FeedResult(a).out, FeedResult(FeedResult(a).carry + b))
  }

  /** No numeric CSI past the cap is directly followed by `ESC`: the one token a cut can show in. */
  predicate Clean(s: seq<byte>)
    decreases |s|
  {
    var n := Candidate(s);
    n == 0 || (!(n > HVP_CARRY_MAX + 1 && s[n - 1] == ESC) && Clean(s[n..]))
  }

  /** Bytes other than `ESC` pass as they are, one token each. */
  lemma {:induction false} PlainPrefix(s: seq<byte>, m: nat)
    requires m <= |s| && forall k :: 0 <= k < m ==> s[k] != ESC
    ensures FeedResult(s) == Prepend(s[..m], FeedResult(s[m..]))
    ensures Clean(s) <==> Clean(s[m..])
  {
    hide Settled, Unread, FeedResult;
    if m == 0 {
      assert s[0..] == s;
      PrependAgain([], [], FeedResult(s));
    } else {
      var s' := s[1..];
      PlainPrefix(s', m - 1);
      assert s'[m - 1..] == s[m..] && s[..1] + s'[..m - 1] == s[..m];
      FirstTokenOut(s);
      PrependAgain(s[..1], s'[..m - 1], FeedResult(s[m..]));
    }
  }

  /** A candidate past the cap swallows an `ESC` that a fresh read would start a candidate at. */
  lemma LongTailSwallows(tail: seq<byte>)
    requires Candidate(tail) == 0 && |tail| > HVP_CARRY_MAX
    ensures FeedResult(tail + [ESC, BRACKET, LOWER_F]).out == tail + [ESC, BRACKET, LOWER_F]
  {
    hide Settled, Unread;
    NoToken([]);
    var s := tail + [ESC, BRACKET, LOWER_F];
    ParamsEndIs(s, 2, |tail|);
    FirstTokenOut(s);
    assert s[..|tail| + 1] == tail + [ESC] && s[|tail| + 1..] == [BRACKET, LOWER_F];
    PlainPrefix([BRACKET, LOWER_F], 2);
    assert [BRACKET, LOWER_F] + [] == [BRACKET, LOWER_F];
  }

  lemma ShortHvp()
    ensures FeedResult([ESC, BRACKET, LOWER_F]).out == [ESC, BRACKET, UPPER_H]
  {
    hide Settled, Unread;
    NoToken([]);
    var b: seq<byte> := [ESC, BRACKET, LOWER_F];
    ParamsEndIs(b, 2, 2);
    FirstTokenOut(b);
    assert b[..3] == b && b[3..] == [];
    assert [ESC, BRACKET, UPPER_H] + [] == [ESC, BRACKET, UPPER_H];
  }

  /** Cutting the stream after `a` changes nothing for any continuation, exactly when the candidate
      left unfinished there still fits the carry. */
  lemma CutInvisibleIff(a: seq<byte>)
    ensures (forall b :: FeedResult(a + b) == TwoReads(a, b)) <==> |Unread(a)| <= 16
  {
    hide Settled, Unread, Candidate, Clean;
    if |Unread(a)| <= HVP_CARRY_MAX {
      forall b ensures FeedResult(a + b) == TwoReads(a, b) { FeedPeels(a, b); }
    } else {
      var b: seq<byte> := [ESC, BRACKET, LOWER_F];
      Peels(a, b);
      FeedPeels(a, b);
      LongTailSwallows(Unread(a));
      ShortHvp();
      assert [] + b == b;
      var whole, cut := FeedResult(a + b).out, TwoReads(a, b).out;
      assert whole[|whole| - 1] == LOWER_F && cut[|cut| - 1] == UPPER_H;
    }
  }

  lemma UnfinishedCandidate(a: seq<byte>)
    requires |a| >= 2 && a[0] == ESC && a[1] == BRACKET && forall k :: 2 <= k < |a| ==> IsParam(a[k])
    ensures Candidate(a) == 0
  {
  }

  /** An instance: a candidate one byte past the cap, cut in front of an HVP. */
  lemma LongCandidateShows()
    ensures var a: seq<byte> := [ESC, BRACKET] + seq(HVP_CARRY_MAX - 1, _ => SEMICOLON);
            var hvp: seq<byte> := [ESC, BRACKET, LOWER_F];
            |a| == HVP_CARRY_MAX + 1 && FeedResult(a + hvp).out == a + hvp &&
            TwoReads(a, hvp).out == a + [ESC, BRACKET, UPPER_H]
  {
    hide Settled, Unread, Candidate;
    var a: seq<byte> := [ESC, BRACKET] + seq(HVP_CARRY_MAX - 1, _ => SEMICOLON);
    UnfinishedCandidate(a);
    NoToken(a);
    LongTailSwallows(a);
    ShortHvp();
    assert [] + [ESC, BRACKET, LOWER_F] == [ESC, BRACKET, LOWER_F];
  }

  // ----- whole streams -----

  /** Reads in turn, each feed's carry going into the next. */
  function FeedAll(carry: seq<byte>, chunks: seq<seq<byte>>): Read
    decreases |chunks|
  {
    if chunks == [] then Read([], carry)
    else
      var first := FeedResult(carry + chunks[0]);
      Prepend(first.out, FeedAll(first.carry, chunks[1..]))
  }

  lemma {:induction false} CleanPeels(a: seq<byte>, b: seq<byte>)
    requires Clean(a + b)
    ensures Clean(Unread(a) + b)
    decreases |a|
  {
    var n := Candidate(a);
    if n == 0 {
    } else {
      CandidateStable(a, b);
      assert (a + b)[n..] == a[n..] + b;
      CleanPeels(a[n..], b);
    }
  }

  lemma JoinedParams(tail: seq<byte>, b: seq<byte>, m: nat)
    requires Candidate(tail) == 0 && |tail| > HVP_CARRY_MAX && m == ParamsEnd(b, 0)
    ensures Candidate(tail + b) == if m == |b| then 0 else |tail| + m + 1
  {
    var s := tail + b;
    forall k | 2 <= k < |tail| + m ensures IsParam(s[k]) {
      if k >= |tail| { assert s[k] == b[k - |tail|]; }
    }
    ParamsEndIs(s, 2, |tail| + m);
  }

  lemma LongToken(tail: seq<byte>, b: seq<byte>, k: nat)
    requires |tail| > HVP_CARRY_MAX && 0 < k <= |b|
    ensures Rewrite((tail + b)[..|tail| + k]) == tail + b[..k]
  {
    assert (tail + b)[..|tail| + k] == tail + b[..k];
  }

  lemma BehindTail(tail: seq<byte>, b: seq<byte>, m: nat)
    requires 0 < m <= |b|
    ensures (tail + b)[|tail| + m - 1] == b[m - 1] && (tail + b)[|tail| + m..] == b[m..]
  {
  }

  lemma CleanStep(s: seq<byte>)
    requires Candidate(s) > 0 && Clean(s)
    ensures !(Candidate(s) > HVP_CARRY_MAX + 1 && s[Candidate(s) - 1] == ESC) && Clean(s[Candidate(s)..])
  {
    hide Candidate;
  }

  lemma ParamsAreNoEsc(b: seq<byte>, m: nat)
    requires m == ParamsEnd(b, 0)
    ensures forall k :: 0 <= k < m ==> b[k] != ESC
  {
  }

  lemma NothingIsClean()
    ensures Candidate([]) == 0 && Clean([])
  {
  }

  /** Nothing but parameters follows: both the whole and the rest are passed on. */
  lemma FlushedUnfinished(tail: seq<byte>, b: seq<byte>)
    requires |tail| > HVP_CARRY_MAX && Candidate(tail + b) == 0 && forall k :: 0 <= k < |b| ==> b[k] != ESC
    ensures FeedResult(tail + b) == Prepend(tail, FeedResult(b))
    ensures Clean(b)
  {
    hide Settled, Unread, FeedResult, Clean, Candidate;
    PlainPrefix(b, |b|);
    NothingIsClean();
    NoToken(tail + b);
    NoToken([]);
    assert b[|b|..] == [] && b[..|b|] == b && b + [] == b;
  }

  /** The candidate takes in the first `k` bytes of `b` and is too long to be rewritten; from there on
      both read alike. */
  lemma FlushedReads(tail: seq<byte>, b: seq<byte>, k: nat)
    requires |tail| > HVP_CARRY_MAX && 0 < k <= |b| && Candidate(tail + b) == |tail| + k
    requires FeedResult(b) == Prepend(b[..k], FeedResult(b[k..]))
    ensures FeedResult(tail + b) == Prepend(tail, FeedResult(b))
  {
    hide Settled, Unread, FeedResult, Candidate, Rewrite, Prepend;
    FirstTokenOut(tail + b);
    LongToken(tail, b, k);
    BehindTail(tail, b, k);
    PrependAgain(tail, b[..k], FeedResult(b[k..]));
  }

  lemma FlushedFinished(tail: seq<byte>, b: seq<byte>, m: nat)
    requires |tail| > HVP_CARRY_MAX && m < |b| && Candidate(tail + b) == |tail| + m + 1 && Clean(tail + b)
    requires forall k :: 0 <= k < m ==> b[k] != ESC
    ensures FeedResult(tail + b) == Prepend(tail, FeedResult(b))
    ensures Clean(b)
  {
    hide Settled, Unread, FeedResult, Clean, Candidate, Rewrite, Prepend;
    CleanStep(tail + b);
    BehindTail(tail, b, m + 1);
    PlainPrefix(b, m + 1);
    FlushedReads(tail, b, m + 1);
  }

  /** After a flush the rest reads the same as inside the flushed candidate. */
  lemma FlushedTail(tail: seq<byte>, b: seq<byte>)
    requires Candidate(tail) == 0 && |tail| > HVP_CARRY_MAX && Clean(tail + b)
    ensures FeedResult(tail + b) == Prepend(tail, FeedResult(b))
    ensures Clean(b)
  {
    hide Candidate, ParamsEnd;
    var m := ParamsEnd(b, 0);
    JoinedParams(tail, b, m);
    ParamsAreNoEsc(b, m);
    if m == |b| {
      FlushedUnfinished(tail, b);
    } else {
      FlushedFinished(tail, b, m);
    }
  }

  /** Any cut of a clean stream is invisible, and leaves a clean stream. */
  lemma CleanCut(a: seq<byte>, b: seq<byte>)
    requires Clean(a + b)
    ensures FeedResult(a + b) == TwoReads(a, b)
    ensures Clean(FeedResult(a).carry + b)
  {
    hide Settled, Unread, Candidate, Clean;
    CleanPeels(a, b);
    FeedPeels(a, b);
    if |Unread(a)| > HVP_CARRY_MAX {
      Peels(a, b);
      FlushedTail(Unread(a), b);
      assert [] + b == b;
      PrependAgain(Settled(a), Unread(a), FeedResult(b));
    }
  }

  /** What a read holds back is never more than the cap, and an empty read holds it back again. */
  lemma CarryHolds(s: seq<byte>)
    ensures |FeedResult(s).carry| <= 16
    ensures FeedResult(FeedResult(s).carry) == Read([], FeedResult(s).carry)
  {
    Peels(s, []);
  }

  /** Chunk invariance: a clean stream gives the same output and carry however it is cut. */
  lemma {:induction false} ChunksDoNotMatter(carry: seq<byte>, chunks: seq<seq<byte>>)
    requires Clean(carry + Concat(chunks)) && FeedResult(carry) == Read([], carry)
    ensures FeedAll(carry, chunks) == FeedResult(carry + Concat(chunks))
    decreases |chunks|
  {
    hide FeedResult, Clean;
    if chunks == [] {
      assert carry + [] == carry;
    } else {
      var a, b := carry + chunks[0], Concat(chunks[1..]);
      assert carry + Concat(chunks) == a + b;
      CleanCut(a, b);
      CarryHolds(a);
      ChunksDoNotMatter(FeedResult(a).carry, chunks[1..]);
    }
  }

  // ----- what the rewrite touches -----

  /** Position `k` of `s` is the `f` of an HVP that starts at `start`, within the cap. */
  ghost predicate IsHvp(s: seq<byte>, start: int, k: int) {
    && 0 <= start && start + 2 <= k < |s| && k - start <= HVP_CARRY_MAX
    && s[start] == ESC && s[start + 1] == BRACKET && s[k] == LOWER_F
    && forall x :: start + 2 <= x < k ==> IsParam(s[x])
  }

  ghost predicate OnlyFinals(s: seq<byte>, r: seq<byte>) {
    && |r| == |s|
    && forall k :: 0 <= k < |s| ==> r[k] == s[k] || (r[k] == UPPER_H && exists start :: IsHvp(s, start, k))
  }

  lemma OnlyFinalsPrepend(s: seq<byte>, n: nat, r: seq<byte>)
    requires n == Candidate(s) > 0 && OnlyFinals(s[n..], r)
    ensures OnlyFinals(s, Rewrite(s[..n]) + r)
  {
    var rest, all := s[n..], Rewrite(s[..n]) + r;
    forall k | 0 <= k < |s| && all[k] != s[k]
      ensures all[k] == UPPER_H && exists start :: IsHvp(s, start, k)
    {
      if k < n {
        assert IsHvp(s, 0, k);
      } else {
        assert all[k] == r[k - n] && s[k] == rest[k - n];
        var start :| IsHvp(rest, start, k - n);
        assert IsHvp(s, start + n, k);
      }
    }
  }

  /** Output and carry keep the length of the input and differ from it only where the final `f` of an
      HVP became `H`. */
  lemma {:induction false} OnlyHvpFinalsChange(s: seq<byte>)
    ensures OnlyFinals(s, FeedResult(s).out + FeedResult(s).carry)
    decreases |s|
  {
    hide Settled, Unread, FeedResult, Candidate;
    var n := Candidate(s);
    if n == 0 {
      NoToken(s);
      assert [] + s == s && s + [] == s;
    } else {
      var rest := s[n..];
      OnlyHvpFinalsChange(rest);
      FirstTokenOut(s);
      var r := FeedResult(rest).out + FeedResult(rest).carry;
      assert FeedResult(s).out + FeedResult(s).carry == Rewrite(s[..n]) + r;
      OnlyFinalsPrepend(s, n, r);
    }
  }

  // ----- byte by byte -----

  // What the normalizer does, with every byte written out; nothing above is taken for granted.

  predicate IsDigitOrSemicolon(b: byte) { 0x30 <= b <= 0x39 || b == 0x3b }

  ghost predicate Numeric(params: seq<byte>) { forall k :: 0 <= k < |params| ==> IsDigitOrSemicolon(params[k]) }

  lemma NumericEnds(params: seq<byte>, final: byte, rest: seq<byte>)
    requires Numeric(params) && !IsDigitOrSemicolon(final)
    ensures Candidate([0x1b, 0x5b] + params + [final] + rest) == |params| + 3
    ensures Candidate([0x1b, 0x5b] + params) == 0
  {
    var s, open := [0x1b, 0x5b] + params + [final] + rest, [0x1b, 0x5b] + params;
    ParamsEndIs(s, 2, 2 + |params|);
    ParamsEndIs(open, 2, |open|);
  }

  /** A numeric control sequence passes as it is, except that a final `f` behind at most 14 bytes of
      parameters goes out as `H`. */
  lemma NumericSequence(params: seq<byte>, final: byte, rest: seq<byte>)
    requires Numeric(params) && !IsDigitOrSemicolon(final)
    ensures FeedResult([0x1b, 0x5b] + params + [final] + rest) ==
            Prepend([0x1b, 0x5b] + params + [if final == 0x66 && |params| <= 14 then 0x48 else final], FeedResult(rest))
  {
    hide Candidate, Settled, Unread, FeedResult;
    var token := [0x1b, 0x5b] + params + [final];
    NumericEnds(params, final, rest);
    FirstTokenOut(token + rest);
    assert (token + rest)[..|token|] == token && (token + rest)[|token|..] == rest;
    assert token[..|token| - 1] == [0x1b, 0x5b] + params;
  }

  /** Cut off at the end of a read, it is held back up to 16 bytes in all, and passed on beyond. */
  lemma NumericBeginning(params: seq<byte>)
    requires Numeric(params)
    ensures var s := [0x1b, 0x5b] + params;
            FeedResult(s) == if |params| <= 14 then Read([], s) else Read(s, [])
  {
    hide Candidate, Settled, Unread, FeedResult;
    NumericEnds(params, 0x66, []);
    NoToken([0x1b, 0x5b] + params);
  }

  /** Every other byte passes on its own; an `ESC` at the end of a read is held back. */
  lemma OtherBytes(b: byte, c: byte, rest: seq<byte>)
    ensures b != 0x1b ==> FeedResult([b] + rest) == Prepend([b], FeedResult(rest))
    ensures c != 0x5b ==> FeedResult([0x1b, c] + rest) == Prepend([0x1b], FeedResult([c] + rest))
    ensures FeedResult([0x1b]) == Read([], [0x1b]) && FeedResult([]) == Read([], [])
  {
    hide Settled, Unread, FeedResult;
    NoToken([]);
    NoToken([0x1b]);
    if b != 0x1b {
      FirstTokenOut([b] + rest);
      assert ([b] + rest)[..1] == [b] && ([b] + rest)[1..] == rest;
    }
    if c != 0x5b {
      var s := [0x1b, c] + rest;
      FirstTokenOut(s);
      assert s[..1] == [0x1b] && s[1..] == [c] + rest;
    }
  }
}
