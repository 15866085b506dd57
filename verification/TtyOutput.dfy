/** What the terminal sees of the relay: its output read back as a stream of tokens.

    Every sequence leaves whole, and none that leaves is a mode write or a delete-all. Still, bytes that
    leave on their own can close up into one: exactly where a lone `ESC` stands directly in front of a
    sequence that the relay removes, in one read. */
module TtyOutput {
  import opened Options
  import opened Bytes
  import opened Tokens
  import opened TtyFilter

  // ----- the sequences the relay writes itself -----

  /** A cell as the program holds it, in two 32-bit numbers. */
  ghost predicate InRange(cell: CellPos) { cell.row < 4294967296 && cell.col < 4294967296 }

  ghost predicate CellsInRange(st: State) {
    (st.cursor.Some? ==> InRange(st.cursor.value)) && forall c :: c in st.placed ==> InRange(c)
  }

  lemma NoEscInDecimal(n: nat)
    ensures forall i :: 0 <= i < |Decimal(n)| ==> Decimal(n)[i] != ESC && Decimal(n)[i] != SEMICOLON && !IsFinal(Decimal(n)[i])
  {
  }

  lemma CursorCellRoundTrip(cell: CellPos)
    requires InRange(cell)
    ensures CursorCell(Decimal(cell.row) + [SEMICOLON] + Decimal(cell.col)) == Some(cell)
  {
    hide Decimal, DigitsValue, ParseUnsigned;
    var row, col := Decimal(cell.row), Decimal(cell.col);
    var params := row + [SEMICOLON] + col;
    NoEscInDecimal(cell.row);
    assert forall x :: 0 <= x < |row| ==> params[x] == row[x];
    assert params[|row|] == SEMICOLON;
    assert SemicolonAt(params, 0) == |row|;
    assert params[..|row|] == row && params[|row| + 1..] == col;
    DecimalParses(cell.row, U32_LIMIT);
    DecimalParses(cell.col, U32_LIMIT);
  }

  lemma CursorBytesWhole(cell: CellPos)
    ensures NextLen(CursorBytes(cell)) == |CursorBytes(cell)|
  {
    hide Decimal;
    var s, row, col := CursorBytes(cell), Decimal(cell.row), Decimal(cell.col);
    NoEscInDecimal(cell.row);
    NoEscInDecimal(cell.col);
    forall x | 2 <= x < |s| - 1 ensures !IsFinal(s[x]) {
      if x < 2 + |row| { assert s[x] == row[x - 2]; }
      else if x > 2 + |row| { assert s[x] == col[x - 3 - |row|]; }
    }
    FinalAtIs(s, 2, |s| - 1);
  }

  /** The cursor move in front of a frame names the cell it was made from. */
  lemma CursorBytesRoundTrip(cell: CellPos)
    requires InRange(cell)
    ensures Classify(CursorBytes(cell)) == CursorMove(cell)
    ensures NextLen(CursorBytes(cell)) == |CursorBytes(cell)| > 1
  {
    hide Decimal, DigitsValue, ParseUnsigned;
    var s, row, col := CursorBytes(cell), Decimal(cell.row), Decimal(cell.col);
    NoEscInDecimal(cell.row);
    NoEscInDecimal(cell.col);
    var params := row + [SEMICOLON] + col;
    assert s[2..] == params + [0x66];
    assert forall x :: 0 <= x < |row| ==> params[x] == row[x];
    assert (params + [0x66])[0] == row[0];
    CursorCellRoundTrip(cell);
    assert (params + [0x66])[..|params|] == params;
    CursorBytesWhole(cell);
    assert s[1] == BRACKET && [ESC, UNDERSCORE, 0x47][1] == UNDERSCORE;
  }

  lemma DeleteBytesWhole(cell: CellPos)
    ensures NextLen(DeleteBytes(cell)) == |DeleteBytes(cell)| > 1
    ensures Classify(DeleteBytes(cell)) == Graphics
  {
    hide Decimal;
    var s, row, col := DeleteBytes(cell), Decimal(cell.row), Decimal(cell.col);
    NoEscInDecimal(cell.row);
    NoEscInDecimal(cell.col);
    forall x | 2 <= x < |s| - 2 ensures s[x] != ESC {
      if 13 <= x < 13 + |col| { assert s[x] == col[x - 13]; }
      else if 16 + |col| <= x < 16 + |col| + |row| { assert s[x] == row[x - 16 - |col|]; }
    }
    TerminatorAtIs(s, 2, |s| - 2);
    assert s[6] == 0x2c && DELETE_ALL[6] == SEMICOLON;
  }

  // A terminal's reading of a delete: the command cut at its commas, and what stands behind `x=` and `y=`.

  function CommaAt(s: seq<byte>): (e: nat)
    ensures e <= |s| && (e < |s| ==> s[e] == 0x2c) && forall k :: 0 <= k < e ==> s[k] != 0x2c
  {
    if s == [] || s[0] == 0x2c then 0 else 1 + CommaAt(s[1..])
  }

  function Fields(s: seq<byte>): seq<seq<byte>>
    decreases |s|
  {
    var e := CommaAt(s);
    if e == |s| then [s] else [s[..e]] + Fields(s[e + 1..])
  }

  /** The value of the first field `key=...`. */
  function ValueOf(fields: seq<seq<byte>>, key: byte): Option<seq<byte>> {
    if fields == [] then None
    else if |fields[0]| >= 2 && fields[0][..2] == [key, 0x3d] then Some(fields[0][2..])
    else ValueOf(fields[1..], key)
  }

  /** The cell a delete of the placements at one cell names: column from `x`, row from `y`. */
  function DeleteCell(s: seq<byte>): Option<CellPos> {
    if |s| < 5 || s[..3] != [0x1b, 0x5f, 0x47] || s[|s| - 2..] != [0x1b, 0x5c] then None
    else
      var fields := Fields(s[3..|s| - 2]);
      if ValueOf(fields, 0x61) != Some([0x64]) || ValueOf(fields, 0x64) != Some([0x50]) then None
      else if ValueOf(fields, 0x78) == None || ValueOf(fields, 0x79) == None then None
      else
        var col := ParseUnsigned(ValueOf(fields, 0x78).value, 4294967296);
        var row := ParseUnsigned(ValueOf(fields, 0x79).value, 4294967296);
        if col.Some? && row.Some? then Some(CellPos(row.value, col.value)) else None
  }

  lemma CommaAtIs(s: seq<byte>, e: nat)
    requires e < |s| && s[e] == 0x2c && forall k :: 0 <= k < e ==> s[k] != 0x2c
    ensures CommaAt(s) == e
  {
  }

  lemma FieldsCut(field: seq<byte>, rest: seq<byte>)
    requires 0x2c !in field
    ensures Fields(field + [0x2c] + rest) == [field] + Fields(rest) && Fields(field) == [field]
  {
    var s := field + [0x2c] + rest;
    CommaAtIs(s, |field|);
    assert s[..|field|] == field && s[|field| + 1..] == rest;
    assert CommaAt(field) == |field|;
  }

  function Comma(a: seq<byte>, rest: seq<byte>): seq<byte> { a + [0x2c] + rest }

  lemma DeleteBody(cell: CellPos)
    ensures var s := DeleteBytes(cell);
            var x, y := [0x78, 0x3d] + Decimal(cell.col), [0x79, 0x3d] + Decimal(cell.row);
            var body := Comma([0x61, 0x3d, 0x64], Comma([0x64, 0x3d, 0x50], Comma(x, Comma(y, [0x71, 0x3d, 0x32]))));
            |s| >= 5 && s == [0x1b, 0x5f, 0x47] + body + [0x1b, 0x5c]
  {
    hide Decimal;
  }

  lemma Middle(body: seq<byte>)
    ensures var s := [0x1b, 0x5f, 0x47] + body + [0x1b, 0x5c];
            s[..3] == [0x1b, 0x5f, 0x47] && s[|s| - 2..] == [0x1b, 0x5c] && s[3..|s| - 2] == body
  {
  }

  lemma DeleteFields(cell: CellPos)
    ensures var s := DeleteBytes(cell);
            |s| >= 5 && s[..3] == [0x1b, 0x5f, 0x47] && s[|s| - 2..] == [0x1b, 0x5c] &&
            Fields(s[3..|s| - 2]) ==
            [[0x61, 0x3d, 0x64], [0x64, 0x3d, 0x50], [0x78, 0x3d] + Decimal(cell.col), [0x79, 0x3d] + Decimal(cell.row),
             [0x71, 0x3d, 0x32]]
  {
    hide Decimal, Fields, DeleteBytes;
    var x, y := [0x78, 0x3d] + Decimal(cell.col), [0x79, 0x3d] + Decimal(cell.row);
    var a, d, q: seq<byte> := [0x61, 0x3d, 0x64], [0x64, 0x3d, 0x50], [0x71, 0x3d, 0x32];
    assert forall b :: b in Decimal(cell.col) || b in Decimal(cell.row) ==> IsDigit(b);
    DeleteBody(cell);
    Middle(Comma(a, Comma(d, Comma(x, Comma(y, q)))));
    FieldsCut(q, []);
    FieldsCut(y, q);
    FieldsCut(x, Comma(y, q));
    FieldsCut(d, Comma(x, Comma(y, q)));
    FieldsCut(a, Comma(d, Comma(x, Comma(y, q))));
    assert [a] + ([d] + ([x] + ([y] + [q]))) == [a, d, x, y, q];
  }

  lemma FieldValues(x: seq<byte>, y: seq<byte>)
    requires |x| >= 2 && x[..2] == [0x78, 0x3d] && |y| >= 2 && y[..2] == [0x79, 0x3d]
    ensures var fields := [[0x61, 0x3d, 0x64], [0x64, 0x3d, 0x50], x, y, [0x71, 0x3d, 0x32]];
            ValueOf(fields, 0x61) == Some([0x64]) && ValueOf(fields, 0x64) == Some([0x50]) &&
            ValueOf(fields, 0x78) == Some(x[2..]) && ValueOf(fields, 0x79) == Some(y[2..])
  {
    var f0: seq<seq<byte>> := [[0x61, 0x3d, 0x64], [0x64, 0x3d, 0x50], x, y, [0x71, 0x3d, 0x32]];
    var f1, f2, f3 := f0[1..], f0[2..], f0[3..];
    assert f1[1..] == f2 && f2[1..] == f3;
    assert f0[0][..2] == [0x61, 0x3d] && f1[0][..2] == [0x64, 0x3d];
    assert f0[0][2..] == [0x64] && f1[0][2..] == [0x50];
    assert ValueOf(f3, 0x79) == Some(y[2..]);
    assert ValueOf(f2, 0x78) == Some(x[2..]) && ValueOf(f2, 0x79) == Some(y[2..]);
    assert ValueOf(f1, 0x64) == Some([0x50]);
  }

  /** Each delete the relay writes names the cell it was made for. */
  lemma DeleteNamesItsCell(cell: CellPos)
    requires InRange(cell)
    ensures DeleteCell(DeleteBytes(cell)) == Some(cell)
  {
    hide Decimal, Fields, ParseUnsigned, DigitsValue;
    DeleteFields(cell);
    var x, y := [0x78, 0x3d] + Decimal(cell.col), [0x79, 0x3d] + Decimal(cell.row);
    var fields: seq<seq<byte>> := [[0x61, 0x3d, 0x64], [0x64, 0x3d, 0x50], x, y, [0x71, 0x3d, 0x32]];
    FieldValues(x, y);
    assert x[2..] == Decimal(cell.col) && y[2..] == Decimal(cell.row);
    DecimalParses(cell.row, U32_LIMIT);
    DecimalParses(cell.col, U32_LIMIT);
  }

  // ----- the output, piece by piece -----

  function DeletePieces(cells: seq<CellPos>): seq<seq<byte>> {
    if cells == [] then [] else DeletePieces(cells[..|cells| - 1]) + [DeleteBytes(cells[|cells| - 1])]
  }

  /** The pieces one token goes out as. */
  function Pieces(st: State, token: seq<byte>): seq<seq<byte>> {
    if |token| <= 1 then [token]
    else
      match Classify(token)
      case Mode => []
      case CursorMove(_) => []
      case DeleteAll => DeletePieces(st.placed)
      case Graphics => if st.cursor.Some? then [CursorBytes(st.cursor.value), token] else [token]
      case Other => [token]
  }

  function AllPieces(st: State, tokens: seq<seq<byte>>): seq<seq<byte>> {
    if tokens == [] then []
    else
      var front := tokens[..|tokens| - 1];
      AllPieces(st, front) + Pieces(RelayAll(st, front).st, tokens[|tokens| - 1])
  }

  lemma {:induction false} ConcatConcat(a: seq<seq<byte>>, b: seq<seq<byte>>)
    ensures Concat(a + b) == Concat(a) + Concat(b)
  {
    if a == [] {
      assert a + b == b;
    } else {
      assert (a + b)[1..] == a[1..] + b;
      ConcatConcat(a[1..], b);
      Associates(a[0], Concat(a[1..]), Concat(b));
    }
  }

  lemma ConcatOne(s: seq<byte>)
    ensures Concat([s]) == s
  {
    assert [s][1..] == [] && s + [] == s;
  }

  lemma {:induction false} DeletePiecesAre(cells: seq<CellPos>)
    ensures Concat(DeletePieces(cells)) == Deletes(cells)
    ensures forall p :: p in DeletePieces(cells) ==> exists c :: c in cells && p == DeleteBytes(c)
  {
    hide DeleteBytes;
    if cells == [] {
    } else {
      var front, last := cells[..|cells| - 1], cells[|cells| - 1];
      DeletePiecesAre(front);
      ConcatConcat(DeletePieces(front), [DeleteBytes(last)]);
      ConcatOne(DeleteBytes(last));
    }
  }

  lemma PiecesAre(st: State, token: seq<byte>)
    ensures Concat(Pieces(st, token)) == RelayToken(st, token).out
  {
    hide DeleteBytes, CursorBytes, Classify, DeletePieces, Deletes;
    DeletePiecesAre(st.placed);
    ConcatOne(token);
    if st.cursor.Some? {
      var c := CursorBytes(st.cursor.value);
      ConcatConcat([c], [token]);
      ConcatOne(c);
      assert [c] + [token] == [c, token];
    }
  }

  lemma {:induction false} AllPiecesAre(st: State, tokens: seq<seq<byte>>)
    ensures Concat(AllPieces(st, tokens)) == RelayAll(st, tokens).out
  {
    hide Pieces, RelayToken;
    if tokens == [] {
    } else {
      var front, last := tokens[..|tokens| - 1], tokens[|tokens| - 1];
      AllPiecesAre(st, front);
      PiecesAre(RelayAll(st, front).st, last);
      ConcatConcat(AllPieces(st, front), Pieces(RelayAll(st, front).st, last));
    }
  }

  /** A byte, or one whole sequence. */
  ghost predicate Whole(t: seq<byte>) { |t| == 1 || (|t| > 1 && NextLen(t) == |t|) }

  lemma {:induction false} TokensWhole(s: seq<byte>)
    ensures forall t :: t in Tokenise(NextLen, s).tokens ==> Whole(t)
    decreases |s|
  {
    hide Tokenise;
    TokeniseStep(NextLen, s);
    var n := NextLen(s);
    if n == 0 {
    } else {
      TokensWhole(s[n..]);
      if n > 1 { TokenIsWhole(s); }
    }
  }

  lemma CellsStayInRange(st: State, token: seq<byte>)
    requires CellsInRange(st)
    ensures CellsInRange(RelayToken(st, token).st)
  {
  }

  lemma {:induction false} AllCellsInRange(st: State, tokens: seq<seq<byte>>)
    requires CellsInRange(st)
    ensures CellsInRange(RelayAll(st, tokens).st)
  {
    hide RelayToken, CellsInRange;
    if tokens == [] {
    } else {
      AllCellsInRange(st, tokens[..|tokens| - 1]);
      CellsStayInRange(RelayAll(st, tokens[..|tokens| - 1]).st, tokens[|tokens| - 1]);
    }
  }

  /** What may leave: bytes, and whole sequences that are neither a mode write nor a delete-all. */
  ghost predicate Clean(p: seq<byte>) {
    Whole(p) && (|p| > 1 ==> Classify(p) != Mode && Classify(p) != DeleteAll)
  }

  lemma PiecesClean(st: State, token: seq<byte>)
    requires Whole(token) && CellsInRange(st)
    ensures forall p :: p in Pieces(st, token) ==> Clean(p)
  {
    hide Classify, NextLen, DeleteBytes, CursorBytes, DeletePieces;
    DeletePiecesAre(st.placed);
    forall c ensures Clean(DeleteBytes(c)) { DeleteBytesWhole(c); }
    if st.cursor.Some? { CursorBytesRoundTrip(st.cursor.value); }
  }

  /** Every sequence leaves whole: a read's output is its pieces, each a byte or a complete sequence,
      and no piece is a terminal mode the TUI owns or a delete of all its images. */
  lemma {:induction false} OutputIsCleanPieces(st: State, tokens: seq<seq<byte>>)
    requires CellsInRange(st) && forall t :: t in tokens ==> Whole(t)
    ensures RelayAll(st, tokens).out == Concat(AllPieces(st, tokens))
    ensures forall p :: p in AllPieces(st, tokens) ==> Clean(p)
  {
    hide Pieces, RelayToken, Whole, Clean, CellsInRange, RelayAll;
    AllPiecesAre(st, tokens);
    if tokens == [] {
    } else {
      var front, last := tokens[..|tokens| - 1], tokens[|tokens| - 1];
      OutputIsCleanPieces(st, front);
      AllCellsInRange(st, front);
      PiecesClean(RelayAll(st, front).st, last);
    }
  }

  // ----- pieces read back -----

  const LONE: seq<byte> := [ESC]

  /** A byte that makes a sequence of an `ESC` in front of it. */
  predicate Opens(t: seq<byte>) { t != [] && (t[0] == BRACKET || t[0] == UNDERSCORE) }

  /** A lone `ESC` never stands in front of a byte that would have made it a sequence. */
  ghost predicate Adjacent(pieces: seq<seq<byte>>) {
    forall k :: 0 <= k < |pieces| - 1 && pieces[k] == LONE ==> !Opens(pieces[k + 1])
  }

  ghost predicate EndsLone(pieces: seq<seq<byte>>) { pieces != [] && pieces[|pieces| - 1] == LONE }

  /** A terminal reads `bytes` as exactly these pieces; a lone `ESC` at the end still waits. */
  ghost predicate ReadAs(bytes: seq<byte>, pieces: seq<seq<byte>>) {
    Tokenise(NextLen, bytes) ==
    if EndsLone(pieces) then Scanned(pieces[..|pieces| - 1], LONE) else Scanned(pieces, [])
  }

  ghost predicate AllWhole(pieces: seq<seq<byte>>) { forall p :: p in pieces ==> Whole(p) }

  lemma {:induction false} TokensAdjacent(s: seq<byte>)
    ensures Adjacent(Tokenise(NextLen, s).tokens)
    ensures var tokens := Tokenise(NextLen, s).tokens; tokens != [] ==> tokens[0] != [] && tokens[0][0] == s[0]
    decreases |s|
  {
    hide Tokenise;
    TokeniseStep(NextLen, s);
    var n := NextLen(s);
    if n == 0 {
    } else {
      TokensAdjacent(s[n..]);
      var rest, all := Tokenise(NextLen, s[n..]).tokens, Tokenise(NextLen, s).tokens;
      forall k | 0 <= k < |all| - 1 && all[k] == LONE ensures !Opens(all[k + 1]) {
        if k > 0 { assert all[k] == rest[k - 1] && all[k + 1] == rest[k]; }
      }
    }
  }

  lemma WholeFirst(p: seq<byte>, rest: seq<byte>)
    requires Whole(p) && p != LONE
    ensures NextLen(p + rest) == |p|
  {
    if |p| > 1 {
      SequenceStable(p, rest);
    } else {
      assert p == [p[0]];
    }
  }

  lemma LoneFirst(rest: seq<byte>)
    ensures NextLen(LONE + rest) == if rest == [] then 0 else if Opens(rest) then NextLen(LONE + rest) else 1
  {
  }

  /** One more piece in front. */
  lemma PieceInFront(p: seq<byte>, rest: seq<seq<byte>>)
    requires Whole(p) && ReadAs(Concat(rest), rest)
    requires p == LONE && rest != [] ==> rest[0] != [] && !Opens(rest[0])
    ensures ReadAs(Concat([p] + rest), [p] + rest)
  {
    hide Tokenise, NextLen;
    var pieces, later := [p] + rest, Concat(rest);
    var s := p + later;
    assert pieces[1..] == rest;
    TokeniseStep(NextLen, s);
    if p == LONE {
      LoneFirst(later);
      if rest == [] {
        assert s == LONE;
      } else {
        assert later == rest[0] + Concat(rest[1..]) && later[0] == rest[0][0];
        assert s[..1] == LONE && s[1..] == later;
      }
    } else {
      WholeFirst(p, later);
      assert s[..|p|] == p && s[|p|..] == later;
    }
    if EndsLone(rest) { assert pieces[..|pieces| - 1] == [p] + rest[..|rest| - 1]; }
  }

  lemma EmptyReadsBack()
    ensures ReadAs([], [])
  {
    NothingLeft();
  }

  lemma {:induction false} AdjacentReadsBack(pieces: seq<seq<byte>>)
    requires AllWhole(pieces) && Adjacent(pieces)
    ensures ReadAs(Concat(pieces), pieces)
  {
    hide Tokenise, NextLen, ReadAs;
    if pieces == [] {
      EmptyReadsBack();
    } else {
      var p, rest := pieces[0], pieces[1..];
      assert pieces == [p] + rest;
      AdjacentReadsBack(rest);
      if p == LONE && rest != [] { assert pieces[0] == LONE && pieces[1] in pieces && Whole(pieces[1]); }
      PieceInFront(p, rest);
    }
  }

  /** Whole pieces written one after the other are read back as they are exactly when no lone `ESC` among
      them closes up with its neighbour. */
  lemma ReadsBackIffAdjacent(pieces: seq<seq<byte>>)
    requires AllWhole(pieces)
    ensures ReadAs(Concat(pieces), pieces) <==> Adjacent(pieces)
  {
    hide Tokenise, NextLen;
    if ReadAs(Concat(pieces), pieces) {
      TokensAdjacent(Concat(pieces));
      if EndsLone(pieces) {
        assert forall k :: 0 <= k < |pieces| - 2 ==> pieces[k] == pieces[..|pieces| - 1][k];
      }
    }
    if Adjacent(pieces) { AdjacentReadsBack(pieces); }
  }

  lemma AdjacentConcat(a: seq<seq<byte>>, b: seq<seq<byte>>)
    ensures Adjacent(a + b) <==> Adjacent(a) && Adjacent(b) && !(EndsLone(a) && b != [] && Opens(b[0]))
  {
    hide Opens;
    var all := a + b;
    assert forall k :: 0 <= k < |a| ==> all[k] == a[k];
    assert forall k :: 0 <= k < |b| ==> all[|a| + k] == b[k];
    if Adjacent(all) {
      forall k | 0 <= k < |b| - 1 && b[k] == LONE ensures !Opens(b[k + 1]) { assert all[|a| + k] == LONE; }
      forall k | 0 <= k < |a| - 1 && a[k] == LONE ensures !Opens(a[k + 1]) { assert all[k] == LONE; }
    }
  }

  ghost predicate NamesInOrder(pieces: seq<seq<byte>>, cells: seq<CellPos>) {
    |pieces| == |cells| && forall k :: 0 <= k < |cells| ==> DeleteCell(pieces[k]) == Some(cells[k])
  }

  lemma {:induction false} DeletePiecesName(cells: seq<CellPos>)
    requires forall c :: c in cells ==> InRange(c)
    ensures NamesInOrder(DeletePieces(cells), cells) && AllWhole(DeletePieces(cells)) && LONE !in DeletePieces(cells)
  {
    hide DeleteBytes, DeleteCell, NextLen;
    if cells == [] {
    } else {
      var front, last := cells[..|cells| - 1], cells[|cells| - 1];
      DeletePiecesName(front);
      DeleteNamesItsCell(last);
      DeleteBytesWhole(last);
    }
  }

  /** A terminal that reads what a delete-all becomes finds one delete for each cell in the list, in order,
      each naming its cell, and nothing else. */
  lemma DeletesAreReadInOrder(cells: seq<CellPos>)
    requires forall c :: c in cells ==> InRange(c)
    ensures var back := Tokenise(NextLen, Deletes(cells)); back.tail == [] && NamesInOrder(back.tokens, cells)
  {
    hide DeletePieces, Deletes, NamesInOrder, Whole, Tokenise, NextLen;
    DeletePiecesAre(cells);
    DeletePiecesName(cells);
    AdjacentReadsBack(DeletePieces(cells));
  }

  // ----- where bytes close up -----

  /** Token `j` is a sequence that leaves nothing on the terminal: a mode, a cursor move, or a delete-all
      with nothing placed. */
  ghost predicate Vanishes(st: State, tokens: seq<seq<byte>>, j: nat)
    requires j < |tokens|
  {
    |tokens[j]| > 1 && RelayToken(RelayAll(st, tokens[..j]).st, tokens[j]).out == []
  }

  /** The `ESC` at `k` and the byte at `m` come to stand side by side. */
  ghost predicate ClosesBetween(st: State, tokens: seq<seq<byte>>, k: int, m: int) {
    && 0 <= k < m < |tokens| && tokens[k] == LONE && Opens(tokens[m])
    && forall j :: k < j < m ==> Vanishes(st, tokens, j)
  }

  ghost predicate ClosesUp(st: State, tokens: seq<seq<byte>>) {
    exists k, m :: ClosesBetween(st, tokens, k, m)
  }

  ghost predicate PendingFrom(st: State, tokens: seq<seq<byte>>, k: nat)
    requires k < |tokens|
  {
    tokens[k] == LONE && forall j :: k < j < |tokens| ==> Vanishes(st, tokens, j)
  }

  /** The last thing on the terminal is a lone `ESC`. */
  ghost predicate LonePending(st: State, tokens: seq<seq<byte>>) {
    exists k :: 0 <= k < |tokens| && PendingFrom(st, tokens, k)
  }

  lemma VanishesNext(st: State, front: seq<seq<byte>>, t: seq<byte>, j: nat)
    requires j <= |front|
    ensures Vanishes(st, front + [t], j) <==>
            if j < |front| then Vanishes(st, front, j)
            else |t| > 1 && RelayToken(RelayAll(st, front).st, t).out == []
  {
    hide RelayToken, RelayAll;
    assert (front + [t])[..j] == front[..j];
    assert front[..|front|] == front;
  }

  lemma PendingNext(st: State, front: seq<seq<byte>>, t: seq<byte>)
    ensures LonePending(st, front + [t]) <==>
            t == LONE || (|t| > 1 && RelayToken(RelayAll(st, front).st, t).out == [] && LonePending(st, front))
  {
    hide RelayToken, RelayAll, Vanishes;
    var all, n := front + [t], |front|;
    forall j | 0 <= j <= n { VanishesNext(st, front, t, j); }
    if t == LONE { assert PendingFrom(st, all, n); }
    if LonePending(st, all) && t != LONE {
      var k :| 0 <= k < |all| && PendingFrom(st, all, k);
      assert k < n && Vanishes(st, all, n) && PendingFrom(st, front, k);
    }
    if LonePending(st, front) && Vanishes(st, all, n) {
      var k :| 0 <= k < n && PendingFrom(st, front, k);
      assert PendingFrom(st, all, k);
    }
  }

  lemma ClosesNext(st: State, front: seq<seq<byte>>, t: seq<byte>)
    ensures ClosesUp(st, front + [t]) <==> ClosesUp(st, front) || (Opens(t) && LonePending(st, front))
  {
    hide RelayToken, RelayAll, Vanishes, Opens;
    var all, n := front + [t], |front|;
    forall j | 0 <= j <= n { VanishesNext(st, front, t, j); }
    if ClosesUp(st, all) {
      var k, m :| ClosesBetween(st, all, k, m);
      if m < n {
        assert ClosesBetween(st, front, k, m);
      } else {
        assert PendingFrom(st, front, k);
      }
    }
    if ClosesUp(st, front) {
      var k, m :| ClosesBetween(st, front, k, m);
      assert ClosesBetween(st, all, k, m);
    }
    if Opens(t) && LonePending(st, front) {
      var k :| 0 <= k < n && PendingFrom(st, front, k);
      assert ClosesBetween(st, all, k, n);
    }
  }

  lemma NoLonePiece(st: State, t: seq<byte>)
    requires t != LONE && CellsInRange(st)
    ensures LONE !in Pieces(st, t)
  {
    hide Classify, DeletePieces, CursorBytes, DeleteBytes, NextLen;
    DeletePiecesAre(st.placed);
    forall c ensures DeleteBytes(c) != LONE { DeleteBytesWhole(c); }
    if st.cursor.Some? { CursorBytesRoundTrip(st.cursor.value); }
  }

  lemma SequenceOpensNothing(p: seq<byte>)
    requires Whole(p) && |p| > 1
    ensures p[0] == ESC && !Opens(p)
  {
  }

  lemma OnePiece(st: State, t: seq<byte>)
    requires |t| == 1
    ensures Pieces(st, t) == [t] && RelayToken(st, t).out == t
  {
  }

  lemma CursorBytesLong(c: CellPos)
    ensures |CursorBytes(c)| > 1
  {
  }

  lemma SequencePieces(st: State, t: seq<byte>)
    requires |t| > 1
    ensures forall p :: p in Pieces(st, t) ==> |p| > 1
  {
    hide Classify, DeletePieces, CursorBytes, DeleteBytes, NextLen;
    DeletePiecesAre(st.placed);
    forall c ensures |DeleteBytes(c)| > 1 { DeleteBytesWhole(c); }
    forall c ensures |CursorBytes(c)| > 1 { CursorBytesLong(c); }
  }

  /** What one token adds at the seam. */
  lemma PiecesAtSeam(st: State, t: seq<byte>)
    requires Whole(t) && CellsInRange(st)
    ensures var ps := Pieces(st, t);
            Adjacent(ps) && (ps == [] <==> |t| > 1 && RelayToken(st, t).out == []) &&
            (EndsLone(ps) <==> t == LONE) && (ps != [] ==> (Opens(ps[0]) <==> Opens(t))) &&
            (|t| > 1 ==> !Opens(t))
  {
    hide Classify, DeletePieces, CursorBytes, DeleteBytes, NextLen, Opens, RelayToken, Pieces;
    var ps := Pieces(st, t);
    PiecesAre(st, t);
    PiecesClean(st, t);
    if |t| == 1 {
      OnePiece(st, t);
    } else {
      NoLonePiece(st, t);
      SequenceOpensNothing(t);
      if ps != [] {
        assert ps[0] in ps;
        SequencePieces(st, t);
        SequenceOpensNothing(ps[0]);
        assert Concat(ps) == ps[0] + Concat(ps[1..]);
      }
    }
  }

  lemma LoneIsNotLong(t: seq<byte>)
    ensures t == LONE ==> |t| == 1
  {
  }

  lemma NothingCloses(st: State)
    ensures AllPieces(st, []) == [] && Adjacent([]) && !ClosesUp(st, []) && !LonePending(st, [])
  {
  }

  /** The pieces of a read close up exactly where its tokens do. */
  lemma {:induction false} AdjacentIffNotClosing(st: State, tokens: seq<seq<byte>>)
    requires CellsInRange(st) && AllWhole(tokens)
    ensures Adjacent(AllPieces(st, tokens)) <==> !ClosesUp(st, tokens)
    ensures EndsLone(AllPieces(st, tokens)) <==> LonePending(st, tokens)
  {
    hide Pieces, RelayToken, RelayAll, Whole, CellsInRange, Opens, Adjacent, LonePending, ClosesUp;
    if tokens == [] {
      NothingCloses(st);
    } else {
      var front, t := tokens[..|tokens| - 1], tokens[|tokens| - 1];
      assert tokens == front + [t];
      AdjacentIffNotClosing(st, front);
      var before := RelayAll(st, front).st;
      AllCellsInRange(st, front);
      ClosesNext(st, front, t);
      PendingNext(st, front, t);
      PiecesAtSeam(before, t);
      var a, ps := AllPieces(st, front), Pieces(before, t);
      AdjacentConcat(a, ps);
      if ps == [] { assert a + ps == a; }
      LoneIsNotLong(t);
    }
  }

  lemma CleanIsWhole(pieces: seq<seq<byte>>)
    requires forall p :: p in pieces ==> Clean(p)
    ensures AllWhole(pieces)
  {
  }

  /** What one read puts out is read back, exactly when its tokens do not close up, as the pieces the relay
      meant. */
  lemma OutputReadsBackIff(st: State, tokens: seq<seq<byte>>)
    requires CellsInRange(st) && AllWhole(tokens)
    ensures ReadAs(RelayAll(st, tokens).out, AllPieces(st, tokens)) <==> !ClosesUp(st, tokens)
  {
    hide RelayAll, AllPieces, ReadAs, ClosesUp, Adjacent, CellsInRange, Whole;
    OutputIsCleanPieces(st, tokens);
    CleanIsWhole(AllPieces(st, tokens));
    ReadsBackIffAdjacent(AllPieces(st, tokens));
    AdjacentIffNotClosing(st, tokens);
  }

  // ----- the writes of a run -----

  /** The pieces of one write: the cursor saved, what the relay meant, the cursor restored. */
  function Framed(pieces: seq<seq<byte>>): seq<seq<byte>> {
    if pieces == [] then [] else [LONE, [0x37]] + pieces + [LONE, [0x38]]
  }

  /** All that these reads put on the terminal. */
  function Writes(f: Filter, chunks: seq<seq<byte>>): seq<byte> {
    if chunks == [] then []
    else
      var front := chunks[..|chunks| - 1];
      Writes(f, front) + Wrapped(FeedResult(After(f, front), chunks[|chunks| - 1]).raw)
  }

  /** What read `i` finds, and in which state. */
  function ReadAt(f: Filter, chunks: seq<seq<byte>>, i: nat): Scanned
    requires i < |chunks|
  {
    Tokenise(NextLen, After(f, chunks[..i]).held + chunks[i])
  }

  function StateAt(f: Filter, chunks: seq<seq<byte>>, i: nat): State
    requires i < |chunks|
  {
    After(f, chunks[..i]).st
  }

  function WritePieces(f: Filter, chunks: seq<seq<byte>>): seq<seq<byte>> {
    if chunks == [] then []
    else
      var n := |chunks| - 1;
      WritePieces(f, chunks[..n]) + Framed(AllPieces(StateAt(f, chunks, n), ReadAt(f, chunks, n).tokens))
  }

  /** No read leaves a sequence past the cap unfinished. */
  ghost predicate ReadsFit(f: Filter, chunks: seq<seq<byte>>) {
    forall i :: 0 <= i < |chunks| ==> |ReadAt(f, chunks, i).tail| <= 8388608
  }

  /** Read `i` closes up. */
  ghost predicate ClosesAt(f: Filter, chunks: seq<seq<byte>>, i: nat)
    requires i < |chunks|
  {
    ClosesUp(StateAt(f, chunks, i), ReadAt(f, chunks, i).tokens)
  }

  ghost predicate NoReadCloses(f: Filter, chunks: seq<seq<byte>>) {
    forall i :: 0 <= i < |chunks| ==> !ClosesAt(f, chunks, i)
  }

  lemma ReadFront(f: Filter, chunks: seq<seq<byte>>, n: nat, i: nat)
    requires i < n <= |chunks|
    ensures ReadAt(f, chunks[..n], i) == ReadAt(f, chunks, i) && StateAt(f, chunks[..n], i) == StateAt(f, chunks, i)
  {
    hide After, Tokenise;
    assert chunks[..n][..i] == chunks[..i];
  }

  lemma NoReadClosesNext(f: Filter, chunks: seq<seq<byte>>)
    requires chunks != []
    ensures var n := |chunks| - 1; NoReadCloses(f, chunks) <==> NoReadCloses(f, chunks[..n]) && !ClosesAt(f, chunks, n)
  {
    hide ReadAt, StateAt, ClosesUp;
    var n := |chunks| - 1;
    forall i | 0 <= i < n ensures ClosesAt(f, chunks[..n], i) <==> ClosesAt(f, chunks, i) { ReadFront(f, chunks, n, i); }
  }

  lemma ReadsFitFront(f: Filter, chunks: seq<seq<byte>>, n: nat)
    requires ReadsFit(f, chunks) && n <= |chunks|
    ensures ReadsFit(f, chunks[..n])
  {
    hide ReadAt;
    forall i | 0 <= i < n { ReadFront(f, chunks, n, i); }
  }

  /** What one feed hands to the terminal: clean pieces, and behind them, past the cap only, a sequence that
      is not finished. */
  lemma FeedIsCleanPieces(f: Filter, input: seq<byte>)
    requires CellsInRange(f.st)
    ensures var scanned := Tokenise(NextLen, f.held + input);
            var pieces := AllPieces(f.st, scanned.tokens);
            (forall p :: p in pieces ==> Clean(p)) && NextLen(scanned.tail) == 0 && AllWhole(scanned.tokens) &&
            FeedResult(f, input).raw ==
            Concat(pieces) + (if |scanned.tail| > 8388608 then scanned.tail else []) &&
            CellsInRange(FeedResult(f, input).filter.st)
  {
    hide Tokenise, NextLen, RelayAll, AllPieces, Clean, CellsInRange, Whole;
    var scanned := Tokenise(NextLen, f.held + input);
    TokensWhole(f.held + input);
    OutputIsCleanPieces(f.st, scanned.tokens);
    AllCellsInRange(f.st, scanned.tokens);
    NextLenStable();
    TailIsUnfinished(NextLen, f.held + input);
    var raw := RelayAll(f.st, scanned.tokens).out;
    assert raw + [] == raw;
  }

  lemma ConcatNothing()
    ensures Concat<byte>([]) == []
  {
  }

  lemma ConcatTwo(a: seq<byte>, b: seq<byte>)
    ensures Concat([a, b]) == a + b
  {
    assert [a, b][1..] == [b];
    ConcatOne(b);
  }

  lemma ConcatStarts(pieces: seq<seq<byte>>)
    requires pieces != [] && AllWhole(pieces)
    ensures Concat(pieces) != []
  {
    assert pieces[0] in pieces;
  }

  lemma FramedIsWrapped(pieces: seq<seq<byte>>)
    requires AllWhole(pieces)
    ensures Concat(Framed(pieces)) == Wrapped(Concat(pieces))
  {
    hide Concat, NextLen;
    if pieces == [] {
      ConcatNothing();
    } else {
      ConcatConcat([LONE, [0x37]] + pieces, [LONE, [0x38]]);
      ConcatConcat([LONE, [0x37]], pieces);
      ConcatTwo(LONE, [0x37]);
      ConcatTwo(LONE, [0x38]);
      ConcatStarts(pieces);
      assert LONE + [0x37] == SAVE_CURSOR && LONE + [0x38] == RESTORE_CURSOR;
    }
  }

  lemma NoneAdjacent()
    ensures Adjacent([])
  {
  }

  lemma AroundAdjacent()
    ensures Adjacent([LONE, [0x37]]) && Adjacent([LONE, [0x38]])
    ensures !EndsLone([LONE, [0x37]]) && !Opens(LONE)
  {
  }

  lemma FramedAdjacent(before: seq<seq<byte>>, pieces: seq<seq<byte>>)
    requires !EndsLone(before)
    ensures Adjacent(before + Framed(pieces)) <==> Adjacent(before) && Adjacent(pieces)
    ensures !EndsLone(before + Framed(pieces))
  {
    hide Adjacent;
    AdjacentConcat(before, Framed(pieces));
    if pieces == [] {
      NoneAdjacent();
      assert before + Framed(pieces) == before;
    } else {
      AdjacentConcat([LONE, [0x37]] + pieces, [LONE, [0x38]]);
      AdjacentConcat([LONE, [0x37]], pieces);
      AroundAdjacent();
    }
  }

  lemma FramedClean(pieces: seq<seq<byte>>)
    requires forall p :: p in pieces ==> Clean(p)
    ensures forall p :: p in Framed(pieces) ==> Clean(p)
  {
    hide NextLen, Classify;
  }

  /** Every write of a run is clean pieces, and together they are what the terminal gets. */
  lemma {:induction false} WritesAreCleanPieces(f: Filter, chunks: seq<seq<byte>>)
    requires CellsInRange(f.st) && ReadsFit(f, chunks)
    ensures Writes(f, chunks) == Concat(WritePieces(f, chunks)) && CellsInRange(After(f, chunks).st)
    ensures forall p :: p in WritePieces(f, chunks) ==> Clean(p)
    decreases |chunks|
  {
    hide Tokenise, NextLen, AllPieces, CellsInRange, Framed, Wrapped, FeedResult, Clean, Concat;
    if chunks == [] {
      ConcatNothing();
    } else {
      var n := |chunks| - 1;
      var front, g := chunks[..n], After(f, chunks[..n]);
      ReadsFitFront(f, chunks, n);
      WritesAreCleanPieces(f, front);
      FeedIsCleanPieces(g, chunks[n]);
      var pieces := AllPieces(g.st, ReadAt(f, chunks, n).tokens);
      assert Concat(pieces) + [] == Concat(pieces);
      CleanIsWhole(pieces);
      FramedIsWrapped(pieces);
      FramedClean(pieces);
      ConcatConcat(WritePieces(f, front), Framed(pieces));
    }
  }

  lemma NoReads(f: Filter)
    ensures NoReadCloses(f, []) && !EndsLone([])
  {
  }

  lemma ReadIsWhole(f: Filter, chunks: seq<seq<byte>>, n: nat)
    requires n < |chunks| && CellsInRange(After(f, chunks[..n]).st)
    ensures AllWhole(ReadAt(f, chunks, n).tokens) && Adjacent(ReadAt(f, chunks, n).tokens)
    ensures CellsInRange(StateAt(f, chunks, n))
  {
    hide Tokenise, NextLen, CellsInRange, Adjacent, Whole;
    TokensWhole(After(f, chunks[..n]).held + chunks[n]);
    TokensAdjacent(After(f, chunks[..n]).held + chunks[n]);
  }

  lemma {:induction false} WritesAdjacentIff(f: Filter, chunks: seq<seq<byte>>)
    requires CellsInRange(f.st) && ReadsFit(f, chunks)
    ensures Adjacent(WritePieces(f, chunks)) <==> NoReadCloses(f, chunks)
    ensures !EndsLone(WritePieces(f, chunks))
    decreases |chunks|
  {
    hide Tokenise, NextLen, AllPieces, CellsInRange, Framed, FeedResult, Adjacent, ClosesUp, Whole, Clean, ReadAt, StateAt;
    hide NoReadCloses, EndsLone, ReadsFit;
    if chunks == [] {
      NoneAdjacent();
      NoReads(f);
    } else {
      var n := |chunks| - 1;
      var front := chunks[..n];
      ReadsFitFront(f, chunks, n);
      WritesAdjacentIff(f, front);
      WritesAreCleanPieces(f, front);
      ReadIsWhole(f, chunks, n);
      AdjacentIffNotClosing(StateAt(f, chunks, n), ReadAt(f, chunks, n).tokens);
      FramedAdjacent(WritePieces(f, front), AllPieces(StateAt(f, chunks, n), ReadAt(f, chunks, n).tokens));
      NoReadClosesNext(f, chunks);
    }
  }

  /** However a stream is cut within the cap, the terminal reads exactly the pieces the relay meant, write by
      write, if and only if no single read closes up. Between reads the cursor save keeps bytes apart. */
  lemma WritesReadBackIff(f: Filter, chunks: seq<seq<byte>>)
    requires CellsInRange(f.st) && ReadsFit(f, chunks)
    ensures ReadAs(Writes(f, chunks), WritePieces(f, chunks)) <==> NoReadCloses(f, chunks)
  {
    hide WritePieces, Writes, ReadAs, Adjacent, NoReadCloses, ReadAt, StateAt, ReadsFit, CellsInRange, Whole, Clean;
    WritesAreCleanPieces(f, chunks);
    CleanIsWhole(WritePieces(f, chunks));
    ReadsBackIffAdjacent(WritePieces(f, chunks));
    WritesAdjacentIff(f, chunks);
  }

  // ----- no mode reaches the terminal -----

  ghost predicate ReadsClean(bytes: seq<byte>) {
    forall t :: t in Tokenise(NextLen, bytes).tokens ==> Clean(t)
  }

  lemma PiecesReadClean(pieces: seq<seq<byte>>)
    requires Adjacent(pieces) && forall p :: p in pieces ==> Clean(p)
    ensures ReadsClean(Concat(pieces))
  {
    hide Tokenise, NextLen, Adjacent, Clean, Whole;
    CleanIsWhole(pieces);
    AdjacentReadsBack(pieces);
  }

  /** A lone `ESC` directly in front of a sequence that leaves nothing. */
  ghost predicate LooseAt(st: State, tokens: seq<seq<byte>>, k: int) {
    0 <= k < |tokens| - 1 && tokens[k] == LONE && Vanishes(st, tokens, k + 1)
  }

  ghost predicate Loose(st: State, tokens: seq<seq<byte>>) { exists k :: LooseAt(st, tokens, k) }

  /** The tokens of plain bytes. */
  function Singles(b: seq<byte>): (r: seq<seq<byte>>)
    ensures |r| == |b| && forall i :: 0 <= i < |b| ==> r[i] == [b[i]]
  {
    seq(|b|, i requires 0 <= i < |b| => [b[i]])
  }

  /** What the read with these tokens might have been: it stops at one of its token boundaries and goes on
      with plain bytes, which complete nothing in front of them. */
  ghost predicate Branch(tokens: seq<seq<byte>>, n: nat, b: seq<byte>) {
    n <= |tokens| && Plain(b) && Adjacent(tokens[..n] + Singles(b))
  }

  lemma VanishesFront(st: State, tokens: seq<seq<byte>>, more: seq<seq<byte>>, n: nat, j: nat)
    requires j < n <= |tokens|
    ensures Vanishes(st, tokens[..n] + more, j) <==> Vanishes(st, tokens, j)
  {
    hide RelayAll, RelayToken;
    assert (tokens[..n] + more)[..j] == tokens[..j];
  }

  lemma LongIsSequence(st: State, tokens: seq<seq<byte>>, j: nat)
    requires j < |tokens| && Vanishes(st, tokens, j)
    ensures |tokens[j]| > 1
  {
  }

  /** A branch of a read closes up only where the read itself is loose. */
  lemma ClosingIsLoose(st: State, tokens: seq<seq<byte>>, n: nat, b: seq<byte>)
    requires Branch(tokens, n, b)
    ensures ClosesUp(st, tokens[..n] + Singles(b)) ==> Loose(st, tokens)
  {
    hide Vanishes, Opens;
    var all := tokens[..n] + Singles(b);
    if ClosesUp(st, all) {
      var k, m :| ClosesBetween(st, all, k, m);
      assert m != k + 1;
      assert Vanishes(st, all, k + 1);
      LongIsSequence(st, all, k + 1);
      assert k + 1 < n;
      VanishesFront(st, tokens, Singles(b), n, k + 1);
      assert LooseAt(st, tokens, k);
    }
  }

  lemma {:induction false} SinglesRelay(st: State, b: seq<byte>)
    ensures RelayAll(st, Singles(b)) == Relayed(st, b)
  {
    hide RelayAll;
    if b == [] {
      RelayNothing(st);
    } else {
      var front, last := b[..|b| - 1], b[|b| - 1];
      SinglesRelay(st, front);
      assert Singles(b) == Singles(front) + [[last]];
      RelayByte(st, Singles(front), last);
      assert b == front + [last];
    }
  }

  lemma LoneAndRest(out: seq<byte>)
    ensures out + LONE + [] + MODE_WRITE[1..] == out + MODE_WRITE
  {
    assert MODE_WRITE == LONE + MODE_WRITE[1..];
  }

  /** At the first loose place the continuation that spells out a mode write makes one. */
  lemma LooseOutput(st: State, tokens: seq<seq<byte>>, k: nat)
    requires LooseAt(st, tokens, k)
    ensures RelayAll(st, tokens[..k + 2] + Singles(MODE_WRITE[1..])).out == RelayAll(st, tokens[..k]).out + MODE_WRITE
  {
    hide RelayAll, RelayToken;
    var before, t := RelayAll(st, tokens[..k]), tokens[k + 1];
    assert tokens[..k + 1] == tokens[..k] + [LONE] && tokens[..k + 2] == tokens[..k + 1] + [t];
    RelayByte(st, tokens[..k], ESC);
    RelayAllConcat(st, tokens[..k + 1], [t]);
    RelayOne(RelayAll(st, tokens[..k + 1]).st, t);
    RelayAllConcat(st, tokens[..k + 2], Singles(MODE_WRITE[1..]));
    SinglesRelay(RelayAll(st, tokens[..k + 2]).st, MODE_WRITE[1..]);
    LoneAndRest(before.out);
  }

  lemma LooseBranch(st: State, tokens: seq<seq<byte>>, k: nat)
    requires LooseAt(st, tokens, k) && Adjacent(tokens)
    ensures Branch(tokens, k + 2, MODE_WRITE[1..])
  {
    hide RelayAll, RelayToken;
    var a, b := tokens[..k + 2], Singles(MODE_WRITE[1..]);
    AdjacentConcat(a, b);
    assert forall x :: 0 <= x < k + 2 ==> a[x] == tokens[x];
    assert |a[k + 1]| > 1;
    assert forall x :: 0 <= x < |b| ==> b[x] != LONE by { assert Plain(MODE_WRITE[1..]); }
  }

  lemma LooseFront(st: State, tokens: seq<seq<byte>>, k: nat, x: int)
    requires k <= |tokens|
    ensures LooseAt(st, tokens[..k], x) ==> LooseAt(st, tokens, x) && x < k
  {
    hide Vanishes;
    if 0 <= x < k - 1 {
      VanishesFront(st, tokens, [], k, x + 1);
      assert tokens[..k] + [] == tokens[..k];
    }
  }

  lemma FirstLoose(st: State, tokens: seq<seq<byte>>) returns (k: nat)
    requires Loose(st, tokens)
    ensures LooseAt(st, tokens, k) && !Loose(st, tokens[..k])
  {
    hide Vanishes;
    k := 0;
    while !LooseAt(st, tokens, k)
      invariant forall x :: 0 <= x < k ==> !LooseAt(st, tokens, x)
      decreases |tokens| - k
    {
      var some :| LooseAt(st, tokens, some);
      assert some >= k;
      k := k + 1;
    }
    forall x { LooseFront(st, tokens, k, x); }
  }

  /** Read `i` is loose. */
  ghost predicate LooseRead(f: Filter, chunks: seq<seq<byte>>, i: nat)
    requires i < |chunks|
  {
    Loose(StateAt(f, chunks, i), ReadAt(f, chunks, i).tokens)
  }

  /** What the terminal gets when read `i` takes the branch. */
  function BranchWrites(f: Filter, chunks: seq<seq<byte>>, i: nat, n: nat, b: seq<byte>): seq<byte>
    requires i < |chunks| && n <= |ReadAt(f, chunks, i).tokens|
  {
    Writes(f, chunks[..i]) + Wrapped(RelayAll(StateAt(f, chunks, i), ReadAt(f, chunks, i).tokens[..n] + Singles(b)).out)
  }

  /** A read that takes the branch: its bytes, behind those held, are the bytes of the branch's tokens. A lone
      `ESC` at the end would be held, and is left to the branches that go on. */
  ghost predicate BranchRead(f: Filter, chunks: seq<seq<byte>>, i: nat, n: nat, b: seq<byte>, input: seq<byte>)
    requires i < |chunks|
  {
    var tokens := ReadAt(f, chunks, i).tokens;
    && Branch(tokens, n, b)
    && !EndsLone(tokens[..n] + Singles(b))
    && After(f, chunks[..i]).held + input == Concat(tokens[..n] + Singles(b))
  }

  /** Had read `i` been any of its branches, the terminal would have read no mode and no delete-all. */
  ghost predicate BranchesClean(f: Filter, chunks: seq<seq<byte>>, i: nat)
    requires i < |chunks|
  {
    forall n: nat, b, input :: BranchRead(f, chunks, i, n, b, input) ==> ReadsClean(Writes(f, chunks[..i] + [input]))
  }

  /** A feed of the bytes of whole tokens relays those tokens. */
  lemma FeedOfTokens(f: Filter, input: seq<byte>, all: seq<seq<byte>>)
    requires f.held + input == Concat(all) && AllWhole(all) && Adjacent(all) && !EndsLone(all)
    ensures FeedResult(f, input).raw == RelayAll(f.st, all).out
  {
    hide Tokenise, NextLen, RelayAll, Concat, Adjacent, Whole;
    AdjacentReadsBack(all);
  }

  lemma SinglesWhole(b: seq<byte>)
    ensures AllWhole(Singles(b))
  {
  }

  lemma RunInRange(f: Filter, chunks: seq<seq<byte>>, i: nat)
    requires CellsInRange(f.st) && ReadsFit(f, chunks) && i <= |chunks|
    ensures CellsInRange(After(f, chunks[..i]).st)
  {
    hide CellsInRange, ReadsFit;
    ReadsFitFront(f, chunks, i);
    WritesAreCleanPieces(f, chunks[..i]);
  }

  lemma BranchWritten(f: Filter, chunks: seq<seq<byte>>, i: nat, n: nat, b: seq<byte>, input: seq<byte>)
    requires CellsInRange(f.st) && ReadsFit(f, chunks) && i < |chunks| && BranchRead(f, chunks, i, n, b, input)
    ensures n <= |ReadAt(f, chunks, i).tokens|
    ensures Writes(f, chunks[..i] + [input]) == BranchWrites(f, chunks, i, n, b)
  {
    hide ReadsFit, CellsInRange, RelayAll, Whole, FeedResult, Adjacent, EndsLone, Wrapped, ReadAt;
    var front := chunks[..i];
    RunInRange(f, chunks, i);
    ReadIsWhole(f, chunks, i);
    SinglesWhole(b);
    FeedOfTokens(After(f, front), input, ReadAt(f, chunks, i).tokens[..n] + Singles(b));
    assert (front + [input])[..i] == front && |front + [input]| == i + 1;
  }

  /** A token that a held beginning grows into is no shorter than it. */
  lemma HeldIsShorter(held: seq<byte>, more: seq<byte>)
    requires NextLen(held) == 0 && NextLen(held + more) > 0
    ensures |held| <= NextLen(held + more)
  {
    if |held| > 1 {
      var s := held + more;
      if held[1] == BRACKET {
        assert forall x :: 2 <= x < |held| ==> s[x] == held[x] && !IsFinal(held[x]);
      } else {
        assert forall x :: 2 <= x < |held| - 1 ==> IsTerminator(s, x) == IsTerminator(held, x);
      }
    }
  }

  lemma NoTokenInNothing()
    ensures NextLen([]) == 0
  {
  }

  lemma {:induction false} HeldIsUnread(f: Filter, chunks: seq<seq<byte>>)
    requires NextLen(f.held) == 0
    ensures NextLen(After(f, chunks).held) == 0
    decreases |chunks|
  {
    hide NextLen, Tokenise, RelayAll;
    if chunks == [] {
    } else {
      var g := After(f, chunks[..|chunks| - 1]);
      NextLenStable();
      TailIsUnfinished(NextLen, g.held + chunks[|chunks| - 1]);
      NoTokenInNothing();
    }
  }

  /** What is held is the beginning of the first token the next read finds. */
  lemma HeldIsPrefix(held: seq<byte>, more: seq<byte>)
    requires NextLen(held) == 0 && Tokenise(NextLen, held + more).tokens != []
    ensures held <= Tokenise(NextLen, held + more).tokens[0]
  {
    hide NextLen, Tokenise;
    TokeniseStep(NextLen, held + more);
    HeldIsShorter(held, more);
    assert held == (held + more)[..|held|];
  }

  lemma FirstIsPrefix(tokens: seq<seq<byte>>, n: nat, more: seq<seq<byte>>)
    requires 0 < n <= |tokens|
    ensures tokens[0] <= Concat(tokens[..n] + more)
  {
    var all := tokens[..n] + more;
    assert all[0] == tokens[0] && Concat(all) == all[0] + Concat(all[1..]);
  }

  lemma PrefixRest(a: seq<byte>, b: seq<byte>, c: seq<byte>)
    requires a <= b <= c
    ensures a + c[|a|..] == c
  {
  }

  /** Every branch of some tokens is a read that could have come. */
  lemma BranchComes(f: Filter, chunks: seq<seq<byte>>, i: nat, n: nat, b: seq<byte>) returns (input: seq<byte>)
    requires NextLen(f.held) == 0 && i < |chunks| && 0 < n && Branch(ReadAt(f, chunks, i).tokens, n, b)
    requires !EndsLone(ReadAt(f, chunks, i).tokens[..n] + Singles(b))
    ensures BranchRead(f, chunks, i, n, b, input)
  {
    hide NextLen, Tokenise, Concat, Adjacent, Plain, EndsLone;
    var held, tokens := After(f, chunks[..i]).held, ReadAt(f, chunks, i).tokens;
    HeldIsUnread(f, chunks[..i]);
    HeldIsPrefix(held, chunks[i]);
    FirstIsPrefix(tokens, n, Singles(b));
    var all := Concat(tokens[..n] + Singles(b));
    input := all[|held|..];
    PrefixRest(held, tokens[0], all);
  }

  lemma WholeBranch(tokens: seq<seq<byte>>)
    requires Adjacent(tokens)
    ensures Branch(tokens, |tokens|, []) && tokens[..|tokens|] + Singles([]) == tokens
  {
    assert tokens[..|tokens|] + Singles([]) == tokens;
  }

  lemma TightReadNeverCloses(f: Filter, chunks: seq<seq<byte>>, x: nat)
    requires CellsInRange(f.st) && ReadsFit(f, chunks) && x < |chunks| && !LooseRead(f, chunks, x)
    ensures !ClosesAt(f, chunks, x)
  {
    hide CellsInRange, ReadsFit, Adjacent, Whole, Loose, ClosesUp, StateAt, ReadAt;
    RunInRange(f, chunks, x);
    ReadIsWhole(f, chunks, x);
    WholeBranch(ReadAt(f, chunks, x).tokens);
    ClosingIsLoose(StateAt(f, chunks, x), ReadAt(f, chunks, x).tokens, |ReadAt(f, chunks, x).tokens|, []);
  }

  lemma TightReadsNeverClose(f: Filter, chunks: seq<seq<byte>>, i: nat)
    requires CellsInRange(f.st) && ReadsFit(f, chunks) && i <= |chunks|
    requires forall x :: 0 <= x < i ==> !LooseRead(f, chunks, x)
    ensures NoReadCloses(f, chunks[..i])
  {
    hide CellsInRange, ReadsFit, LooseRead, StateAt, ReadAt, ClosesUp;
    forall x | 0 <= x < i ensures !ClosesAt(f, chunks[..i], x) {
      ReadFront(f, chunks, i, x);
      TightReadNeverCloses(f, chunks, x);
    }
  }

  /** One more write behind those of the first `i` reads. */
  lemma WriteBehind(f: Filter, chunks: seq<seq<byte>>, i: nat, pieces: seq<seq<byte>>)
    requires CellsInRange(f.st) && ReadsFit(f, chunks) && i <= |chunks|
    requires forall x :: 0 <= x < i ==> !LooseRead(f, chunks, x)
    requires AllWhole(pieces) && Adjacent(pieces)
    ensures var all := WritePieces(f, chunks[..i]) + Framed(pieces);
            Writes(f, chunks[..i]) + Wrapped(Concat(pieces)) == Concat(all) && Adjacent(all) &&
            forall p :: p in WritePieces(f, chunks[..i]) ==> Clean(p)
  {
    hide WritePieces, Writes, Framed, Wrapped, Adjacent, NoReadCloses, LooseRead, CellsInRange, Whole, Clean, Concat;
    hide ReadsFit, EndsLone;
    var front := chunks[..i];
    ReadsFitFront(f, chunks, i);
    WritesAreCleanPieces(f, front);
    WritesAdjacentIff(f, front);
    TightReadsNeverClose(f, chunks, i);
    FramedIsWrapped(pieces);
    ConcatConcat(WritePieces(f, front), Framed(pieces));
    FramedAdjacent(WritePieces(f, front), pieces);
  }

  /** What a branch of a tight read puts out. */
  lemma TightPieces(st: State, tokens: seq<seq<byte>>, n: nat, b: seq<byte>)
    requires CellsInRange(st) && AllWhole(tokens) && !Loose(st, tokens) && Branch(tokens, n, b)
    ensures var all := tokens[..n] + Singles(b);
            RelayAll(st, all).out == Concat(AllPieces(st, all)) && Adjacent(AllPieces(st, all)) &&
            forall p :: p in AllPieces(st, all) ==> Clean(p)
  {
    hide Adjacent, ClosesUp, CellsInRange, Whole, Clean, Loose, Concat, RelayAll, AllPieces;
    var all := tokens[..n] + Singles(b);
    SinglesWhole(b);
    OutputIsCleanPieces(st, all);
    ClosingIsLoose(st, tokens, n, b);
    AdjacentIffNotClosing(st, all);
  }

  lemma TightBranchClean(f: Filter, chunks: seq<seq<byte>>, i: nat, n: nat, b: seq<byte>)
    requires CellsInRange(f.st) && ReadsFit(f, chunks) && i < |chunks|
    requires forall x :: 0 <= x <= i ==> !LooseRead(f, chunks, x)
    requires Branch(ReadAt(f, chunks, i).tokens, n, b)
    ensures ReadsClean(BranchWrites(f, chunks, i, n, b))
  {
    hide Writes, WritePieces, Framed, Wrapped, Adjacent, ReadAt, StateAt, CellsInRange, Whole, Clean, Loose, Concat;
    hide ReadsFit, RelayAll, AllPieces, ReadsClean, Plain;
    var st, tokens := StateAt(f, chunks, i), ReadAt(f, chunks, i).tokens;
    RunInRange(f, chunks, i);
    ReadIsWhole(f, chunks, i);
    assert !LooseRead(f, chunks, i);
    TightPieces(st, tokens, n, b);
    var pieces := AllPieces(st, tokens[..n] + Singles(b));
    CleanIsWhole(pieces);
    WriteBehind(f, chunks, i, pieces);
    FramedClean(pieces);
    PiecesReadClean(WritePieces(f, chunks[..i]) + Framed(pieces));
  }

  lemma ModeWriteWhole()
    ensures Whole(MODE_WRITE) && !Clean(MODE_WRITE) && !Opens(MODE_WRITE) && MODE_WRITE != LONE
  {
    ModeWriteIsMode();
    ModeWriteFirst([]);
    assert MODE_WRITE + [] == MODE_WRITE;
  }

  lemma TightPrefix(st: State, tokens: seq<seq<byte>>, k: nat)
    requires CellsInRange(st) && AllWhole(tokens) && Adjacent(tokens) && k <= |tokens| && !Loose(st, tokens[..k])
    ensures var pieces := AllPieces(st, tokens[..k]);
            RelayAll(st, tokens[..k]).out == Concat(pieces) && Adjacent(pieces) && AllWhole(pieces)
  {
    hide AllPieces, RelayAll, Whole, Clean, CellsInRange, Loose, Concat;
    var front := tokens[..k];
    assert forall x :: 0 <= x < k ==> front[x] == tokens[x];
    WholeBranch(front);
    TightPieces(st, front, k, []);
    CleanIsWhole(AllPieces(st, front));
  }

  lemma AppendMode(pieces: seq<seq<byte>>)
    requires AllWhole(pieces) && Adjacent(pieces)
    ensures AllWhole(pieces + [MODE_WRITE]) && Adjacent(pieces + [MODE_WRITE])
    ensures Concat(pieces + [MODE_WRITE]) == Concat(pieces) + MODE_WRITE
  {
    hide Whole, Opens, Concat;
    ModeWriteWhole();
    AdjacentConcat(pieces, [MODE_WRITE]);
    ConcatConcat(pieces, [MODE_WRITE]);
    ConcatOne(MODE_WRITE);
  }

  lemma ModeIsRead(before: seq<seq<byte>>, pieces: seq<seq<byte>>)
    requires AllWhole(before) && AllWhole(pieces + [MODE_WRITE]) && Adjacent(before + Framed(pieces + [MODE_WRITE]))
    ensures !ReadsClean(Concat(before + Framed(pieces + [MODE_WRITE])))
  {
    hide Tokenise, NextLen, Adjacent, Concat, Clean;
    var all := before + Framed(pieces + [MODE_WRITE]);
    AdjacentReadsBack(all);
    ModeWriteWhole();
    var at := |before| + 2 + |pieces|;
    assert all[at] == MODE_WRITE && at < |all| - 1;
  }

  lemma LooseBranchDirty(f: Filter, chunks: seq<seq<byte>>, i: nat, k: nat)
    requires CellsInRange(f.st) && ReadsFit(f, chunks) && i < |chunks|
    requires forall x :: 0 <= x < i ==> !LooseRead(f, chunks, x)
    requires LooseAt(StateAt(f, chunks, i), ReadAt(f, chunks, i).tokens, k)
    requires !Loose(StateAt(f, chunks, i), ReadAt(f, chunks, i).tokens[..k])
    ensures !ReadsClean(BranchWrites(f, chunks, i, k + 2, MODE_WRITE[1..]))
  {
    hide Writes, WritePieces, Framed, Wrapped, Adjacent, ClosesUp, ReadAt, StateAt, CellsInRange, Whole, Clean, Loose, Concat;
    hide ReadsFit, RelayAll, AllPieces, ReadsClean, Vanishes;
    var st, tokens := StateAt(f, chunks, i), ReadAt(f, chunks, i).tokens;
    RunInRange(f, chunks, i);
    ReadIsWhole(f, chunks, i);
    LooseBranch(st, tokens, k);
    LooseOutput(st, tokens, k);
    TightPrefix(st, tokens, k);
    var pieces := AllPieces(st, tokens[..k]);
    ModeWriteWhole();
    AppendMode(pieces);
    WriteBehind(f, chunks, i, pieces + [MODE_WRITE]);
    var all := WritePieces(f, chunks[..i]) + Framed(pieces + [MODE_WRITE]);
    CleanIsWhole(WritePieces(f, chunks[..i]));
    ModeIsRead(WritePieces(f, chunks[..i]), pieces);
    assert BranchWrites(f, chunks, i, k + 2, MODE_WRITE[1..]) == Concat(all);
  }

  lemma FirstLooseRead(f: Filter, chunks: seq<seq<byte>>) returns (i: nat)
    requires exists x :: 0 <= x < |chunks| && LooseRead(f, chunks, x)
    ensures i < |chunks| && LooseRead(f, chunks, i)
    ensures forall x :: 0 <= x < i ==> !LooseRead(f, chunks, x)
  {
    hide LooseRead;
    i := 0;
    while !LooseRead(f, chunks, i)
      invariant i < |chunks|
      invariant forall x :: 0 <= x < i ==> !LooseRead(f, chunks, x)
      decreases |chunks| - i
    {
      i := i + 1;
    }
  }

  lemma ModeTextEnds(tokens: seq<seq<byte>>)
    ensures !EndsLone(tokens + Singles(MODE_WRITE[1..]))
  {
    var all := tokens + Singles(MODE_WRITE[1..]);
    assert all[|all| - 1] == [0x68];
  }

  lemma TightReadClean(f: Filter, chunks: seq<seq<byte>>, i: nat)
    requires CellsInRange(f.st) && ReadsFit(f, chunks) && i < |chunks|
    requires forall x :: 0 <= x <= i ==> !LooseRead(f, chunks, x)
    ensures BranchesClean(f, chunks, i)
  {
    hide ReadsClean, BranchWrites, CellsInRange, ReadsFit, LooseRead, Branch, Writes, ReadAt;
    forall n: nat, b, input | BranchRead(f, chunks, i, n, b, input)
      ensures ReadsClean(Writes(f, chunks[..i] + [input]))
    {
      BranchWritten(f, chunks, i, n, b, input);
      TightBranchClean(f, chunks, i, n, b);
    }
  }

  lemma LooseIsInside(st: State, tokens: seq<seq<byte>>, k: nat)
    requires LooseAt(st, tokens, k)
    ensures k + 2 <= |tokens|
  {
  }

  lemma LooseReadDirty(f: Filter, chunks: seq<seq<byte>>, i: nat)
    requires CellsInRange(f.st) && NextLen(f.held) == 0 && ReadsFit(f, chunks) && i < |chunks|
    requires LooseRead(f, chunks, i) && forall x :: 0 <= x < i ==> !LooseRead(f, chunks, x)
    ensures !BranchesClean(f, chunks, i)
  {
    hide ReadsClean, BranchWrites, CellsInRange, ReadsFit, Loose, LooseAt, Branch, Writes, ReadAt, StateAt, BranchRead;
    var st, tokens := StateAt(f, chunks, i), ReadAt(f, chunks, i).tokens;
    var k := FirstLoose(st, tokens);
    LooseBranchDirty(f, chunks, i, k);
    RunInRange(f, chunks, i);
    ReadIsWhole(f, chunks, i);
    LooseBranch(st, tokens, k);
    LooseIsInside(st, tokens, k);
    ModeTextEnds(tokens[..k + 2]);
    var input := BranchComes(f, chunks, i, k + 2, MODE_WRITE[1..]);
    BranchWritten(f, chunks, i, k + 2, MODE_WRITE[1..], input);
  }

  /** The promise to the TUI, and where it ends. Whatever plain bytes any read might have gone on with, the
      terminal reads no mode write and no delete-all, if and only if no read has a lone `ESC` directly in front
      of a sequence that leaves nothing: a mode, a cursor move, or a delete-all with nothing placed. */
  lemma ModeFreeIff(f: Filter, chunks: seq<seq<byte>>)
    requires CellsInRange(f.st) && NextLen(f.held) == 0 && ReadsFit(f, chunks)
    ensures (forall i :: 0 <= i < |chunks| ==> BranchesClean(f, chunks, i)) <==>
            (forall i :: 0 <= i < |chunks| ==> !LooseRead(f, chunks, i))
  {
    hide LooseRead, BranchesClean, CellsInRange, ReadsFit;
    if forall i :: 0 <= i < |chunks| ==> !LooseRead(f, chunks, i) {
      forall i | 0 <= i < |chunks| ensures BranchesClean(f, chunks, i) { TightReadClean(f, chunks, i); }
    } else {
      var i := FirstLooseRead(f, chunks);
      LooseReadDirty(f, chunks, i);
    }
  }

  lemma NoWrite(f: Filter, chunks: seq<seq<byte>>)
    ensures WritePieces(f, chunks) + Framed([]) == WritePieces(f, chunks)
    ensures Writes(f, chunks) + Wrapped(Concat([])) == Writes(f, chunks)
  {
    hide Writes, WritePieces;
    assert Writes(f, chunks) + [] == Writes(f, chunks);
  }

  /** In particular, under that condition, all the writes of a run are read clean. */
  lemma NoModeReachesTheTerminal(f: Filter, chunks: seq<seq<byte>>)
    requires CellsInRange(f.st) && ReadsFit(f, chunks)
    requires forall i :: 0 <= i < |chunks| ==> !LooseRead(f, chunks, i)
    ensures ReadsClean(Writes(f, chunks))
  {
    hide Writes, WritePieces, Framed, Wrapped, Adjacent, ReadAt, StateAt, CellsInRange, Whole, Clean, Loose, Concat;
    hide ReadsFit, ReadsClean;
    NoneAdjacent();
    WriteBehind(f, chunks, |chunks|, []);
    assert chunks[..|chunks|] == chunks;
    NoWrite(f, chunks);
    PiecesReadClean(WritePieces(f, chunks));
  }

  lemma WrappedMode()
    ensures !ReadsClean(Wrapped(MODE_WRITE))
  {
    hide Tokenise, NextLen, Clean, Concat;
    NoneAdjacent();
    AppendMode([]);
    assert [] + [MODE_WRITE] == [MODE_WRITE];
    FramedAdjacent([], [MODE_WRITE]);
    FramedIsWrapped([MODE_WRITE]);
    ConcatOne(MODE_WRITE);
    assert [] + Framed([MODE_WRITE]) == Framed([MODE_WRITE]);
    ModeIsRead([], []);
  }

  lemma LoneInputTokens(rest: seq<byte>)
    requires rest == MODE_WRITE[1..]
    ensures Tokenise(NextLen, LONE + MODE_WRITE + rest) ==
            Scanned([LONE] + ([MODE_WRITE] + Tokenise(NextLen, rest).tokens), [])
  {
    hide Tokenise;
    var input := LONE + MODE_WRITE + rest;
    assert input == LONE + (MODE_WRITE + rest);
    TokeniseStep(NextLen, input);
    assert input[..1] == LONE && input[1..] == MODE_WRITE + rest;
    ModeWriteFirst(rest);
    PlainRest(rest);
  }

  lemma LoneRelay(plain: seq<seq<byte>>)
    ensures RelayAll(START, [LONE] + ([MODE_WRITE] + plain)).out == LONE + RelayAll(START, plain).out
  {
    hide RelayAll;
    RelayAllConcat(START, [LONE], [MODE_WRITE] + plain);
    RelayOne(START, LONE);
    DroppedThen(START, plain);
  }

  /** It does happen: a fresh relay is fed a lone `ESC`, a mode write and the text of one, and writes a mode. */
  lemma LoneEscLetsAModeThrough()
    ensures var input := LONE + MODE_WRITE + MODE_WRITE[1..];
            var fed := FeedResult(Filter([], START), input);
            fed.raw == MODE_WRITE && Classify(MODE_WRITE) == Mode && !ReadsClean(Wrapped(fed.raw))
  {
    hide Tokenise, NextLen, RelayAll, ReadsClean, Classify;
    var rest := MODE_WRITE[1..];
    LoneInputTokens(rest);
    ModeWriteIsMode();
    LoneRelay(Tokenise(NextLen, rest).tokens);
    PlainRelay(START, rest);
    var input := LONE + MODE_WRITE + rest;
    assert [] + input == input && LONE + rest == MODE_WRITE;
    WrappedMode();
  }
}
