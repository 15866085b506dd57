# late.sh, modelled and proved

A Dafny model of the parts of late.sh that carry promises about all inputs or all runs, with proofs of those
promises. `dafny verify dfyconfig.toml` checks everything.

## What is modelled

**Nonogram line logic** (`LineClues`, `LineSolver`, `GridSolver`, `GridLoops`). A clue list is what `derive_line_clues` makes
of a finished line; `CluesArePlacements` says it is exactly a placement of blocks. `Deduce` is the meaning of
`solve_line`: quantifiers over all finished lines. `Fold` is the program's two dynamic-programming tables and the
fold over them, and `SolveLine` the loops that fill them. `FoldIsDeduce` equates the two. On top of that,
`solve_by_lines` is sound, its answer is the only one, and no fair order of sweeps changes it. `GridLoops` is the
program's own loop, on every puzzle.

**Streaming terminal filters** (`Tokens`, `HvpNormalizer`, `TtyFilter`, `TtyOutput`). Each filter is a class with
the program's loop, equated with a function of the held bytes and the read. The function is a fold over tokens in
which no read boundary appears; from that comes chunk invariance, with the size caps exact. `TtyOutput` reads the
relay's writes back as a terminal would.

**Protocols as steps** (`WatchProtocol`, `LiveRegistry`, `Handoff`, `SessionLease`). Every party's steps interleave
freely; an invariant is kept by each step and read off for whole runs. `OutputLoop` is one session's output loop on
its own, and shows that its turns are the steps `Handoff` interleaves.

**Dailies** (`DailyHash`, `DailyPick`). 64-bit arithmetic on bit vectors, the in-place shuffle on an array, and
the rotation a pack goes through over a run of days.

**Log tailing** (`Tailing`, `TailingClient`, `TailingRun`). What lines a stretch of log holds, the chunked reading of
`pump`, the client's putting together, splitting and parsing of the wire, and runs in which appends, reads, deliveries
and reconnects mix.

**Bounds and the migration** (`RateLimiter`, `CrashBackoff`, `MorgueMigration`). The limiter and the controller are
classes with a ghost log that forgets nothing; their answers are stated over that log.

`Bytes` and `Options` hold what these share.

## Where code and promise part

Each of these is a lemma, with the exact condition under which the promise holds.

- `solve_line` calls one match arm unreachable. A clue list can reach it on some line exactly when its last clue is
  zero (`NeverUnreachableIff`), and then on exactly the lines that `Jams` describes (`UnreachableIffJams`). For
  `solve_by_lines`, no puzzle without a last clue of zero panics, and a row of clues is safe over all such columns
  exactly when it does not end in zero itself (`NoPanicWithoutLastZero`, `RowNeverPanicsIff`).
- The promise in the doc comment of `solve_line`, every placement folded into what all agree on, holds on every line
  exactly for clue lists without any zero (`ExactIffPositive`).
- `derive_line_clues` counts in a byte that saturates, so "the clues of a line" and "a line that fits the clues"
  agree exactly up to 255 cells (`ExactForDerivedCluesIffShort`).
- `derive_clues` of an empty grid has no column clues, so a solved puzzle with columns and no rows does not derive
  its own clues (`SolvedGridDerivesItsClues`, `RowlessPuzzleForgetsItsColumns`).
- A read boundary is invisible to the HVP normalizer exactly when the candidate it cuts is at most 16 bytes, and to
  the relay exactly when the sequence it cuts is at most 8 MiB (the two `CutInvisibleIff`; one byte more shows in
  `LongCandidateShows` and `LongSequenceShows`).
- The relay drops mode writes so that they never reach the terminal. But where a lone ESC stands directly in front of a
  sequence that leaves nothing, a mode, a cursor move, or a delete-all with nothing placed, the ESC can close up with
  the bytes behind it. Plain bytes in the same read can make a mode write of it exactly then (`ModeFreeIff`,
  `LoneEscLetsAModeThrough`); what the terminal reads is what the relay meant exactly when no read does close up
  (`WritesReadBackIff`).
- `pump` stops for good in front of a line that does not fit one read chunk with its newline. It gets everything
  complete exactly when every complete line fits (`ReachesAllIffLinesFit`, `LongLineStalls`).
- The drain handoff paints no byte of the old session after the new one's first, unless the retire grace runs out
  while a write of the old session is still with stdout. A write already handed to the runtime's stdout thread
  cannot be recalled by dropping the writer; that is what the model's `Straggle` step stands for (`OrderSafeIff`,
  `HungWriteLandsLate`).
- The comment on `PtyHost` says the account lease is held until the child has exited. That fails exactly when the
  reader's pty clone fails after the child was spawned, or the final kill gives an error, while the child lives: the
  child is then dropped, which kills it without waiting (`FreedWithLivingChildIff`). From any reachable state, no account
  will ever have two living children, further such failures aside, exactly when no child dropped like that still lives
  (`SingleIffNoneDoomed`, `DoomedChildOverlaps`).

## Model

| member | source | states |
|---|---|---|
| LineClues.Derive | late-core/src/nonogram.rs:130-151 | the loop with its saturating byte yields the lengths of the line's maximal runs, each capped at 255 |
| LineClues.DeriveIsRuns | late-core/src/nonogram.rs:130-151 | on lines of at most 255 cells no run saturates |
| LineClues.RunsSplitAtGap | late-core/src/nonogram.rs:130-151 | an empty cell splits a line's clue list into those of its two sides |
| LineClues.RunsAroundBlock | late-core/src/nonogram.rs:130-151 | a maximal run contributes exactly its length between the clue lists of its two sides |
| LineClues.CluesArePlacements | late-core/src/nonogram.rs:162-168 | a line has a positive clue list iff its filled cells are those blocks, placed in order with a gap between each two |
| LineSolver.HeadMeaning | late-core/src/nonogram.rs:233-251 | `head[i][j]` holds iff some filling of cells `..i` that keeps the known ones has exactly blocks `..j` |
| LineSolver.TailMeaning | late-core/src/nonogram.rs:256-272 | `tail[i][j]` holds iff some filling of cells `i..` that keeps the known ones has exactly blocks `j..` |
| LineSolver.MayBeEmptyMeaning | late-core/src/nonogram.rs:274-278 | the table entry holds iff some fitting line leaves the cell empty |
| LineSolver.CanFillMeaning | late-core/src/nonogram.rs:279-297 | a standing block covers the cell iff some fitting line fills it |
| LineSolver.HeadTable | late-core/src/nonogram.rs:233-251 | the loops fill the array with `Head` at every place |
| LineSolver.TailTable | late-core/src/nonogram.rs:256-272 | the loops fill the array with `Tail` at every place |
| LineSolver.MarkBlocks | late-core/src/nonogram.rs:279-297 | a cell is marked iff some block in some place covers it with all others around it |
| LineSolver.FoldIsDeduce | late-core/src/nonogram.rs:214-309 | `None` iff no finished line fits; otherwise each cell is filled, empty or unknown exactly as all fitting lines agree; the unreachable arm stays unreached |
| LineSolver.SolveLine | late-core/src/nonogram.rs:219-309 | the method on arrays returns that outcome, for every clue list the tables' outcome |
| LineSolver.LineFits | late-core/src/nonogram.rs:209-213 | without a zero clue: true iff some finished line keeps the known cells and has the clues; on every list, it panics iff the line jams |
| LineSolver.ExactIffPositive | late-core/src/nonogram.rs:214-309 | the outcome is what all fitting lines agree on, on every line, iff no clue is zero |
| LineSolver.ZeroClueIsUnreachable | late-core/src/nonogram.rs:298-309 | the clue 0 on one unknown cell runs into the unreachable arm |
| LineSolver.PathCovers | late-core/src/nonogram.rs:273-297 | every cell a path through the two tables passes can be filled or be empty |
| LineSolver.UnreachableIffJams | late-core/src/nonogram.rs:298-309 | the unreachable arm is reached iff the last clue is zero, the last cell may be empty, and the cells before it hold all blocks but the last and not all |
| LineSolver.NeverUnreachableIff | late-core/src/nonogram.rs:298-309 | a clue list never reaches the arm, on any line, iff it does not end in zero |
| LineSolver.ExactForDerivedCluesIffShort | late-core/src/nonogram.rs:135-151 | with `derive_line_clues` for the clues of a finished line, the promise, `None` and cell by cell, holds for all lines of a length iff it is at most 255 |
| LineSolver.DeduceKeeps | late-core/src/nonogram.rs:214-218 | known cells stay, and exactly the same finished lines fit afterwards |
| LineSolver.DeduceMonotone | late-core/src/nonogram.rs:214-218 | a line that knows more deduces more, and contradicts whenever the other does |
| LineSolver.DeduceIdempotent | late-core/src/nonogram.rs:214-218 | solving a solved line again changes nothing |
| GridSolver.SweepKeeps | late-core/src/nonogram.rs:175-195 | no sweep changes a known cell |
| GridSolver.MovingLowersUnknowns | late-core/src/nonogram.rs:173-199 | a grid that moved has strictly fewer unknown cells: the loop's termination measure |
| GridSolver.SettleReaches | late-core/src/nonogram.rs:173-199 | the passes end on the result of some list of sweeps, and no further sweep changes it |
| GridSolver.OrderIndependence | late-core/src/nonogram.rs:169-207 | any sweeps that settle from the blank grid settle where the program does; any that contradict mean the program contradicts |
| GridSolver.FairRoundsSettle | late-core/src/nonogram.rs:173-199 | more rounds over all lines than unknown cells contradict or end stable |
| GridSolver.FairOrderSameResult | late-core/src/nonogram.rs:169-207 | every fair order with more rounds than cells gives exactly the program's grid or contradiction |
| GridSolver.SolveSound | late-core/src/nonogram.rs:162-168 | `Some(g)` has the given clues, and every picture with them equals `g` |
| GridSolver.SettleKeepsAnswer | late-core/src/nonogram.rs:162-168 | a puzzle with an answer never contradicts, and the settled grid agrees with every answer |
| GridSolver.NoneWithAnswerIsStall | late-core/src/nonogram.rs:162-168 | `None` on a puzzle with an answer means a stable grid with an open cell |
| GridSolver.SolvedGridDerivesItsClues | late-core/src/nonogram.rs:110-128 | `derive_clues` of the result gives the puzzle back iff there is a row or no column |
| GridSolver.RowlessPuzzleForgetsItsColumns | late-core/src/nonogram.rs:110-113 | one column without clues and no row: solved, and not derived back |
| GridSolver.SolvedGridIsTheOnlyOne | late-core/src/nonogram.rs:110-128 | up to 255 cells a side, no other picture has the same `derive_clues` |
| GridSolver.SolveTransposed | late-core/src/nonogram.rs:169-207 | exchanging row and column clues transposes the result |
| GridLoops.SweepCol | late-core/src/nonogram.rs:183-194 | gathering, solving and writing back one column is a sweep of that line, a panic included, and `moved` says whether the grid changed |
| GridLoops.Pass | late-core/src/nonogram.rs:173-199 | one turn of the outer loop is all rows then all columns, up to the first contradiction or panic |
| GridLoops.FoldKeeps | late-core/src/nonogram.rs:219-309 | on every clue list, known cells stay known, so the loop ends on every puzzle |
| GridLoops.PosedIsSolved | late-core/src/nonogram.rs:169-207 | without a zero clue the program does not panic and gives the answer `GridSolver` is about |
| GridLoops.ZeroCluePanics | late-core/src/nonogram.rs:298-309 | a puzzle with a zero clue on which the program panics |
| GridLoops.NoPanicWithoutLastZero | late-core/src/nonogram.rs:169-207 | a puzzle none of whose clue lists ends in zero does not panic |
| GridLoops.RowNeverPanicsIff | late-core/src/nonogram.rs:169-207 | a row of clues panics over no columns that are safe themselves iff it does not end in zero |
| GridLoops.SolveByLines | late-core/src/nonogram.rs:169-207 | on every puzzle the loops' outcome, panic included; without a zero clue the settled grid read out, or `None` |
| Tokens.TokeniseSplit | late-cli/src/video.rs:736-771 | reading on after a cut looks again only at the unfinished tail |
| Tokens.TokensAreTheStream | late-cli/src/video.rs:736-771 | tokens and tail put together are the stream |
| HvpNormalizer.Normalizer.Feed | late-brogue/src/watch.rs:221-270 | output and new carry are those of one fold over old carry plus input, the cap included |
| HvpNormalizer.TakeToken | late-brogue/src/watch.rs:227-267 | one turn of the loop takes exactly the next byte or candidate, or stops at an unfinished one |
| HvpNormalizer.CutInvisibleIff | late-brogue/src/watch.rs:204-218 | cutting the stream changes nothing for any continuation iff the unfinished candidate is at most 16 bytes |
| HvpNormalizer.LongCandidateShows | late-brogue/src/watch.rs:216-218 | a candidate of 17 bytes cut in front of an HVP: the HVP is rewritten only because of the cut |
| HvpNormalizer.CleanCut | late-brogue/src/watch.rs:204-218 | a cut in a stream without an over-long numeric CSI directly followed by ESC is invisible |
| HvpNormalizer.ChunksDoNotMatter | late-brogue/src/watch.rs:204-270 | such a stream gives the same output and carry however it is cut |
| HvpNormalizer.CarryHolds | late-brogue/src/watch.rs:216-218 | the carry never exceeds the cap and is stable under an empty read |
| HvpNormalizer.OnlyHvpFinalsChange | late-brogue/src/watch.rs:204-210 | output plus carry has the input's length and differs only where the final `f` of an HVP became `H` |
| HvpNormalizer.NumericSequence | late-brogue/src/watch.rs:238-262 | byte by byte: `ESC [`, digits and semicolons, and a final byte pass on, the final `f` as `H` exactly when at most 14 bytes stand in front of it |
| HvpNormalizer.NumericBeginning | late-brogue/src/watch.rs:242-252 | the same cut off at the end of a read is held back up to 16 bytes and passed on beyond |
| HvpNormalizer.OtherBytes | late-brogue/src/watch.rs:227-240 | every byte outside such a sequence passes on by itself; an ESC at the end of a read is held back |
| TtyFilter.TtyFilter.Feed | late-cli/src/video.rs:736-771 | bytes out, held bytes, cursor and placements are those of the fold over whole tokens, wrapped in save and restore when not empty |
| TtyFilter.TtyFilter.RelaySequence | late-cli/src/video.rs:773-793 | one sequence moves cursor and placements and appends exactly what the fold's step does |
| TtyFilter.NextLenStable | late-cli/src/video.rs:845-871 | where a sequence ends does not depend on what follows |
| TtyFilter.FeedPeels | late-cli/src/video.rs:736-771 | a feed of two stretches is the fold over the first's tokens, then a feed of its tail with the second |
| TtyFilter.CutInvisibleIff | late-cli/src/video.rs:44-46 | a read boundary is invisible to every continuation iff the sequence it cuts is at most 8 MiB |
| TtyFilter.LongSequenceShows | late-cli/src/video.rs:44-46 | a sequence one byte past the cap cut in front of a mode write: the cut shows |
| TtyFilter.ChunksDoNotMatter | late-cli/src/video.rs:736-771 | within the cap, any cutting of a stream gives the bytes and the final state of one feed |
| TtyFilter.CursorIsLastMove | late-cli/src/video.rs:773-793 | the remembered cursor is the cell of the last cursor move |
| TtyFilter.PlacementsAccounted | late-cli/src/video.rs:773-793 | `placed` lists without repeats, in order of first use, exactly the cells graphics went out at since the last delete-all |
| TtyFilter.RunPlacementsAccounted | late-cli/src/video.rs:736-793 | the same for the state of a relay after any reads, past the cap or not, with the cursor at the last move |
| TtyFilter.DeleteAllIsOnePerCell | late-cli/src/video.rs:777-781 | a delete-all becomes one delete per listed cell, in order, and empties the list |
| TtyFilter.ControlSequence | late-cli/src/video.rs:856-864 | a control sequence ends at its first byte from 0x40 to 0x7e, and is unfinished without one |
| TtyFilter.ApplicationCommand | late-cli/src/video.rs:856-868 | an application command ends at its first `ESC \`, and is unfinished without one |
| TtyFilter.SingleBytes | late-cli/src/video.rs:847-871 | every other byte stands alone, an ESC once the byte behind it has come |
| TtyFilter.ModeIff | late-cli/src/video.rs:813-828 | the mode writes are six byte strings, setting and resetting modes 25, 1003 and 1049, and nothing else |
| TtyFilter.GraphicsIff | late-cli/src/video.rs:813-819 | the delete-all is one byte string; every other sequence that begins `ESC _ G` is graphics |
| TtyFilter.MoveIff | late-cli/src/video.rs:829-845 | a sequence moves the cursor to a cell iff it is `ESC [`, the row, one semicolon, the column, and `f` or `H` |
| TtyFilter.WhatLeaves | late-cli/src/video.rs:773-793 | mode writes and moves leave nothing; a frame leaves directly behind `ESC [ row ; col f` of the remembered cell |
| TtyFilter.WrittenAs | late-cli/src/video.rs:766-771 | what one read puts out goes between `ESC 7` and `ESC 8` |
| TtyOutput.CursorBytesRoundTrip | late-cli/src/video.rs:782-845 | the cursor move written in front of a frame parses back to its cell, as one whole sequence |
| TtyOutput.DeleteBytesWhole | late-cli/src/video.rs:682-685 | each delete the relay writes is one whole graphics sequence |
| TtyOutput.DeleteNamesItsCell | late-cli/src/video.rs:682-685 | a reader of the fields between the commas gets the delete's cell back, the column from `x` and the row from `y` |
| TtyOutput.DeletesAreReadInOrder | late-cli/src/video.rs:777-781 | a terminal reading what a delete-all becomes finds one delete per listed cell, in order, each naming its cell, and nothing else |
| TtyOutput.OutputIsCleanPieces | late-cli/src/video.rs:773-793 | what the tokens of a read become is single bytes and whole sequences, none of them a stripped mode or a delete-all |
| TtyOutput.FeedIsCleanPieces | late-cli/src/video.rs:736-771 | what one feed hands on is such pieces and, past the cap only, the unfinished sequence behind them |
| TtyOutput.ReadsBackIffAdjacent | late-cli/src/video.rs:695-719 | whole pieces written one after the other are read back as they are iff no lone ESC stands in front of `[` or `_` |
| TtyOutput.AdjacentIffNotClosing | late-cli/src/video.rs:773-793 | that happens iff a lone ESC in the read is separated from such a byte by nothing but sequences that leave nothing |
| TtyOutput.OutputReadsBackIff | late-cli/src/video.rs:695-719 | the output of one read is read back as the pieces the relay meant iff the read does not close up like that |
| TtyOutput.WritesAreCleanPieces | late-cli/src/video.rs:736-771 | the wrapped writes of any cutting within the cap are clean pieces, saves and restores included |
| TtyOutput.WritesReadBackIff | late-cli/src/video.rs:695-719 | the terminal reads the wrapped writes of any cutting within the cap as exactly those pieces iff no single read closes up |
| TtyOutput.FeedOfTokens | late-cli/src/video.rs:736-771 | a read whose bytes, behind those held, are those of whole tokens relays exactly these tokens |
| TtyOutput.BranchWritten | late-cli/src/video.rs:736-771 | a read that stops at a token boundary and goes on with plain bytes writes what the fold over those tokens does |
| TtyOutput.BranchComes | late-cli/src/video.rs:736-771 | there is such a read for every token boundary behind what was held |
| TtyOutput.ModeFreeIff | late-cli/src/video.rs:709-719 | whatever plain bytes any read might have gone on with, the terminal reads no stripped mode and no delete-all, iff no read has a lone ESC directly before a sequence that leaves nothing |
| TtyOutput.NoModeReachesTheTerminal | late-cli/src/video.rs:709-719 | under that condition the terminal reads no stripped mode and no delete-all from all the writes of any cutting |
| TtyOutput.LoneEscLetsAModeThrough | late-cli/src/video.rs:709-719 | a fresh relay fed one concrete read writes a mode, and the terminal reads it |
| DailyHash.Fnv1aLoop | late-core/src/daily.rs:11-18 | the loop computes the hash |
| DailyHash.FnvFromInjective | late-core/src/daily.rs:11-18 | different hash states stay different over any common text |
| DailyHash.OneByteChangesTheHash | late-core/src/daily.rs:10-18 | texts of one length that differ in exactly one byte never share a hash |
| DailyHash.SplitMix64Steps | late-core/src/daily.rs:22-27 | the assignments return the one word that, undone step by step, is the seed |
| DailyHash.SplitMixBijective | late-core/src/daily.rs:20-27 | splitmix64 has a two-sided inverse on 64-bit words |
| DailyHash.KnownHashes | late-core/src/daily.rs:11-27 | the hash of the empty text, of "a" and of "b", and the word for the seed 0, as numbers |
| DailyHash.ShuffleInPlace | late-core/src/daily.rs:31-36 | the swaps on the array yield the shuffled sequence |
| DailyHash.ShuffledKeepsMultiset | late-core/src/daily.rs:29-36 | a shuffle loses and repeats nothing |
| DailyHash.ShuffledNatural | late-core/src/daily.rs:29-36 | shuffling commutes with mapping a list of places to items |
| DailyHash.ShuffleIsOnePermutation | late-core/src/daily.rs:29-36 | a shuffle applies one permutation that only seed and length decide |
| DailyHash.ShuffleDealsLast | late-core/src/daily.rs:29-36 | the last place gets the item the chain's next word points at modulo the length; the others, the last item in its place, are shuffled from that word on |
| DailyPick.ChooseMeaning | late-core/src/daily.rs:38-64 | `None` iff the puzzle pack is empty; a never-claimed entry while there is one; then the one claimed longest ago, ties by the smallest key |
| DailyPick.ChooseByHash | late-core/src/daily.rs:50-58 | among the entries never claimed, the chosen one has as many in front of it as the hash of the day's text leaves modulo their number |
| DailyPick.ClaimsSince | late-core/src/daily.rs:38-64 | keys picked since a day are claimed on or after it, all others stand as they did |
| DailyPick.NoRepeatWithinPack | late-core/src/daily.rs:38-42 | two picks closer than the puzzle pack's size differ |
| DailyPick.EntryComesUp | late-core/src/daily.rs:38-42 | every entry comes up in any run of picks as long as the puzzle pack |
| DailyPick.FairRotation | late-core/src/daily.rs:38-64 | any n consecutive picks are exactly the n entries, once each |
| DailyPick.RotationHasPeriod | late-core/src/daily.rs:38-64 | from the first pick on the schedule has the puzzle pack's size as its period |
| Tailing.FrameLines | late-brogue/src/stats.rs:118-133 | the loop frames every complete line with the offset after it and says how much that was |
| Tailing.FileTail.Pump | late-brogue/src/stats.rs:241-311 | chunked reading sends exactly one framing of the reachable lines and moves the cursor past them; a shrunk log starts over |
| Tailing.ReachesAllIffLinesFit | late-brogue/src/stats.rs:280-309 | all complete lines are reached iff each fits a read chunk with its newline |
| Tailing.LongLineStalls | late-brogue/src/stats.rs:280-309 | a line of just a chunk's length is complete and never reached |
| Tailing.ChunkReaches | late-brogue/src/stats.rs:280-309 | one chunk takes exactly what a whole read would take first, and a short or empty one is the end |
| Tailing.LinesSplit | late-brogue/src/stats.rs:114-133 | growing a log keeps its complete lines and goes on at the partial one |
| Tailing.LinesAreTheLog | late-brogue/src/stats.rs:114-133 | the lines with their newlines are the consumed part of the log |
| Tailing.LineByLine | late-brogue/src/stats.rs:118-133 | a line ends at the first newline byte; without one it is not complete |
| Tailing.ResumeFromFrame | late-brogue/src/stats.rs:114-133 | reading from the offset in any frame gives exactly the frames after it |
| Tailing.FrameRoundTrip | late-ssh/src/app/door/ingest/stream.rs:75-90 | the client gets a frame's file, offset and line back, the line as it decodes text, tabs included |
| Tailing.ParseFrameIff | late-ssh/src/app/door/ingest/stream.rs:75-90 | a raw line is a frame iff it is a file name, a tab, digits that parse as an offset, a tab and the line |
| Tailing.FrameOnTheWire | late-brogue/src/stats.rs:118-133 | a frame on the wire is file, tab, offset, tab, line and newline |
| Tailing.WireSplitsIntoFrames | late-ssh/src/app/door/ingest/stream.rs:163-187 | the client's newline splitting finds one raw line per frame, in order |
| Tailing.WireCarriesLines | late-ssh/src/app/door/ingest/stream.rs:75-90 | the raw lines on the wire of a stretch of log, decoded, parse to exactly its decoded lines, with file and offsets |
| TailingClient.StreamClient.Receive | late-ssh/src/app/door/ingest/stream.rs:163-187 | each data message yields the frames of the lines it completes, decoded and parsed, and leaves the partial one in the buffer |
| TailingClient.PiecesDoNotMatter | late-ssh/src/app/door/ingest/stream.rs:163-187 | the client gets the same frames however the channel cuts the wire |
| TailingClient.ClientGetsTheLines | late-ssh/src/app/door/ingest/stream.rs:163-187 | end to end, the client ends up with exactly the lines of the stretch of log, decoded, in order, and an empty buffer |
| TailingRun.StepKeeps | late-brogue/src/stats.rs:202-311 | committed frames and frames under way are always the log's lines up to the host's cursor |
| TailingRun.NothingLostOrRepeated | late-brogue/src/stats.rs:202-311 | in every run with appends and reconnects the client holds exactly the log's first lines, and all of them when caught up |
| TailingRun.CommittedStays | late-brogue/src/stats.rs:202-311 | no step of a run, a reconnect included, takes back what the client has committed |
| TailingRun.ReadProgresses | late-brogue/src/stats.rs:280-309 | while complete lines wait and each fits a chunk, a read gets at least one |
| TailingRun.EverythingArrives | late-brogue/src/stats.rs:202-311 | from any state kept by the steps, reads and deliveries alone bring the client every complete line, when each waiting line fits a chunk |
| TailingRun.AppendedCursorsMerge | late-brogue/src/stats.rs:76-104 | cursors split over several requests parse as the requests one after the other, the first one included |
| TailingRun.CursorsByComma | late-brogue/src/stats.rs:76-104 | a cursor list is its entries between commas, later ones winning; requests are joined with one comma |
| WatchProtocol.FrameBringsScreen | late-brogue/src/watch.rs:147-172 | a client showing the previous screen shows the new one after the frame, or without one |
| WatchProtocol.FrameIs | late-brogue/src/watch.rs:147-172 | at the size last sent nothing iff the diff is empty, and that diff otherwise; a reset exactly for a first screen or a new size |
| WatchProtocol.StepKeeps | late-brogue/src/watch.rs:438-475 | the invariant that ties pulses, snapshots and clients is kept by every step |
| WatchProtocol.NoLostUpdate | late-brogue/src/watch.rs:588-622 | a watcher waiting with no pulse pending has shown a screen with every pulsed change; one that read the end has shown the final screen |
| WatchProtocol.QuietWatcherShowsMirror | late-brogue/src/watch.rs:588-622 | with the bridge at rest too, that screen is the mirror |
| WatchProtocol.PendingPulseGetsThrough | late-brogue/src/watch.rs:588-622 | a waiting watcher with a pulse pending can go on, and its client then shows the mirror |
| LiveRegistry.Registry.Add | late-brogue/src/watch.rs:367-392 | the registry stays what its history says, with a new game registered under the playname |
| LiveRegistry.Registry.Get | late-brogue/src/watch.rs:394-400 | the game most recently registered under the playname iff its handle is not dropped |
| LiveRegistry.Registry.DropHandle | late-brogue/src/watch.rs:461-475 | the registry stays what its history says: the entry goes only if it is the handle's own, and the game is ended |
| LiveRegistry.RegistryAgreesWithHistory | late-brogue/src/watch.rs:367-496 | a playname maps to its most recently registered game iff that one's handle is not dropped; ended iff dropped; the count is the live guards |
| Handoff.StepKeeps | late-cli/src/ssh.rs:1166-1264 | every step keeps each session's bytes in order: painted, with stdout, held |
| Handoff.TerminalIsConcatenation | late-cli/src/main.rs:139-190 | each session's part of the terminal is a prefix of its stream; the parts follow one another unless a grace ran out on bytes under way |
| Handoff.ChunkReachesOneSession | late-cli/src/ssh.rs:685-726 | each stdin chunk reaches at most one session |
| Handoff.RunKeepsRoles | late-cli/src/main.rs:139-190 | in every run the keys are attached to the current session exactly outside of a swap, and every older session is retired |
| Handoff.KeysGoToTheCurrent | late-cli/src/ssh.rs:691-726 | every chunk a session was sent was read while that session was current; a chunk read between detach and attach goes to none |
| Handoff.RetiredIsSilent | late-cli/src/ssh.rs:911-962 | what a server sends after its session was retired never lands |
| Handoff.CleanMoveIsARun | late-cli/src/main.rs:139-190 | for any bytes a whole good move is a run, the new session's bytes behind the old one's and the keys with the new one |
| Handoff.EndIsFinal | late-cli/src/main.rs:148-172 | the program ends only by the session on screen closing, outside of a swap, and then no session is opened or given the keys |
| Handoff.OrderSafeIff | late-cli/src/ssh.rs:940-962 | with the new session on screen, order can never be lost iff no older session's bytes are still with stdout |
| Handoff.StragglerBreaksOrder | late-cli/src/ssh.rs:940-962 | such bytes landing after a newer byte break the order |
| Handoff.HungWriteLandsLate | late-cli/src/ssh.rs:940-962 | a concrete run from the start in which that happens |
| OutputLoop.Terminal.DriveNativeOutput | late-cli/src/ssh.rs:1166-1242 | the loop over a session's messages leaves on the terminal, and returns, exactly what a fold over the messages before the close does |
| OutputLoop.Terminal.PaintHeld | late-cli/src/ssh.rs:1255-1264 | what was held goes out whole and is held no more |
| OutputLoop.PaintsAllOrNothing | late-cli/src/ssh.rs:911-923 | a session that ever paints puts out everything sent before it was retired, once and in order; one that never does puts out nothing |
| OutputLoop.SignalOutranksStatus | late-cli/src/ssh.rs:1217-1242 | the exit is the last signal if there was one, else the last status if there was one, else an empty status |
| OutputLoop.TurnIsHandoffStep | late-cli/src/ssh.rs:1196-1207 | a data message in the loop does what the `Handoff` step for it does |
| OutputLoop.ChangeIsHandoffStep | late-cli/src/ssh.rs:1180-1191 | a change of the mode alone does what the `Handoff` step for it does |
| OutputLoop.ErrorsAreNotHeld | late-cli/src/ssh.rs:1208-1216 | stderr gets exactly what came for it while the session was shown; nothing of it is held |
| SessionLease.StepKeeps | late-codekeep/src/server.rs:142-189 | requests, failures, exits and releases keep the active set equal to the running bridges' accounts |
| SessionLease.ActiveIsRunning | late-codekeep/src/host.rs:12-33 | in every run the active set is the accounts of the running bridges, no two of which share one |
| SessionLease.TwoLivingMeansDoomed | late-codekeep/src/host.rs:61-79 | of two living children of one account one was dropped alive, by a failed setup or a failed kill |
| SessionLease.SingleIffNoneDoomed | late-codekeep/src/host.rs:61-79 | from any reachable state, every continuation that drops no living child keeps to one living child per account iff no dropped child still lives |
| SessionLease.CleanRunStaysSingle | late-codekeep/src/host.rs:61-79 | a run that never drops a living child keeps to one living child per account throughout |
| SessionLease.FreedWithLivingChildIff | late-codekeep/src/host.rs:162-221 | a step that frees an account leaves its child alive iff the reader's pty clone or the kill failed with the child alive |
| SessionLease.DeadHasExited | late-codekeep/src/host.rs:176-221 | a child that counts as dead has exited, so a kill that does not fail is over only after the exit |
| SessionLease.GraceAfterTeardown | late-codekeep/src/host.rs:192-213 | a bridge is in its save grace only because its loop was torn down |
| SessionLease.NoKillBeforeGrace | late-codekeep/src/host.rs:192-221 | a torn down bridge gets no kill before its grace is over |
| SessionLease.DoomedChildOverlaps | late-codekeep/src/host.rs:155-174 | a concrete run with two living children of one account |
| RateLimiter.IpRateLimiter.Allow | late-core/src/rate_limit.rs:51-73 | admitted iff fewer than the maximum of earlier admits of that address lie in the window, whatever cleanups and other addresses came between |
| RateLimiter.IpRateLimiter.Cleanup | late-core/src/rate_limit.rs:37-49 | an address is left iff it has an admit within the window, with as many times as it has such admits |
| RateLimiter.PopExpired | late-core/src/rate_limit.rs:59-64 | the loop drops the expired front and nothing else |
| RateLimiter.DropTracks | late-core/src/rate_limit.rs:59-64 | what is left after dropping is as long as the number of admits in the window |
| RateLimiter.WindowBound | late-core/src/rate_limit.rs:51-73 | no closed interval as long as the window holds more than the maximum of one address |
| CrashBackoff.WebviewPlaybackController.RecordFailure | late-cli/src/ws.rs:478-503 | the log of failures goes on by one with its place in the window; disabled iff it is the third |
| CrashBackoff.WebviewPlaybackController.HelperIsRunning | late-cli/src/ws.rs:423-448 | running iff the child is there and answers; a death is recorded once |
| CrashBackoff.WebviewPlaybackController.HelperBackoffActive | late-cli/src/ws.rs:450-468 | active iff the log's last failure was a third less than five minutes ago |
| CrashBackoff.WebviewPlaybackController.EnterYoutube | late-cli/src/ws.rs:284-384 | child and log afterwards, told by the log of failures alone; a live child is never disabled |
| CrashBackoff.WebviewPlaybackController.MaintainHelper | late-cli/src/ws.rs:263-282 | the heartbeat comes to the same, its silent probe never disagreeing with the loud one |
| CrashBackoff.Recorded | late-cli/src/ws.rs:478-503 | the counters keep telling the truth about the log of failures |
| CrashBackoff.QuietIsDisabled | late-cli/src/ws.rs:450-468 | the disabled-until time says exactly what the log says |
| CrashBackoff.QuietAfterThird | late-cli/src/ws.rs:198-200 | after the third failure of a window none is recorded for five minutes |
| CrashBackoff.FiveNeverFit | late-cli/src/ws.rs:198-200 | any five failures span more than the 60-second window |
| CrashBackoff.FourFit | late-cli/src/ws.rs:198-200 | a run of the controller from its start records five failures, the last four of them within 60 seconds |
| MorgueMigration.OwnerOfDump | late-dcss/src/morgue.rs:123-151 | a finished game's dump belongs to the player before the first dash |
| MorgueMigration.OwnerOfNamedDump | late-dcss/src/morgue.rs:123-151 | a dump named after a player belongs to that player |
| MorgueMigration.OwnerIff | late-dcss/src/morgue.rs:123-151 | a name belongs to a player iff it is `.txt` or `.lst` behind the player's name, or behind `morgue-` and the name with or without a dash and more; any other is nobody's |
| MorgueMigration.NobodysNames | late-dcss/src/morgue.rs:123-151 | `notes-old.txt`, `ann.map` and `morgue-.txt` are nobody's |
| MorgueMigration.PlaynameOwnsNothing | late-dcss/src/morgue.rs:138-151 | no file that moves can stand where a player's directory goes |
| MorgueMigration.MigrateFlat | late-dcss/src/morgue.rs:60-121 | the loop visits the entries in the given order, and counts as moved exactly the files that left the root |
| MorgueMigration.VisitAfter | late-dcss/src/morgue.rs:75-112 | one visit brings the tree from "after the seen names" to "after those and this one", whatever the order |
| MorgueMigration.NothingLostOrOverwritten | late-dcss/src/morgue.rs:97-112 | every file keeps its content, at its place or under its owner where nothing stood |
| MorgueMigration.WholeWalkMovesAllItCan | late-dcss/src/morgue.rs:46-112 | a root file has moved iff it has an owner, a directory that is there or can be made, a free destination and a rename that works; and each owner whose directory could be made has one |
| MorgueMigration.DirsHaveOwners | late-dcss/src/morgue.rs:75-96 | every directory a walk makes is one the owner of some root file could get |
| MorgueMigration.OrderDoesNotMatter | late-dcss/src/morgue.rs:60-112 | any two whole walks end in the same tree |
| MorgueMigration.InterruptedThenCompleted | late-dcss/src/morgue.rs:51-56 | a walk cut anywhere and completed ends where an uninterrupted one does |
| MorgueMigration.CutBeforeRename | late-dcss/src/morgue.rs:51-56 | the same for a cut between making the directory and the rename |
| MorgueMigration.SecondRunChangesNothing | late-dcss/src/morgue.rs:46-56 | a second whole run leaves the tree as it is |

## Left out

- Files, ptys, SSH channels, processes and mpv are steps, parameters or maps; their failures are steps too where
  the code handles them.
- SolveByLines: clues are unbounded numbers here and bytes in the source, which matters only to `derive_clues` and is
  stated there.
- Derive: a finished cell is a bool; the source takes any byte and treats 1 as filled, every other as empty.
- The vt100 emulator: `WatchProtocol` asks only that a diff applied to its base gives the screen, an empty diff
  changes nothing, and a full redraw gives the screen.
- The bytes of a watch frame (`encode_frame`), the roster list and its status line, and the frame and list sleeps.
- DropHandle: takes the entry out and marks the game ended in one call; the interleavings between the two are in
  the event history that `RegistryAgreesWithHistory` is about. That a handle is dropped once and a guard left once is
  asked of the caller, as ownership does in the source.
- ChooseMeaning: keys and days are integers standing for the source's ordered keys and dates.
- Pump: on a log that does not change during one call; a log that grows between chunks is in `TailingRun`, where
  every chunk is a step of its own. File and channel errors only end a call early.
- NothingLostOrRepeated: for logs that only grow; after a rebuilt, shorter log the host starts over and the client
  relies on idempotent inserts, which are not part of this model.
- FrameRoundTrip: the client's UTF-8 decoding is a given function of which only this is asked, that an ASCII byte stands
  for itself whatever is around it; which lines it leaves alone is not modelled.
- AppendedCursorsMerge: what one `id:offset` entry parses to is a given function; trimming and Unicode are not modelled.
- `discover_tails`, which only finds the files.
- StepKeeps: `WatchProtocol`, `Handoff` and `SessionLease` are step functions on values, because what matters there is
  how the parties interleave; the loops of `run_game`, `run_native_session` and `run_bridge` are not methods.
- NoModeReachesTheTerminal: what the TUI's own bytes between two relay writes do is not part of this model, nor is the
  run after a sequence past the cap has gone out unfinished (`FeedIsCleanPieces` says what goes out then).
- DriveNativeOutput: write errors, which end the loop early, and the text of a signal's message.
- Handoff: stderr, exit codes, terminal probes, latency samples and window sizes, which carry no screen bytes; the
  stdin flush before a new session is attached, which only drops keys.
- SessionLease: the pty traffic of a bridge; what an exit means for the save file.
- Allow: calls are serialised on a clock that does not go back; the source reads the clock before it takes the lock,
  so concurrent calls can come out of order. With a maximum of 0 everything is admitted and nothing logged, as in the source.
- EnterYoutube: the helper's log file, environment and the reasons a start fails are one answer, `starts`.
- `PairRetryPolicy`, whose counters carry no property beyond their own branches.
- MigrateFlat: a rename or a new directory that fails for a name fails in every run, and nothing else touches the tree
  meanwhile (the source runs it before any listener binds); file names are strings and symbolic links do not occur.
- `NonogramPack::select_for_date` uses the standard library's hasher, and pack validation is a list of single checks.
- The video player's mpv process handling, the audio source protocol, and the near copies of the watch and stats code
  in the other game hosts.
