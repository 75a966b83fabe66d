# Community crossword web client, modelled in Dafny

This project models the logic of the community crossword browser client (TypeScript, under
`web/`). Rendering is not part of it. The modelled parts are:

- **Clue index.** The client merges the clue fragments of each `sync_block` message into a
  sparse list of clue entries. Each entry has a global position and an optional across clue
  and down clue. The `dirtyClues` flag tells the frame loop to redraw the clue lists.
- **Block table.** Each block index maps to one rendered quad. The incoming cells replace
  the quad's data.
- **Selection.** A clicked cell becomes the centre; clicking the centre again flips the
  direction.
- **Word extent.** The across and down scans stop at a black cell or at the edge of the
  visible cells.
- **Cell values.** The letter enumeration sits in the low seven bits of a cell value.
  `toCellChar` maps it to a display string.
- **Block store.** `setBlock` / `getBlock` keep a dictionary of blocks.
- **Quad index.** `getCell` maps a local cell to its row-major index.
- **Viewport arithmetic.** `gamePosition`, `setGamePosition` and `getViewRect`.
- **Debounce and throttle.** The two timer-driven rate limiters, with the clock and the timer
  queue made explicit.
- **`set_view` message.** The 17-byte outbound message written by `netSendViewRect`.
- **Two binary file parsers.** The highscore table in `HighscoreTable.refresh` and the player
  profile in `ProfileSession.load`.

Each runtime service is either an explicit parameter or left out:

- A fetch response is a flag plus its bytes.
- `Date.now()` and timer callbacks are explicit times.
- `netParseSyncChunk`, `quadIndex` and the black-cell lookup are inputs.
- A DataView read past the end of the buffer throws a RangeError. It is modelled as `None`.
- An `ArrayBuffer.slice` past the end is clamped, as in JavaScript.

**Modules.**

| module | file | contents |
|---|---|---|
| `Wrappers` | `wrappers.dfy` | `Option` |
| `Bytes` | `bytes.dfy` | little-endian byte readers and writers with DataView's bounds behaviour, shared by the parsers |
| `Net` | `net.dfy` | `web/net.ts` |
| `Board` | `board.dfy` | `web/board.ts` |
| `Quad` | `quad.dfy` | `web/quad.ts` |
| `State` | `state.dfy` | `web/state.ts` |
| `Timing` | `timing.dfy` | `web/timing.ts` |
| `GraphicQuad` | `graphic_quad.dfy` | `web/graphic_quad.ts`, reduced to its data |
| `Client` | `client.dfy` | `web/main.ts` |
| `HighscoreTable` | `highscore_table.dfy` | `web/highscoreTable.ts` |
| `Profile` | `profile.dfy` | `web/profile.ts` |

**Shape of the model.**

- Pure logic is functions and lemmas.
- `Client.ClientState`, `Client.Selection`, `Board.BlockStore`, `HighscoreTable.HighscoreTable`,
  `Profile.ProfileSession` and the timing classes are classes. Their fields are updated in
  place, as in the client.
- The byte loops are methods proved against a function over the input bytes:
  - the highscore entry loop and its byte-by-byte last-word loop;
  - the profile solve loop.
- The offset-driven writes of `netSendViewRect` are a method proved to fill a fresh buffer
  with the message function of its four integer arguments.
- The clue-matching scan is a method proved equal to a function over the clue list.
- The extent scans are methods whose postconditions pin down both ends of the word from the
  black-cell test and the view rectangle.
- For each file format the model has its own encoder. A round-trip lemma proves that
  parsing an encoded file gives back its contents.
- For the highscore table, a truncation lemma proves that a file cut anywhere keeps exactly
  the entries written before the cut. For the profile, one lemma proves that a file cut before
  its first solve rejects the call, and another proves, for a single solve record, that a
  buffer ending inside the clue still yields the solve.

**Behaviour kept exactly as the code has it.**

- **Clue position.** A fragment is filed under `netClue.x + syncBlock.x`, without scaling by
  the block size.
- **New entries.** An unmatched fragment fills the highest undefined slot, or appends when
  there is none.
- **Direction.** A matched fragment with `dir == 0` sets `hor`; any other `dir` sets `ver`. A
  new entry gets `hor` only for 0 and `ver` only for 1, so any other `dir` stores neither.
- **Throttle.** It schedules its callback `now - lastExecution` after the trigger, which is
  the time already elapsed. The callback runs the handler and may then immediately run it
  again through `trigger` (see Findings).
- **Highscore parse errors.** The read is wrapped in try/catch, so a read past the end keeps
  the entries read so far.
- **Profile parse errors.** The profile loader catches nothing. A read past the end rejects
  the `load` call, and every field already set keeps its new value. A wrong magic number or
  version returns normally with nothing set.
- **Profile solves.** They are appended to `words_solved`, which is never cleared.
  `loaded` becomes true only after the whole body has been read.
- **Unchecked clue length.** The profile loader never checks a solve's clue length against
  the buffer. A buffer that ends inside the last clue still yields that solve, with the clue
  cut short (`Profile.ReadSolveCut`).

**Where the files disagree with each other or with what a component is for.**

- **`GRID_SIZE`.** It is 16 in `web/constants.ts` but 32 in `web/state.ts` and
  `web/board.ts`. `Quad` takes it as a parameter.
- **Throttle.** A throttle is expected to wait out the rest of the delay, so that runs stay
  `delay` apart. The code waits for the time already elapsed, and the model follows the code
  (see Findings).

## Model

| member | source | states |
|---|---|---|
| Bytes.U8 | web/highscoreTable.ts:73 | `getUint8` gives a byte exactly when the offset is inside the buffer |
| Bytes.U16 | web/highscoreTable.ts:49 | `getUint16` succeeds exactly when both bytes are in the buffer; the value is below 2^16 |
| Bytes.U32 | web/highscoreTable.ts:40 | `getUint32` succeeds exactly when all four bytes are in the buffer; the value is below 2^32 |
| Bytes.I64 | web/profile.ts:47 | `getBigInt64` succeeds exactly when eight bytes are in the buffer; the value is a signed 64-bit integer |
| Bytes.Slice | web/profile.ts:52 | `slice` gives exactly the bytes between the bounds when they are in the buffer; it never gives more than the buffer holds |
| Bytes.U16At | web/highscoreTable.ts:63 | a 16-bit value written little-endian reads back, whatever precedes or follows it |
| Bytes.U32At | web/highscoreTable.ts:77 | a 32-bit value written little-endian reads back, whatever surrounds it |
| Bytes.I64At | web/profile.ts:61 | a signed 64-bit value written in two's complement reads back, whatever surrounds it |
| Bytes.SliceAt | web/profile.ts:65 | the slice over a run of bytes gives back that run |
| Bytes.ReadRun | web/highscoreTable.ts:61-90 | a counted record loop reads at most n records; it completes exactly when it reads n |
| Bytes.ReadRunSplit | web/highscoreTable.ts:61-90 | reading i + k records is reading i, then k more from where the first i stopped |
| Bytes.ReadRunNext | web/profile.ts:60-75 | one pass of a counted loop: a record read extends the run, and a failed read ends every longer run there |
| Bytes.ReadRunConcat | web/profile.ts:60-75 | records each of which reads back give back the whole list, ending after the last record |
| Bytes.ReadRunConcatCut | web/highscoreTable.ts:61-90 | records cut short give back exactly the records that fit before the cut, when a cut record fails to read |
| Bytes.SliceCut | web/profile.ts:69 | a slice past the end of a cut buffer keeps the part of the bytes before the cut |
| Net.MessageTag | web/net.ts:2-5 | the `MessageID` enumeration's values: 0 for `SetView`, 1 for `SyncBlock` |
| Net.MessageTagsDistinct | web/net.ts:2-5 | the two message IDs have distinct tags |
| Net.ToUint32 | web/net.ts:14 | `setUint32` keeps a value already in the unsigned 32-bit range, and stores any other integer as the value in that range congruent to it modulo 2^32 |
| Net.ViewRectBytes | web/net.ts:12-20 | the set_view message as bytes: the SetView tag followed by x, y, width and height, each as ToUint32 of the argument in four little-endian bytes; always 17 bytes |
| Net.ViewRectLayout | web/net.ts:7-22 | byte 0 is the SetView tag, and x, y, width and height sit at offsets 1, 5, 9 and 13 |
| Net.ViewRectRoundTrip | web/net.ts:7-22 | decoding the message recovers every field that fits an unsigned 32-bit integer |
| Net.SetUint32 | web/net.ts:14 | four little-endian bytes are stored at the offset; the rest of the buffer is unchanged |
| Net.NetSendViewRect | web/net.ts:7-22 | the 17-byte buffer holds exactly the tag and the four wrapped fields |
| Board.ToCellEnum | web/board.ts:114-116 | `value & 0x7f` is in 0..127, leaves values below 128 alone, and differs from the value by a multiple of 128 |
| Board.CellEnumIsMask | web/board.ts:115 | on a byte, the model's mask is the bitwise and with 0x7f |
| Board.CellCharIgnoresHighBits | web/board.ts:52-53 | the display character depends only on the low seven bits |
| Board.ToCellChar | web/board.ts:52-112 | the display string of a cell value, by the switch over its masked enumeration; at most one character, and empty exactly for masked values above 27 |
| Board.CellCharTable | web/board.ts:52-112 | none is a space, dash is "-", 2..27 are "a".."z" in order, and anything above is "" |
| Board.CellCharIsLetter | web/board.ts:52-112 | a value displays as one lower-case letter exactly when its enumeration is a letter |
| Board.ToGridBlock | web/board.ts:179-181 | the key determines the block coordinates |
| Board.Block.Set | web/board.ts:172-176 | all three fields are replaced |
| Board.BlockStore.SetBlock | web/board.ts:183-190 | the key set gains the key; a block is created only for a new key; only that key's data changes, to the new data |
| Board.BlockStore.GetBlock | web/board.ts:192-194 | a block is found exactly when its key is stored, and it is the stored block |
| Board.SetThenGet | web/board.ts:183-194 | after `setBlock`, `getBlock` at the same coordinates gives a block with those coordinates and that data |
| Quad.GetCell | web/quad.ts:36-43 | -1 exactly outside the block; otherwise an index in 0..GRID_SIZE²-1 |
| Quad.LocalOf | web/quad.ts:90-92 | an index inside the block gives a column and row inside the block |
| Quad.GetCellOfLocal | web/quad.ts:90-92 | `getCell` of the row and column that `update` computes is the index again |
| Quad.LocalOfGetCell | web/quad.ts:36-43 | the row and column of `getCell`'s index are the cell again |
| Quad.GetCellInjective | web/quad.ts:36-43 | distinct cells inside the block have distinct indices |
| Quad.InitialClueNumbers | web/quad.ts:28 | `clueNumbers` starts as GRID_SIZE² zeros |
| State.ExpectNonNull | web/state.ts:11-16 | `expect` throws exactly on null, and otherwise returns the value unchanged |
| State.Global.constructor | web/state.ts:25-28 | the top-left, drag-start and drag positions all start at (0, 0) |
| State.Global.GamePosition | web/state.ts:32-37 | both coordinates are the top-left plus the drag when that is non-negative, and 0 otherwise |
| State.Global.SetGamePosition | web/state.ts:39-41 | the top-left becomes the arguments clamped at 0; the drag positions are unchanged |
| State.Global.GetViewRect | web/state.ts:43-51 | the origin is the unclamped top-left plus the drag; the size is the container's |
| State.Global.GamePositionClampsViewRect | web/state.ts:32-51 | the shown position is the view rectangle's origin clamped at 0 |
| Timing.Debounce.Trigger | web/timing.ts:8-16 | the single pending run moves to `delay` after this trigger; nothing runs |
| Timing.Debounce.Fire | web/timing.ts:12-15 | the handler runs once and nothing stays pending |
| Timing.DebounceBurst | web/timing.ts:1-17 | a burst of triggers runs the handler exactly once, `delay` after the last trigger |
| Timing.Throttle.constructor | web/timing.ts:20-25 | the last execution starts at 0 and no callback is pending |
| Timing.Throttle.Trigger | web/timing.ts:27-47 | when `delay` has passed since the last run, the handler runs now; otherwise a callback is scheduled `now - lastExecution` ahead |
| Timing.Throttle.Fire | web/timing.ts:37-46 | the callback runs the handler, and runs it again through `trigger` when `delay` has passed since the last run |
| Timing.ThrottleEarlyFire | web/timing.ts:46 | a trigger 10 after a run schedules a run 20 after it, inside the 500 delay |
| Timing.ThrottleDoubleRun | web/timing.ts:37-41 | a burst ends in one callback that runs the handler twice at the same time |
| Timing.SpacedThrottle.Trigger | web/timing.ts:27-47 | the intended throttle either runs now or schedules the run for `delay` after the last run, and consecutive runs stay `delay` apart |
| Timing.SpacedThrottle.Fire | web/timing.ts:37-46 | the intended callback runs the handler once and keeps the runs `delay` apart |
| Timing.SpacedThrottleBurst | web/timing.ts:19-47 | the burst of `ThrottleDoubleRun` runs the intended throttle's handler at 10000 and at 10500 |
| GraphicQuad.GraphicQuad.Update | web/graphic_quad.ts:24-28 | the quad's cell data is replaced by the incoming cells |
| Client.IsRectangleEqual | web/main.ts:23-27 | true exactly when the two rectangles are equal |
| Client.GlobalPos | web/main.ts:159 | a fragment is filed under its offset plus the block's coordinates, unscaled |
| Client.WithClue | web/main.ts:161-165 | a matched entry keeps its position and gets the fragment as `hor` when `dir` is 0, and as `ver` otherwise; the other direction is unchanged |
| Client.UpdateMatching | web/main.ts:154-168 | the inner loop over the clue list: every defined entry at the position gets the fragment, other slots stay; the length is unchanged |
| Client.NewEntry | web/main.ts:174-184 | the entry made for an unmatched fragment sits at the fragment's position and holds nothing but that fragment |
| Client.MergeClue | web/main.ts:152-185 | one fragment merged: the list grows by one exactly when nothing matched and there is no hole, and every defined entry at another position is unchanged |
| Client.MergeAll | web/main.ts:151-186 | every fragment of a message merged in order: the list grows by at most one per fragment, and does not grow when no fragment was new |
| Client.LastHole | web/main.ts:154-158 | the highest undefined slot, or -1 when no slot is undefined |
| Client.MergeMatched | web/main.ts:159-171 | a fragment that matches sets only its direction's field in every entry at its position; every other slot is unchanged |
| Client.MergeUnmatched | web/main.ts:172-185 | a fragment that matches nothing fills the highest undefined slot, or appends when there is none; no defined entry changes |
| Client.NewEntryFields | web/main.ts:174-184 | a new entry holds the fragment as `hor` exactly when dir is 0 and as `ver` exactly when dir is 1 |
| Client.CountAt | web/main.ts:159 | a position has no entries exactly when no defined slot matches it |
| Client.MergeCounts | web/main.ts:151-186 | merging gives the fragment's position one entry if it had none; no other position's entry count changes |
| Client.AcrossThenDown | web/main.ts:151-186 | an across fragment and then a down fragment at a new position leave one entry there holding both |
| Client.ClientState.MergeFragment | web/main.ts:151-186 | the clue loop's body leaves the clue list as the merge of one fragment, and sets `dirtyClues` exactly when nothing matched |
| Client.ClientState.MergeClues | web/main.ts:151-186 | the fragment loop merges every fragment in order; `dirtyClues` is set when any fragment was new |
| Client.ClientState.ShowBlock | web/main.ts:187-195 | a quad is created only for an index without one; that quad's data becomes the block; no other quad changes |
| Client.ClientState.SyncBlock | web/main.ts:149-197 | the sync_block handler: the clue merge followed by the quad update |
| Client.ClientState.ConsumeDirtyClues | web/main.ts:282-286 | the frame loop redraws exactly when `dirtyClues` was set, and the flag ends up cleared |
| Client.Selection.Click | web/main.ts:102-110 | a click on the centre flips the direction; any other click moves the centre and keeps the direction |
| Client.DoubleClick | web/main.ts:102-110 | two clicks on the centre restore the direction; two clicks elsewhere move the centre there and flip the direction once |
| Client.HorizontalExtent | web/main.ts:293-315 | when the centre lies inside the view, x1 is the first black cell at or right of the centre, or one past the view, and x0 is the first black cell at or left of the centre, or the view's left edge; an end whose scan never starts because the centre lies beyond that edge stays at the centre; no cell strictly between the centre and either end is black |
| Client.VerticalExtent | web/main.ts:316-338 | the same in the down direction: with the centre inside the view, y1 at the first black cell or one past the view's bottom, y0 at the first black cell or the top edge; an end whose scan never starts stays at the centre |
| HighscoreTable.ReadEntry | web/highscoreTable.ts:61-80 | a successful entry read ends `12 + nick + last word` bytes on, inside the buffer |
| HighscoreTable.HeaderCount | web/highscoreTable.ts:39-59 | the entry count is read exactly when the magic number is "HISC", the version is 1 and the count fits in the buffer |
| HighscoreTable.ParseHighscores | web/highscoreTable.ts:34-93 | a bad header gives no entries; otherwise at most the announced count |
| HighscoreTable.ReadHeader | web/highscoreTable.ts:37-59 | the header reads give the count exactly as the header function does |
| HighscoreTable.ReadEntryAt | web/highscoreTable.ts:62-80 | one pass of the entry loop, including the byte-by-byte last-word loop, reads exactly the entry of the parse function |
| HighscoreTable.HighscoreTable.LoadEntries | web/highscoreTable.ts:61-90 | the entry loop pushes the entries read in file order onto the existing list, and stops at the first entry that cannot be read |
| HighscoreTable.HighscoreTable.Refresh | web/highscoreTable.ts:23-94 | a failed fetch leaves the entries alone; otherwise they become the parsed entries, and a read past the end keeps those read before it |
| HighscoreTable.EncodeEntriesSize | web/highscoreTable.ts:61-80 | the written entries take 12 + nick + last word bytes each |
| HighscoreTable.ReadEntryEncoded | web/highscoreTable.ts:62-80 | an entry written anywhere reads back, and the offset moves past it |
| HighscoreTable.HeaderEncoded | web/highscoreTable.ts:39-59 | a written file passes the header checks and announces its entry count |
| HighscoreTable.ParseEncoded | web/highscoreTable.ts:34-93 | a written file parses back to all its entries, in order, ending at 8 plus the entries' size |
| HighscoreTable.ReadEntryTruncated | web/highscoreTable.ts:62-80 | an entry cut short anywhere fails to read |
| HighscoreTable.HeaderPrefix | web/highscoreTable.ts:39-59 | the header reads the same in any prefix holding 8 bytes, and fails in a shorter one |
| HighscoreTable.ParseTruncated | web/highscoreTable.ts:24-93 | a written file cut short keeps exactly the entries written before the cut, and none when the cut is inside the header |
| Profile.HeaderStop | web/profile.ts:40-45 | the body is read exactly when the magic number is 0x1fa1abce and the version is 1 |
| Profile.ReadSolve | web/profile.ts:61-70 | one solve record: time, length-prefixed word and length-prefixed clue; on success the word and both length fields lie inside the buffer, and the offset moves at least past the word and the clue read, which may be cut short |
| Profile.ReadFixed | web/profile.ts:47-59 | each fixed field is reached only when the previous one was |
| Profile.LoadSteps | web/profile.ts:38-81 | a bad header sets nothing; a wrong magic number or a wrong version returns normally; past a good header every field reached holds the value read; the call rejects exactly when a header, fixed-field or solve read runs past the end; `loaded` is set exactly when the call returns normally with the score read, and then every announced solve was read |
| Profile.CheckHeader | web/profile.ts:38-45 | the header reads settle exactly as the header function says |
| Profile.ReadSolveAt | web/profile.ts:61-70 | one pass of the solve loop reads exactly the solve of the parse function |
| Profile.ProfileSession.LoadFixed | web/profile.ts:47-59 | each fixed field is stored as soon as it is read; fields past a failed read keep their old values |
| Profile.ProfileSession.LoadSolves | web/profile.ts:60-75 | the solves read are appended in file order to the existing list; the loop completes exactly when every announced solve was read |
| Profile.ProfileSession.Load | web/profile.ts:33-82 | `id` is set; a failed fetch changes nothing else; otherwise every field follows the load steps, solves are appended, and `loaded` only ever becomes true |
| Profile.EncodeSolvesSize | web/profile.ts:60-70 | the written solves take 12 + word + clue bytes each |
| Profile.ReadSolveEncoded | web/profile.ts:61-70 | a solve written anywhere reads back, and the offset moves past it |
| Profile.HeaderEncoded | web/profile.ts:40-45 | a written profile passes the header checks |
| Profile.NickEncoded | web/profile.ts:47-53 | the update time, the nick length and the nick of a written profile read back |
| Profile.CountsEncoded | web/profile.ts:54-59 | the clue count, the score and the solve count of a written profile read back |
| Profile.LoadEncoded | web/profile.ts:38-81 | a written profile loads every field and all solves in order, sets `loaded`, and ends at 26 + nick length + the solves' size |
| Profile.ReadSolveCut | web/profile.ts:67-70 | a buffer that ends inside a solve's clue still yields the solve with the clue cut short, and the offset moves past the end of the buffer |
| Profile.LoadCutInHead | web/profile.ts:38-81 | a written profile cut anywhere before its first solve rejects the call, appends no solve and leaves `loaded` false |

## Left out

- Rendering (pixi.js containers, graphics, text pools, pivots and masks) is not modelled: it has no logic beyond drawing.
- The WebSocket (creation, `onmessage` dispatch, `ws.send`, `onopen`/`onclose`) and `fetch` with `response.arrayBuffer` are I/O. The model takes the decoded message or the response flag and its bytes as inputs.
- A fetch that itself fails (a network error) is not modelled. For the highscore table it is caught; for the profile it rejects `load`.
- `netParseSyncChunk`, `netParseReady`, `quadIndex`, `getCell` on the board, `cellToValue` and `getViewRectCells` are defined outside the modelled files. They are inputs: a decoded `NetSyncBlock`, a block index, an `isBlack` test and a view rectangle.
- TextDecoder: nicks, words, clues and last words stay as bytes, because UTF-8 decoding is not modelled.
- `new Date(Number(...))`: timestamps stay as the 64-bit integers read, because conversion to a floating-point Date is not modelled.
- Svelte stores are plain fields, and `update`/`set` are field assignments; subscribers are not modelled.
- `ProfileSession.refresh` is empty in the client and has no model.
- `Block.refresh` and `Quad.update` draw. Only the index arithmetic of `Quad.update` is kept (`Quad.LocalOf`).
- `console` logging is not modelled.
- Floating-point pixel arithmetic (`Math.floor(pp.x / GRID_CELL_PX)` in the click handler) is not modelled. The click handler receives the cell.
- `GRID_SIZE` is a parameter of `Quad`, because the client's files disagree on its value.
- The highscore and profile encoders are the model's own. The client only reads these files.
- The highscore entries and profile solves are values (datatypes), not objects, because the client never updates them after they are read.
- Profile.ReadSolveCut is stated on a buffer described by its field reads. It is not stated as the whole-file load of an encoded profile cut inside its solves; `Profile.LoadCutInHead` covers only a cut before the first solve.
- The timer queue is not modelled as a queue. When a timer fires is the caller's choice, constrained only to be at or after its deadline.
- Timing.Throttle.Fire and Timing.SpacedThrottle.Fire take one `now` for the three `Date.now()` reads of a callback (web/timing.ts:28, 39, 43), as if no time passed while it ran, and the handler is taken not to call back into the throttle.
- State.Global: JavaScript numbers are IEEE doubles and the model uses unbounded integers, so the fractional pixel positions of `topLeftPosition`, `stageDragPosition` and `getSize()` (web/state.ts:32-51) are not modelled.
- Net.ToUint32: it is `v % 2^32` on integers, so ToUint32's truncation of a fractional argument to `setUint32` (web/net.ts:14) is not modelled.
- Board.ToCellEnum: it is `value % 128` on integers, so ToInt32's truncation of a fractional or out-of-range number in `value & 0x7f` (web/board.ts:115) is not modelled.

## Findings

| source | as written | input that shows it | evidently intended | confidence | as-written member | corrected member |
|---|---|---|---|---|---|---|
| web/timing.ts:46 | the throttle's callback is scheduled `now - lastExecution` after the trigger, which is the time already elapsed | delay 500, last run at 10000, trigger at 10010: the callback runs at 10020, 20 after the previous run | schedule it `delay - (now - lastExecution)` ahead, so runs stay `delay` apart | not executed | Timing.ThrottleEarlyFire | Timing.SpacedThrottle.Trigger |
| web/timing.ts:37-41 | the callback runs the handler, then calls `trigger`, which runs it again when `delay` has passed since the last run | delay 500, triggers at 10000, 10100, 10200 and 10400: the callback at 10800 runs the handler twice | the callback runs the handler once and records the run | not executed | Timing.ThrottleDoubleRun | Timing.SpacedThrottle.Fire |
