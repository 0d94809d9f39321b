# Case studies, verified

A Dafny model of the parts of this repository where correctness is not obvious, with proofs.

**The line editor** (`zigredis/src/include/linenoise.c`). A fixed byte buffer edited in place,
a history whose slots are edited during a session, and repaint code that emits relative cursor
motions from two remembered numbers, `oldpos` and `oldrows`. The terminal is modelled as a grid
that is unbounded downwards and stops the cursor at its top row, with deferred wrap and a parser
for the byte sequences CR, LF, CUU, CUD, CUF, CUP, ED and EL (sections 8.3.15, 8.3.74, 8.3.22,
8.3.19, 8.3.20, 8.3.21, 8.3.39 and 8.3.41 of ECMA-48). A motion by 0 moves by 1, as on the VT100
and in xterm, and EL in pending wrap erases the last column. Everything the editor writes is a
string of bytes that this parser reads.
- `Terminal`, `MultiLine`, `SingleLine`: what the emitted bytes paint.
- `LineText`, `Keys`, `KeyLaws`, `HistoryNav`, `Editor`: the keys, what each does to text and
  position, and the editor as a class whose methods keep the terminal in step with the line.
- `History`, `HistoryFile`, `SessionHistory`: the bounded history, saving and loading it, and what a
  session does to it.

**The key-value store** (`zig-caskdb/src`). A log of length-prefixed records, a directory of value
positions, one file cursor shared by readers and the writer, and a position the writer keeps for
itself. `CaskLog` is the file format and its scan, `CaskIndex` the directory and runs of calls,
`CaskDb` the classes with the allocations of keys, `Segments` the choice of the active file.

**The Redis client** (`zigredis/src/req.zig`, `zigredis/src/rsp.zig`). `Tokenizer`, `ZigInt` and
`Decimal` model the pieces of the Zig library both sides use; `Request` and `Response` are the two
programs; `RequestLaws` and `ReplyLaws` say what each command sends and what each reply gives;
`RespRoundTrip` proves them against each other and against the array and bulk-string
grammar of the Redis serialization protocol (RESP2).

**The path compiler** (`utils/pahole.py`): `FetchExpr`.

Where the code does not do what one would expect, the exact condition under which it does is
proved, and the failure is part of the statement:
- A prompt longer than the terminal is wide is painted twice on the first multi-line repaint, and
  one exactly as wide leaves the cursor a row short while nothing is typed
  (`MultiLine.EveryRunRightIff`, `MultiLine.PaintedRightIff`).
- A key that repaints a line which is hidden wipes rows above it, unless the cursor was on the
  line's first row (`MultiLine.HiddenRepaintIff`).
- In single-line mode a row that is filled to its last column loses that column, and an empty
  prompt with the cursor at 0 leaves the cursor on column 1 (`SingleLine.RepaintRightIff`), after
  which a typed byte lands in the wrong column (`SingleLine.ShortcutAfterRepaintIff`) and so does
  what is typed behind it, until the next repaint. Which sessions end so is computed from the keys
  alone (`Keys.Session`, `Editor.LineState.BlockingEdit`, `Editor.LineState.RightIff`); typing,
  erasing and typing again is one (`Keys.EraseThenTypeShifts`).
- A line that uses the last byte of the buffer comes back from the history one byte short
  (`HistoryNav.PrevNextRestoresIff`); a saved line of 4095 bytes is loaded with an empty line
  after it (`HistoryFile.RoundTripIff`). A session leaves a full history without its oldest line,
  and one whose newest line is empty without that line (`SessionHistory.HistoryKeptIff`).
- A load moves the cursor that the next store writes at (`CaskIndex.RunAgreesIff`,
  `CaskIndex.LoadThenStoreLoses`); a store is allowed to make the log longer than the next scan
  can count (`CaskIndex.ReopenIff`); an open that fails leaks the keys it read
  (`CaskDb.DB.Open`); a record with an empty key ends every later scan
  (`CaskIndex.EmptyKeyHidesRest`); a file cut inside a record opens without complaint in some
  cases (`CaskIndex.OpenCutAgreesIff`); ids are compared as text (`Segments.ActiveIsLargestIff`); and
  the file opened is the one named by the id, which need not be the one listed
  (`Segments.OpensListedIff`, `Segments.MisreadNames`).
- A string that holds CR LF does not survive the reply parser (`RespRoundTrip.RoundTripIff`); words
  beyond what a command takes, and words before it, are not sent (`RespRoundTrip.SentIsTypedIff`).

`dafny verify dfyconfig.toml` checks the whole project.

## Model

| member | source | states |
|---|---|---|
| Terminal.FeedSeq | zigredis/src/include/linenoise.c:616-617 | the numeral printed into a control sequence is the count the terminal obeys |
| Terminal.FeedText | zigredis/src/include/linenoise.c:637-643 | printing text from the left edge lays it out row by row, ending in pending wrap exactly when it fills a row |
| Terminal.LayoutAt | zigredis/src/include/linenoise.c:637-643 | the layout holds character (row - top) * cols + col at (row, col) and nothing else |
| MultiLine.FeedClearUp | zigredis/src/include/linenoise.c:621-625 | the clear-and-go-up loop blanks exactly the rows it walks, stopping at the top of the display |
| MultiLine.CleanWipes | zigredis/src/include/linenoise.c:613-633 | from any state the memo fits, the clearing half blanks everything from the prompt's row down and parks there |
| MultiLine.RowArithmetic | zigredis/src/include/linenoise.c:599-600 | the integer row formulas equal the rows of the last cell and of the cursor, for every length, position and width |
| MultiLine.UpwardRows | zigredis/src/include/linenoise.c:663-671 | the upward move ends on the cursor's row, the extra newline included |
| MultiLine.WritePaints | zigredis/src/include/linenoise.c:635-681 | writing on a blank canvas paints prompt and text and places the cursor |
| MultiLine.RepaintPaints | zigredis/src/include/linenoise.c:596-688 | a full repaint shows exactly prompt and text from the origin, blanks the rest, and keeps the rows above |
| MultiLine.PaintedIsReady | zigredis/src/include/linenoise.c:607-684 | the oldpos and oldrows left by a repaint are good enough for the next one, whatever is edited between |
| MultiLine.PaintedCells | zigredis/src/include/linenoise.c:635-643 | cell by cell, both directions: the byte of prompt or text that stands in each cell, a star for each byte of a masked text, what is above the origin, and blanks |
| MultiLine.MaskHides | zigredis/src/include/linenoise.c:637-641 | the bytes written for a masked line depend on the text only through its length |
| MultiLine.PaintedRightIff | zigredis/src/include/linenoise.c:635-680 | what a repaint paints is prompt and text with the cursor at row (plen+pos)/cols and column (plen+pos)%cols, if and only if it is not the empty line after a prompt that fills its rows; there the cursor is one row too high |
| MultiLine.RunPaints | zigredis/src/include/linenoise.c:596-688 | after any run of repaints the screen shows the last line alone |
| MultiLine.EveryRunRightIff | zigredis/src/include/linenoise.c:871-905 | from the start of an edit every run of repaints ends with the right screen, cursor included, if and only if the prompt is shorter than a row, or fills exactly one and something is typed |
| MultiLine.StartPainted | zigredis/src/include/linenoise.c:881-903 | printing the prompt alone is what a repaint of the empty line would show |
| MultiLine.StartRefreshes | zigredis/src/include/linenoise.c:881-903 | after a prompt of any length the first repaint finds the memo it needs |
| MultiLine.LoweredIsWrong | zigredis/src/include/linenoise.c:596-688 | behind a prompt longer than a row the line is painted below where it belongs |
| MultiLine.HideThenShow | zigredis/src/include/linenoise.c:705-719 | hiding blanks every row used and parks at the prompt; showing then restores grid, cursor and memo |
| MultiLine.HiddenRepaintIff | zigredis/src/include/linenoise.c:596-719 | a key that repaints a hidden line begins on the right row if and only if that is the top of the display or the cursor was on the line's first row |
| MultiLine.ShowPaints | zigredis/src/include/linenoise.c:713-719 | showing paints wherever the cursor stands |
| MultiLine.ClearScreenIsReady | zigredis/src/include/linenoise.c:1077-1080 | clearing the display leaves a stale memo that still makes the next repaint land on the top row |
| SingleLine.RepaintRow | zigredis/src/include/linenoise.c:540-587 | the bytes written give the row of prompt and window, less its last cell if full, whatever was there before |
| SingleLine.RepaintRightIff | zigredis/src/include/linenoise.c:549-583 | that row and cursor are right if and only if the row is not full with the cursor inside the text and the cursor is not at column 0 |
| SingleLine.WindowShowsCursor | zigredis/src/include/linenoise.c:549-556 | the scrolled window always contains the edited position, at the cursor's column |
| SingleLine.WindowIsScroll | zigredis/src/include/linenoise.c:549-571 | the text is scrolled by the least that brings the cursor onto the row, and every byte that then fits is shown, as a star when masked |
| SingleLine.IdealRow | zigredis/src/include/linenoise.c:549-583 | column by column, both directions: which byte of prompt or text the row should show, and where the cursor should be |
| SingleLine.ActualRow | zigredis/src/include/linenoise.c:549-583 | the row as it is differs from that only in the last column, when text reaches it, and in a cursor that should be at column 0 |
| SingleLine.MaskHidesRow | zigredis/src/include/linenoise.c:566-571 | the bytes written for a masked line, the shortcut's included, depend on the text only through its length |
| SingleLine.RepaintForgets | zigredis/src/include/linenoise.c:558-583 | repaints leave no trace of earlier ones |
| SingleLine.HideThenShowRow | zigredis/src/include/linenoise.c:705-719 | hiding empties the row and showing paints it as a repaint would |
| SingleLine.ShortcutIsRepaint | zigredis/src/include/linenoise.c:731-738 | on a right row, writing the one byte gives the very screen a full repaint of the longer text gives |
| SingleLine.ShortcutAfterRepaintIff | zigredis/src/include/linenoise.c:731-738 | straight after a repaint the shortcut agrees with a full repaint if and only if prompt or text is not empty |
| SingleLine.EchoSteps | zigredis/src/include/linenoise.c:731-738 | the one byte takes the row from one standing to the next: from the start or a repaint to a repaint, from a repainted bare row to the very same text one column to the right, which stays so |
| SingleLine.RowRightIff | zigredis/src/include/linenoise.c:540-587 | in which standings and positions the row and cursor are as they should be, both directions |
| LineText.DeleteWordIff | zigredis/src/include/linenoise.c:833-845 | what is kept is the unique text that ends between words, before one maximal word and its blanks |
| LineText.TransposeConserves | zigredis/src/include/linenoise.c:982-990 | Ctrl-T exchanges the two bytes at the cursor and conserves the multiset of bytes |
| LineText.InsertUndone | zigredis/src/include/linenoise.c:724-829 | Backspace and Delete undo an insertion from either side |
| LineText.MovesUndone | zigredis/src/include/linenoise.c:752-765 | the two moves are inverse and keep the text |
| LineText.DeleteIsBackspaceAhead | zigredis/src/include/linenoise.c:811-829 | deleting ahead is stepping over a byte and deleting behind |
| Keys.SpellingsDecode | zigredis/src/include/linenoise.c:950-1085 | every key is read from the bytes a terminal sends for it, whatever bytes follow |
| Keys.TypedIff | zigredis/src/include/linenoise.c:1058-1060 | a byte is typed into the line exactly when it starts no key's spelling |
| Editor.LineState.ReadKey | zigredis/src/include/linenoise.c:950-1085 | the switch over the bytes read finds exactly the key, and consumes exactly the bytes, that the specification gives |
| KeyLaws.MovingKeys | zigredis/src/include/linenoise.c:768-1085 | what each byte and escape sequence for Home, End, Left, Right and Ctrl-L does to text and position |
| KeyLaws.CuttingKeys | zigredis/src/include/linenoise.c:982-1070 | what Ctrl-U, Ctrl-K and Ctrl-T do to text and position, and when nothing |
| KeyLaws.BackspaceKeys | zigredis/src/include/linenoise.c:821-829 | Backspace and Ctrl-H take the byte before the cursor, and nothing at the start |
| KeyLaws.DeleteKeys | zigredis/src/include/linenoise.c:811-818 | Ctrl-D and the Delete key take the byte at the cursor, and nothing at the end |
| KeyLaws.WordKey | zigredis/src/include/linenoise.c:833-845 | Ctrl-W leaves exactly the text that ends between words before the word and blanks it takes |
| KeyLaws.TypingKey | zigredis/src/include/linenoise.c:724-749 | every other byte is put at the cursor if the buffer has room |
| KeyLaws.EndingKeys | zigredis/src/include/linenoise.c:951-983 | what Enter, Ctrl-C and Ctrl-D on an empty line return and do to the history |
| KeyLaws.OtherEscapes | zigredis/src/include/linenoise.c:1000-1057 | an escape sequence that spells no key changes nothing |
| KeyLaws.KeyLength | zigredis/src/include/linenoise.c:1000-1057 | how many bytes each key takes from the input |
| KeyLaws.HistoryKeys | zigredis/src/include/linenoise.c:787-807 | the history keys write the text to its slot and show the next older or newer one, cut to the buffer, and stop at the ends |
| KeyLaws.SessionGoesOn | zigredis/src/include/linenoise.c:1102-1117 | a session goes on behind the bytes of each key that does not end it |
| KeyLaws.TypedIsReturned | zigredis/src/include/linenoise.c:1102-1117 | printable bytes typed and entered come back unchanged while the buffer has room |
| KeyLaws.RepaintingKeys | zigredis/src/include/linenoise.c:752-1085 | which keys repaint the line, by the text and the position |
| KeyLaws.TypingRow | zigredis/src/include/linenoise.c:731-738 | when the shortcut is taken and what it makes of the row |
| Keys.ApplyKeeps | zigredis/src/include/linenoise.c:950-1085 | while a session goes on no key changes the number of slots, loses the focus or outgrows the buffer |
| Keys.ApplyVisible | zigredis/src/include/linenoise.c:950-1085 | only an unprintable key that is typed makes the line or the history unprintable |
| Keys.PromptKeepsRow | zigredis/src/include/linenoise.c:731-738 | behind a prompt, and in multi-line mode, no session shifts its text |
| Keys.EraseThenTypeShifts | zigredis/src/include/linenoise.c:731-738 | with an empty prompt, typing a byte, erasing it and typing another leaves the row shifted |
| HistoryNav.NavigationRefines | zigredis/src/include/linenoise.c:787-807 | any interleaving of edits and moves acts on a vector of lines with a clamped focus; no edit is lost |
| HistoryNav.PrevNextRestoresIff | zigredis/src/include/linenoise.c:791-804 | going to an older line and back restores the text if and only if it has no NUL and leaves the buffer's last byte unused |
| SessionHistory.KeyActs | zigredis/src/include/linenoise.c:950-1085 | every key that does not end the session acts on the history as an edit of the line or a move |
| SessionHistory.SessionNavigates | zigredis/src/include/linenoise.c:1102-1117 | a whole session acts on the history as its keys do one after the other, and Enter or end of file takes the newest slot out |
| SessionHistory.SessionEditsVector | zigredis/src/include/linenoise.c:1102-1117 | a whole session edits a vector of lines with a clamped focus: the line in focus is returned and every other one is left in the history as edited |
| SessionHistory.HistoryKeptIff | zigredis/src/include/linenoise.c:897-964 | a session without history moves leaves the history as it was if and only if, after Enter or end of file, it was not full and did not end in an empty line; after Ctrl-C, if it did end in one |
| Memory.MemMove | zigredis/src/include/linenoise.c:740 | overlapping moves read all bytes before writing any |
| Memory.StrNCpy | zigredis/src/include/linenoise.c:802 | copies at most n bytes and pads with NUL |
| Editor.LineState.constructor | zigredis/src/include/linenoise.c:871-905 | the history gets an empty line unless its newest is empty already, the prompt is printed, and the empty line stands on the terminal; the canvas is the screen given, or what a prompt longer than a row leaves above its last row |
| Editor.LineState.AppendClean | zigredis/src/include/linenoise.c:613-626 | the loop emits the bytes of the clearing half |
| Editor.LineState.AppendText | zigredis/src/include/linenoise.c:566-570 | prompt and a stretch of text, one star a byte in mask mode |
| Editor.LineState.RefreshMultiLine | zigredis/src/include/linenoise.c:596-688 | writes exactly the specified bytes and leaves the specified memo |
| Editor.LineState.FindWindow | zigredis/src/include/linenoise.c:549-556 | the two shortening loops find the window and the cursor's column |
| Editor.LineState.RefreshSingleLine | zigredis/src/include/linenoise.c:540-587 | exactly the specified bytes are written |
| Editor.LineState.Refresh | zigredis/src/include/linenoise.c:692-702 | a full repaint brings the terminal in step from any state that can be repainted |
| Editor.LineState.StandsRefresh | zigredis/src/include/linenoise.c:692-702 | however the line stands on the terminal, a repaint will bring it in step |
| Editor.LineState.RightIff | zigredis/src/include/linenoise.c:596-688 | what the terminal shows is what it should show if and only if, in multi-line mode, it is not the empty line after a prompt that fills its rows, or a prompt that fills a row just printed; in single-line mode, text is not shifted, the row was not filled by a repaint with the cursor inside the text, and the cursor was not to stay on column 0 |
| Editor.LineState.Hide | zigredis/src/include/linenoise.c:705-710 | a line that a repaint could bring in step is wiped from the canvas |
| Editor.LineState.Show | zigredis/src/include/linenoise.c:713-719 | the line is in step again where the cursor stands |
| Editor.LineState.Insert | zigredis/src/include/linenoise.c:724-749 | inserts at the cursor; the shortcut takes the row to its next standing, any other insertion repaints, a full buffer changes nothing |
| Editor.LineState.MoveLeft | zigredis/src/include/linenoise.c:752-757 | one byte left and a repaint; at the start nothing changes |
| Editor.LineState.MoveRight | zigredis/src/include/linenoise.c:760-765 | one byte right and a repaint; at the end nothing changes |
| Editor.LineState.MoveHome | zigredis/src/include/linenoise.c:768-773 | to the start and a repaint, unless there already |
| Editor.LineState.MoveEnd | zigredis/src/include/linenoise.c:776-781 | to the end and a repaint, unless there already |
| Editor.LineState.Delete | zigredis/src/include/linenoise.c:811-818 | the buffer after the shift is the line without the byte at the cursor, NUL-terminated, repainted; at the end nothing changes |
| Editor.LineState.Backspace | zigredis/src/include/linenoise.c:821-829 | the buffer after the shift is the line without the byte before the cursor, NUL-terminated, repainted; at the start nothing changes |
| Editor.LineState.DeletePrevWord | zigredis/src/include/linenoise.c:833-845 | the two loops and the shift remove the previous word and its blanks, and repaint |
| Editor.LineState.Exchange | zigredis/src/include/linenoise.c:982-990 | Ctrl-T in place with a repaint; at either end nothing changes |
| Editor.LineState.KillWhole | zigredis/src/include/linenoise.c:1061-1065 | Ctrl-U empties the line and repaints |
| Editor.LineState.KillTail | zigredis/src/include/linenoise.c:1066-1070 | Ctrl-K cuts the line at the cursor and repaints |
| Editor.LineState.HistoryNext | zigredis/src/include/linenoise.c:787-807 | saves the slot in focus, and shows its neighbour with a repaint unless there is none; with a buffer of one byte the write out of bounds is reported |
| Editor.LineState.RedrawScreen | zigredis/src/include/linenoise.c:1077-1080 | after Ctrl-L the line is in step with the canvas cleared from its top row down |
| Editor.LineState.Accept | zigredis/src/include/linenoise.c:951-964 | Enter takes the session's slot out of the history and returns the text up to its first NUL |
| Editor.LineState.DeleteOrEof | zigredis/src/include/linenoise.c:972-983 | Ctrl-D erases under the cursor, or on an empty line drops the slot and ends the input |
| Editor.LineState.Press | zigredis/src/include/linenoise.c:950-1085 | every key does to line, history and outcome what its specification says, leaves the row standing as the key decides, and clears the canvas only for Ctrl-L |
| Editor.LineState.EditFeed | zigredis/src/include/linenoise.c:927-1086 | takes one key's bytes from the input, escape sequences included, with all that key does to line, row and canvas |
| Editor.LineState.BlockingEdit | zigredis/src/include/linenoise.c:1102-1117 | a whole session equals the fold of its keys: line, history, outcome, and, when what is typed is printable, how the line stands on the terminal and on which canvas: the one it began on, cleared if and only if Ctrl-L was pressed |
| History.CallKeeps | zigredis/src/include/linenoise.c:1249-1308 | line by line what one add and one change of the limit keep, add and drop |
| History.LogIsDeduplicated | zigredis/src/include/linenoise.c:1262 | the log has no line twice in a row and grows by each line that is not its last |
| History.BoundedRefinesLog | zigredis/src/include/linenoise.c:1249-1308 | after any adds and limit changes the history is a suffix of the deduplicated log, within the limit |
| History.FixedLimitIsLastN | zigredis/src/include/linenoise.c:1249-1276 | under one limit it is exactly the last lines of the log up to the limit |
| History.Store.Add | zigredis/src/include/linenoise.c:1249-1276 | the array after an add holds the pushed history; the return value tells whether the line was new |
| History.Store.SetMaxLen | zigredis/src/include/linenoise.c:1282-1308 | the new array holds the newest lines that fit; a limit below 1 is refused |
| HistoryFile.Save | zigredis/src/include/linenoise.c:1321-1322 | the file is the lines, each with its LF |
| HistoryFile.Fgets | zigredis/src/include/linenoise.c:1338 | one buffer: up to the first LF, at most 4095 bytes |
| HistoryFile.Load | zigredis/src/include/linenoise.c:1332-1348 | every buffer of the file is cut and added in order |
| HistoryFile.LoadedFits | zigredis/src/include/linenoise.c:1338-1345 | whatever the file, what is loaded has no line ends, no overlong or repeated lines, and fits the limit |
| HistoryFile.CutStops | zigredis/src/include/linenoise.c:1339-1345 | each buffer is cut at its first CR, LF or NUL |
| HistoryFile.CrLfLine | zigredis/src/include/linenoise.c:1338-1345 | a line that ends in CR LF is loaded without either |
| HistoryFile.LongLine | zigredis/src/include/linenoise.c:1338-1345 | a longer line is loaded in pieces of 4095 bytes |
| HistoryFile.LastLine | zigredis/src/include/linenoise.c:1338-1345 | the last line needs no LF |
| HistoryFile.RoundTripIff | zigredis/src/include/linenoise.c:1312-1348 | saving and loading restores the history if and only if it fits, has no repeats or line ends, and every line of 4095 bytes is followed by an empty one |
| CaskLog.U32Le32 | zig-caskdb/src/disk.zig:18-19 | the little-endian size fields read back as written |
| CaskLog.EncodedBytes | zig-caskdb/src/disk.zig:9-23 | a record byte by byte: two sizes, least significant byte first, the key, the value |
| CaskLog.ScanRecord | zig-caskdb/src/disk.zig:133-157 | a record is read as itself wherever it stands, even when its value is missing |
| CaskLog.ScanLog | zig-caskdb/src/disk.zig:126-160 | scanning a log finds every record in order and leaves the cursor at the end |
| CaskLog.LongLogTraps | zig-caskdb/src/disk.zig:149-150 | a log longer than 2^32-1 bytes traps the scan |
| CaskLog.EveryTruncation | zig-caskdb/src/disk.zig:132-159 | every prefix of any log is classified by where its last record is cut, and by whether a record that ends past 2^32-1 was reached |
| CaskIndex.IndexFindsValues | zig-caskdb/src/db.zig:100-112 | the directory has exactly the stored keys; each location lies in the file, holds the last value stored and names the active file |
| CaskIndex.OpenLogIff | zig-caskdb/src/db.zig:64-98 | replay equals incremental: opening a log rebuilds the directory the stores built, with the cursor at the writer's position, if and only if the log is at most 2^32-1 bytes long, and traps otherwise |
| CaskIndex.OpenCutAgreesIff | zig-caskdb/src/disk.zig:103-159 | opening a log cut inside a record succeeds for two kinds of cut, gives a consistent store only when nothing of the record is left, and a usable cursor only when the cut is in the key size |
| CaskIndex.StoreAgreesIff | zig-caskdb/src/db.zig:141-164 | a store keeps file, writer and directory in agreement if and only if its key is not empty and the cursor is at the writer's position |
| CaskIndex.EmptyKeyHidesRest | zig-caskdb/src/disk.zig:139-141 | a record with an empty key hides itself and everything after it from the next scan |
| CaskIndex.LoadRefinesValues | zig-caskdb/src/db.zig:177-186 | a load gives the last value stored or NotFound, and leaves the cursor at the writer's position if and only if its key was stored last |
| CaskIndex.LoadMovesBehind | zig-caskdb/src/disk.zig:111-118 | a load of a stored key leaves the cursor behind the last record with that key |
| CaskIndex.LoadThenStoreOverwrites | zig-caskdb/src/db.zig:141-186 | a store right after it is written there, while directory and writer count it at the end of the log |
| CaskIndex.EarlyWriteSpoils | zig-caskdb/src/db.zig:141-164 | a record written before the end of the log is not found at the end, whatever is padded with zeros |
| CaskIndex.SpoiledStays | zig-caskdb/src/db.zig:141-164 | a file that is not the log does not become it by further stores, wherever they land |
| CaskIndex.DisciplineDecides | zig-caskdb/src/db.zig:141-186 | over every run the file is the log of what was stored if and only if every store had a key and found the cursor at the writer's position |
| CaskIndex.RunAgreesIff | zig-caskdb/src/db.zig:141-186 | over every run of stores and loads on an opened store file, directory and writer agree if and only if every store had a key and no load that found its key since the store before was of an older one |
| CaskIndex.ReopenIff | zig-caskdb/src/db.zig:64-98 | what such a run leaves opens again to the same directory if and only if it is at most 2^32-1 bytes long |
| CaskIndex.LoadThenStoreLoses | zig-caskdb/src/db.zig:141-186 | a concrete run of four calls that loses a value |
| CaskDb.Serialize | zig-caskdb/src/disk.zig:9-23 | the buffer written field by field is the encoding of the record |
| CaskDb.CaskFile.SeekLast | zig-caskdb/src/disk.zig:103-109 | the writer's position becomes the size and the cursor goes to twice the size |
| CaskDb.CaskFile.Write | zig-caskdb/src/disk.zig:162-169 | writes at the cursor, not at the writer's position, and advances both |
| CaskDb.CaskFile.ReadEntry | zig-caskdb/src/disk.zig:132-157 | one round of the loop is one step of the scan, with one key allocated as soon as its size is known |
| CaskDb.CaskFile.ReadAllEntries | zig-caskdb/src/disk.zig:126-160 | the loop computes the scan, error for error, with one live allocation per entry, and on an error past the sizes one more |
| CaskDb.PutTrades | zig-caskdb/src/db.zig:166-175 | putting an entry trades the displaced key allocation for the new one |
| CaskDb.DB.UpdateIndex | zig-caskdb/src/db.zig:166-175 | the displaced key is live when freed, and afterwards exactly the table's keys and the rest are live |
| CaskDb.DB.Open | zig-caskdb/src/db.zig:64-98 | opening gives the opened store with the live keys exactly the table's, or the error of the scan with an empty table and exactly the keys it read leaked |
| CaskDb.DB.PutAll | zig-caskdb/src/db.zig:103-112 | the fold over the entries, freeing every key a later entry displaces |
| CaskDb.DB.BuildIndex | zig-caskdb/src/db.zig:100-116 | the scan and the fold, or the error with the keys leaked |
| CaskDb.DB.Store | zig-caskdb/src/db.zig:141-164 | the store of the model, for any key, with key ownership kept |
| CaskDb.DB.Load | zig-caskdb/src/db.zig:177-186 | the load of the model; only the cursor moves |
| CaskDb.DB.Close | zig-caskdb/src/db.zig:42-62 | every key is freed once while live, and none is live afterwards |
| Segments.SortedIsPermutation | zig-caskdb/src/db.zig:88-93 | the file list is a permutation of the directory's, in path order |
| Segments.IdOfName | zig-caskdb/src/db.zig:122-128 | the id is read from the digits before the first dot of the last component |
| Segments.IdOfPath | zig-caskdb/src/db.zig:122-128 | the id a file was created with is the id parsed from its path |
| Segments.OpenSegmentFileList | zig-caskdb/src/db.zig:118-139 | one file is opened for each one listed, in order, the last active: the file whose path is built from the listed name's id; the first bad name or missing file stops it |
| Segments.OpensListedIff | zig-caskdb/src/disk.zig:65-98 | all listed files open, each as itself, if and only if every name is the one built from an id |
| Segments.OpensNoneTwiceIff | zig-caskdb/src/disk.zig:65-98 | no file is opened twice if and only if the names listed give distinct ids |
| Segments.MisreadNames | zig-caskdb/src/disk.zig:65-98 | `07.segment` and `7.bak.segment` both open `7.segment` |
| Segments.LexIsNumeric | zig-caskdb/src/db.zig:90-92 | numerals of one length sort by value |
| Segments.PathOrderIff | zig-caskdb/src/db.zig:90-92 | a smaller id sorts before a larger one if and only if it does not exceed the larger one's leading digits |
| Segments.ActiveIsLargestIff | zig-caskdb/src/db.zig:86-135 | files named by their ids all open, and the active one is that of the largest id if and only if no id exceeds the leading digits of the largest, so always when digit counts agree |
| Segments.NineAfterTen | zig-caskdb/src/db.zig:90-92 | with ids 9 and 10 the file of id 9 comes last |
| ZigInt.AccumulateDigits | zigredis/src/rsp.zig:86-90 | digits read one by one give their value, or overflow exactly when it is out of range |
| ZigInt.SignedDigits | zigredis/src/rsp.zig:86-90 | digits with or without a sign give their value or overflow exactly out of range; a sign alone is no number |
| ZigInt.PrefixDecides | zigredis/src/rsp.zig:86-90 | the first digit out of range or bad character decides |
| ZigInt.OneMore | zigredis/src/rsp.zig:86-90 | underscores are skipped, any other non-digit ends it |
| ZigInt.ParsePrinted | zigredis/src/rsp.zig:86-90 | what is printed as a decimal is parsed back if and only if it is in range |
| Tokenizer.LineIsToken | zigredis/src/rsp.zig:94-95 | a line without CR LF is one token, also when it ends in CR or is followed by LF |
| Tokenizer.DelimsSkipped | zigredis/src/rsp.zig:94-95 | a delimiter in front makes no token |
| Tokenizer.LastIsToken | zigredis/src/rsp.zig:94-95 | what follows the last delimiter is a token, unless it is empty |
| Tokenizer.WordIsToken | zigredis/src/req.zig:202 | a word is one token, whatever follows its blank |
| Tokenizer.TokensAreFree | zigredis/src/rsp.zig:94-95 | tokens are not empty and hold no delimiter |
| Tokenizer.TrimKeepsTokens | zigredis/src/req.zig:198-200 | trimming the line changes no token |
| Tokenizer.TokenIterator.Next | zigredis/src/req.zig:202 | the iterator yields the tokens one by one and then none |
| Request.LookUpFirst | zigredis/src/req.zig:197-303 | the command chosen is the first in the table whose name the word spells in any mix of cases, and none exactly when there is no such name |
| Request.ParseHelper | zigredis/src/req.zig:136-195 | the argument loop takes one or two words and drops the rest for those arities, wants the exact number for larger ones, and takes two or more for -1, with the i8 counter trapping above 126 values |
| Request.Parse | zigredis/src/req.zig:197-303 | the first token that names a command decides, with the rest as arguments |
| RequestLaws.EqlIff | zigredis/src/req.zig:204 | words are compared but for the case of ASCII letters |
| RequestLaws.TakesOne | zigredis/src/req.zig:144-152 | Get, Incr, Select, Auth, DEL, EXISTS and LLEN send their own name and the first word, and want one |
| RequestLaws.TakesTwo | zigredis/src/req.zig:153-167 | GETSET, Set, LPOP and RPOP send their own name and two words, and want two |
| RequestLaws.TakesThree | zigredis/src/req.zig:168-193 | LTrim, LRANGE and LRem send their own name and all words if there are three |
| RequestLaws.TakesFour | zigredis/src/req.zig:293-300 | LINSERT sends its own name and all words if there are four and the second is BEFORE or AFTER |
| RequestLaws.TakesMany | zigredis/src/req.zig:168-193 | MGET, LPUSH and RPUSH send their own name and all words, from 2 to 127 of them |
| RequestLaws.TakesNone | zigredis/src/req.zig:219-268 | Ping sends PING alone, Exit sends nothing |
| RequestLaws.OthersSkipped | zigredis/src/req.zig:202-303 | a word that names no command is skipped |
| RequestLaws.SendsWhatIsNamed | zigredis/src/req.zig:197-303 | for every accepted line the first string sent is, but for case, the first word that names a command, and the others are words that follow it in order |
| Request.Serialize | zigredis/src/req.zig:90-117 | the buffer holds the command exactly when it fits 2048 bytes |
| RespRoundTrip.ArgumentsKeptIff | zigredis/src/req.zig:136-195 | the words taken are the words given if and only if there are as many as the arity, or the arity is -1 |
| RespRoundTrip.SentIsTypedIff | zigredis/src/req.zig:197-303 | what is sent is what was typed after the first word if and only if that word names a command and the others are as many as it takes |
| RespRoundTrip.SetDropsRest | zigredis/src/req.zig:197-303 | `set k hello world` sends `hello` |
| RespRoundTrip.ArgumentsCounted | zigredis/src/req.zig:136-195 | argsNum plus one is the number of strings written, for every arity |
| RespRoundTrip.CommandCounted | zigredis/src/req.zig:197-303 | every command accepted from a line has a matching count and no empty string |
| RespRoundTrip.WireReads | zigredis/src/req.zig:90-117 | the bytes are an array of bulk strings of the length-prefixed grammar for arbitrary contents, ending where reading stops |
| RespRoundTrip.SetOnTheWire | zigredis/src/req.zig:90-117 | the bytes of one command |
| RespRoundTrip.StreamsDecodeUniquely | zigredis/src/req.zig:90-117 | equal streams of commands are the same commands |
| Response.NextElement | zigredis/src/rsp.zig:162-185 | one array element from one or two lines, with a bad length read as nil |
| Response.FillNext | zigredis/src/rsp.zig:162-185 | one round of the loop puts the next element behind those before it |
| Response.FillArray | zigredis/src/rsp.zig:153-186 | the loop fills the array with exactly the elements of the lines, or fails where they do |
| Response.Parse | zigredis/src/rsp.zig:93-191 | the first line with a known mark is the reply |
| ReplyLaws.ArrayReads | zigredis/src/rsp.zig:144-188 | any array of absent elements, lines that are no length, and lengths with lines at least as long comes out in order, `nil` for each of the first two and the line cut to its length for the others |
| ReplyLaws.BrokenArray | zigredis/src/rsp.zig:144-188 | an array that breaks off, or goes on with a line shorter than its length or a length below -1, is no reply |
| ReplyLaws.BulkReads | zigredis/src/rsp.zig:115-142 | a bulk string comes out whole if it is as long as it says, and is no reply otherwise |
| ReplyLaws.LineReplies | zigredis/src/rsp.zig:99-114 | the four replies of one line, the simple string in quotes |
| ReplyLaws.UnmarkedSkipped | zigredis/src/rsp.zig:95-190 | a line with no mark of a reply is skipped |
| ReplyLaws.AbsentReplies | zigredis/src/rsp.zig:120-151 | the absent bulk string and the absent array |
| ReplyLaws.OddHeaders | zigredis/src/rsp.zig:115-153 | headers that are no number, empty, or below -1 |
| RespRoundTrip.RoundTripIff | zigredis/src/rsp.zig:144-188 | a command that fits comes back from the reply parser as its strings in order if and only if none holds CR LF |
| RespRoundTrip.TypedRoundTripIff | zigredis/src/req.zig:197-303 | the same for every line the request parser accepts |
| FetchExpr.Compile | utils/pahole.py:66-89 | the two loops give the rendering of the folded path, or fail at a field that is not known |
| FetchExpr.FoldWalks | utils/pahole.py:69-80 | folding along any path reads from the address the field-by-field walk reaches |
| FetchExpr.RenderMeans | utils/pahole.py:86-88 | evaluating the printed text gives the nested dereferences of the offset list |
| FetchExpr.CompiledPathMeans | utils/pahole.py:66-89 | evaluating the printed expression gives the word at the address of the path's last field |
| FetchExpr.ThreeFields | utils/pahole.py:66-89 | a path through a pointer and an embedded structure prints `+20(+8(_))` |

## Left out

- TypedRoundTripIff: the `Exit` command is not serialized by the source and is outside the statement.
- BlockingEdit: the input is a given string; a read that fails inside an escape sequence is modelled as the end of the input, and end of input as a closed terminal.
- Refresh: hints are taken to be off, so is `refreshShowHints`; the shortcut of insertion is taken only then.
- Press: tab completion (`completeLine`) is off, so TAB is typed like any byte; completion only replaces buffer, length and position between repaints, which the run theorem allows.
- ShowPaints: the grid has no bottom row, so scrolling is absorbed by rows counted from the prompt; a line taller than the display is not modelled.
- InSync: one column per byte, so multi-byte characters and control bytes in the text are outside the screen statements.
- SingleLine.RepaintRow: a prompt as wide as the terminal or wider is left out in single-line mode, where the source's unsigned position and length wrap around (lines 549-556 of linenoise.c).
- Editor.LineState.RefreshSingleLine: the same prompts are left out, here, in FindWindow, in the constructor and in the editor's invariant.
- Editor.LineState.constructor: an empty buffer is left out; the source writes its first byte regardless.
- Editor.LineState.HistoryNext: what follows the write in front of a one-byte buffer (line 803 of linenoise.c) is not modelled; it ends the session.
- CaskDb.DB.Load: a short read is a result of the model where the source asserts; the mutex is not modelled, it does not cover file access.
- Segments.Sorted: the library's block sort is modelled by its result, a permutation in order.
- Raw mode, terminal size queries, `isatty`, reading and writing of descriptors, and the non-terminal input path: foreign input and output.
- Allocation failures everywhere, and `FileEntry.deserialize`, which does nothing.
- Directory walking, locking and path trimming in `zig-caskdb/src/dir.zig` and the options: file-system plumbing.
- Merge, write-ahead log and segment rotation: not implemented in the source.
- The network client, its main loop and the printing of replies.
- `pahole` itself and the splitting of its argument: a table of structure layouts stands for its output.
- `c-string`, the function-exit finder, the eBPF probe and the remaining programs: short, or wrappers around libraries.
