# tui-portfolio: the snake game, its terminal engine and the shell, in Dafny

This project models the logic of the terminal portfolio server and proves properties of it:

- the snake game (`server/snake`);
- the small termloop engine it runs on (`shim.go`);
- the portfolio shell's output writer and line editor (`server/cli.go`);
- the credit-card form's validators (`src/lib/wasm/main.go`).

The modules follow the source:

| module | file | models |
|---|---|---|
| `Wrappers` | wrappers.dfy | `Option` and `Result` |
| `Utf8` | utf8.dfy | Go's `utf8.DecodeRune` and rune encoding (RFC 3629, section 3), as the shell uses them |
| `CardForm` | cardform.dfy | `strconv.ParseInt(s, 10, 64)`, the three field validators, and the focus ring of the form |
| `Cli` | cli.dfy | `typewriterWriter.Write` as a method over a failing-writer object; the `cli` read loop's line editor; `strings.TrimSpace`; command classification |
| `Termloop` | termloop.dfy | the cell buffer `Screen`, the `Text`, `Rectangle` and canvas `Entity` primitives, `Game`, `CanvasFromString`, the global entity registry and `Level` |
| `TermInput` | terminput.dfy | `readEvents` as a function from the bytes read to the events sent |
| `TermFrame` | termframe.dfy | `drawFrame`'s bounding box, its row emission and its background changes (ECMA-48 SGR codes 40 to 47 and 49, section 8.3.117) |
| `SnakeLogic` | snakelogic.dfy | the snake's state as a value: turn admission, the movement interval, a sub-step and a frame, and the invariant every frame keeps |
| `SnakeGame` | snakegame.dfy | the game's objects as classes: `Snake.Draw` and `Snake.Tick`, the game screen and side panel, score and restart bookkeeping, the game-over screen, and the engine's two passes over the registry (key broadcast and frame drawing) |

State that the Go code updates in place is modelled as classes with `modifies` clauses:

- the snake, food, texts and cell buffer;
- the registry and the level lists;
- the form's focus.

Each method is proved against a pure specification function. For example, `Snake.Draw` against `SnakeLogic.Step`, `TypewriterWrite` against `Chunks`, and `Compose` against `Frame`. The lemmas beside each function prove what the source promises.

The food's random placement is a parameter, a function from the number of moves to a position and a kind. So is the contents of the game-over logo file.

Where the code does less than its comments and on-screen texts suggest, the model follows the code:

- `Screen.SetLevel` does nothing, so the game-over screen never replaces the game: the snake keeps running and the screen never receives keys (see Findings).
- The movement interval is the truncated `int(60 / speed)`, not a rounded one.
- After `ESC [`, `readEvents` always reads exactly one more byte, and after `ESC [ 3` one byte beyond that, whatever they are. It does not scan for a terminating letter.

## Model

| member | source | states |
|---|---|---|
| Utf8.EncodeRune | server/cli.go:75-95 | every Unicode scalar value encodes to one to four bytes |
| Utf8.DecodeRune | server/cli.go:75-84 | empty input gives (RuneError, 0); otherwise the size is between 1 and the input's length and the rune is a scalar value; input that does not start with a well-formed sequence gives (RuneError, 1), the case Write forwards as a lone byte |
| Utf8.DecodeIsEncoding | server/cli.go:75-86 | a well-formed start decodes to the rune whose encoding is exactly the bytes consumed |
| Utf8.DecodeEncode | server/cli.go:75-95 | decoding the encoding of any scalar value, whatever follows it, gives back that value and its encoded length |
| Utf8.InvalidStartsNoRune | server/cli.go:75-83 | when DecodeRune reports (RuneError, 1), no scalar value's encoding is a prefix of the input |
| CardForm.ParseIntSpec | src/lib/wasm/main.go:44-45 | base-10 int64 parsing succeeds exactly on an optional sign followed by one or more ASCII digits whose value lies in int64 range, and then returns that value |
| CardForm.ParseUintFromDigits | src/lib/wasm/main.go:44 | on digits, the accumulating parse returns their value, or a range error when it exceeds the uint64 maximum |
| CardForm.ParseUintFromNonDigit | src/lib/wasm/main.go:44 | any byte that is not a digit makes the parse fail |
| CardForm.ParseFormatted | src/lib/wasm/main.go:44 | every int64 written in decimal, with a '-' when negative, parses back to itself |
| CardForm.Digits | src/lib/wasm/main.go:44 | the decimal form of a natural number is one or more ASCII digits |
| CardForm.DigitsValue | src/lib/wasm/main.go:44 | the decimal form of n has value n |
| CardForm.RemoveAll | src/lib/wasm/main.go:43 | deleting every occurrence of a byte leaves none of it, shortens the string by exactly their count, and keeps every other byte's count |
| CardForm.Index | src/lib/wasm/main.go:54 | -1 exactly when the byte is absent, otherwise the first position holding it |
| CardForm.LastIndex | src/lib/wasm/main.go:54 | -1 exactly when the byte is absent, otherwise the last position holding it |
| CardForm.CcnRejectsLong | src/lib/wasm/main.go:40-42 | a card number longer than 19 bytes is rejected as too long, whatever it holds |
| CardForm.CcnAccepts | src/lib/wasm/main.go:43-45 | a card number of at most 19 bytes is accepted exactly when, with every space deleted, it is an int64 literal |
| CardForm.SlashAtTwo | src/lib/wasm/main.go:54 | on three or more bytes, the first and last '/' are both at index 2 exactly when there is one '/' and it is at index 2 |
| CardForm.CountZeroIff | src/lib/wasm/main.go:54 | a byte occurs zero times exactly when it is absent |
| CardForm.ExpAccepts | src/lib/wasm/main.go:48-58 | an expiry date is accepted exactly when, with every '/' deleted, it is an int64 literal and, when it has three or more bytes, it holds exactly one '/', at index 2 |
| CardForm.CvvAccepts | src/lib/wasm/main.go:60-63 | a CVV is accepted exactly when it is an int64 literal |
| CardForm.NextFocus | src/lib/wasm/main.go:147 | the next focus stays within the inputs |
| CardForm.PrevFocus | src/lib/wasm/main.go:148-153 | the previous focus stays within the inputs |
| CardForm.FocusInverse | src/lib/wasm/main.go:147-153 | prev undoes next and next undoes prev |
| CardForm.Form.constructor | src/lib/wasm/main.go:65-90 | the form has three inputs and the card number has focus |
| CardForm.Form.Next | src/lib/wasm/main.go:147 | focus moves to NextFocus of the old focus and stays in range |
| CardForm.Form.Prev | src/lib/wasm/main.go:148-153 | focus moves to PrevFocus of the old focus and stays in range |
| Cli.EscEnd | server/cli.go:55-65 | an escape run from j ends just after the first ASCII letter after the ESC, or at the end of the input when there is none |
| Cli.ChunkLen | server/cli.go:53-95 | every chunk is non-empty and fits in what is left, so the loop advances |
| Cli.FlattenChunks | server/cli.go:51-97 | the chunks Write forwards, put back together in order, are exactly its input |
| Cli.ChunkShapes | server/cli.go:55-90 | each chunk is an escape run up to its letter (or to the end, for the last one), a lone byte that starts no well-formed sequence, or the encoding of one rune |
| Cli.Sink.constructor | server/cli.go:46-49 | the underlying writer starts with nothing written and fails at a chosen call |
| Cli.Sink.Write | server/cli.go:66-70 | a write fails exactly at the chosen call and then takes nothing; otherwise it logs the chunk and reports its length |
| Cli.ChunkEnd | server/cli.go:55-86 | the scan for the end of a chunk finds the specification's chunk end |
| Cli.ChunksStep | server/cli.go:53-96 | chunking from i is the chunk that starts at i followed by chunking from its end |
| Cli.TypewriterWrite | server/cli.go:51-98 | the writer receives exactly the chunks before the first failing call, in order; the count returned is their byte total; an error is returned exactly when some chunk was refused; with a writer that never fails all of p is written |
| Cli.AcceptedWhenFailing | server/cli.go:66-70 | when the writer fails on the next chunk, exactly the chunks already forwarded were accepted |
| Cli.EchoBytesAppend | server/cli.go:213-219 | the bytes echoed by two runs of writes are the first run's bytes followed by the second's |
| Cli.EditFromStep | server/cli.go:119-220 | a rune other than CR and LF only edits the buffer and the loop goes on after it |
| Cli.EditKeepsPrintable | server/cli.go:207-220 | editing keeps every buffered rune at or above 0x20 and other than DEL |
| Cli.ReadLine | server/cli.go:118-221 | the read loop's outcome is the line editor's outcome from an empty buffer |
| Cli.ReadStep | server/cli.go:120-220 | one pass of the read loop either ends with the editor's outcome or advances to a position with the same outcome |
| Cli.EditRune | server/cli.go:207-220 | the buffer and echo after one rune are those of the editing function |
| Cli.LineIsPrintable | server/cli.go:207-220 | a finished line holds only runes at or above 0x20 and other than DEL |
| Cli.LineEndsAtTerminator | server/cli.go:120-131 | a finished line ends one past a CR or LF byte, after where reading started |
| Cli.TerminatorEndsLine | server/cli.go:128-131 | a CR or LF is one byte and ends the line with the buffer as it is, echoing a line break |
| Cli.TerminatorIsOneByte | server/cli.go:120-128 | a decoded CR or LF is the single byte 13 or 10 |
| Cli.EraseUndoesType | server/cli.go:210-219 | DEL or backspace right after a printable rune restores the buffer |
| Cli.EraseOnEmpty | server/cli.go:210-215 | DEL or backspace on an empty buffer changes nothing and echoes nothing |
| Cli.TrimSpaceSurrounded | server/cli.go:132 | white space added around a line does not change its trimmed form |
| Cli.TrimSpaceOfTrimmed | server/cli.go:132 | trimming a line without white space at either end changes nothing |
| Cli.TrimSpaceIsTrimmed | server/cli.go:132 | a trimmed line has no white space at either end |
| Cli.CommandOfLine | server/cli.go:132-146 | a word with white space around it ends the loop exactly when it is quit, exit or credit, and starts the snake game exactly when it is "?" |
| Termloop.PutLookup | server/third_party/github.com/JoelOtter/termloop/shim.go:166-171 | after a write at (x, y) that cell holds the new cell and every other cell is unchanged |
| Termloop.PutKeepsRows | server/third_party/github.com/JoelOtter/termloop/shim.go:166-170 | writes never leave an empty row in the buffer |
| Termloop.CellsExtensional | server/third_party/github.com/JoelOtter/termloop/shim.go:153 | two buffers without empty rows that hold the same cells are equal |
| Termloop.Screen.constructor | server/third_party/github.com/JoelOtter/termloop/shim.go:210 | a new screen's buffer is empty |
| Termloop.Screen.RenderCell | server/third_party/github.com/JoelOtter/termloop/shim.go:157-172 | a nil cell leaves the buffer; otherwise the cell at (x, y) becomes it, the last writer winning, and nothing else changes |
| Termloop.Screen.Clear | server/third_party/github.com/JoelOtter/termloop/shim.go:397-399 | the buffer becomes empty |
| Termloop.RuneLen | server/third_party/github.com/JoelOtter/termloop/shim.go:124 | a rune takes one to four bytes of the string |
| Termloop.RuneLenIsEncodingLength | server/third_party/github.com/JoelOtter/termloop/shim.go:124 | the byte step of ranging over a string is the length of the rune's UTF-8 encoding |
| Termloop.OffsetGrows | server/third_party/github.com/JoelOtter/termloop/shim.go:124 | byte offsets of later runes are larger, by at least the earlier rune's length |
| Termloop.TextCells | server/third_party/github.com/JoelOtter/termloop/shim.go:122-127 | after drawing a text, the cell at x plus a rune's byte offset on its row holds that rune in the text's colours; every other cell is unchanged |
| Termloop.OffsetIndex | server/third_party/github.com/JoelOtter/termloop/shim.go:124 | the rune found at an offset is one of the runes drawn |
| Termloop.OffsetIndexUnique | server/third_party/github.com/JoelOtter/termloop/shim.go:124 | the rune found at a rune's own offset is that rune |
| Termloop.Text.constructor | server/third_party/github.com/JoelOtter/termloop/shim.go:116-118 | a text holds its position, string and colours |
| Termloop.Text.SetText | server/third_party/github.com/JoelOtter/termloop/shim.go:120 | the string is replaced |
| Termloop.Text.Draw | server/third_party/github.com/JoelOtter/termloop/shim.go:122-127 | the buffer becomes the old buffer with the text painted over it |
| Termloop.RowCells | server/third_party/github.com/JoelOtter/termloop/shim.go:143-145 | one row of a rectangle paints exactly its w cells, blank on its background |
| Termloop.RectCells | server/third_party/github.com/JoelOtter/termloop/shim.go:141-147 | a rectangle paints exactly its w×h cells, blank on its background; every other cell is unchanged |
| Termloop.Rectangle.constructor | server/third_party/github.com/JoelOtter/termloop/shim.go:137-139 | a rectangle holds its position, size and background |
| Termloop.Rectangle.Draw | server/third_party/github.com/JoelOtter/termloop/shim.go:141-147 | the buffer becomes the old buffer with the rectangle painted, a negative size painting nothing |
| Termloop.CanvasRowCells | server/third_party/github.com/JoelOtter/termloop/shim.go:240-245 | one canvas row paints its non-zero runes at their columns |
| Termloop.CanvasCells | server/third_party/github.com/JoelOtter/termloop/shim.go:234-247 | a canvas paints each non-zero rune at the entity's position plus its column and row; every other cell is unchanged |
| Termloop.Entity.constructor | server/third_party/github.com/JoelOtter/termloop/shim.go:85-87 | an entity holds its position and size and has no canvas |
| Termloop.Entity.FromCanvas | server/third_party/github.com/JoelOtter/termloop/shim.go:104-106 | an entity built from a canvas holds its position and that canvas |
| Termloop.Entity.SetPosition | server/third_party/github.com/JoelOtter/termloop/shim.go:89 | the position is replaced |
| Termloop.Entity.Draw | server/third_party/github.com/JoelOtter/termloop/shim.go:234-247 | the buffer becomes the old buffer with the canvas painted over it |
| Termloop.TextKeepsRows | server/third_party/github.com/JoelOtter/termloop/shim.go:122-127 | drawing a text leaves no empty row |
| Termloop.TextTwice | server/third_party/github.com/JoelOtter/termloop/shim.go:402-411 | drawing a text twice, as drawFrame does, paints the same as drawing it once |
| Termloop.RectKeepsRows | server/third_party/github.com/JoelOtter/termloop/shim.go:141-147 | drawing a rectangle leaves no empty row |
| Termloop.RectTwice | server/third_party/github.com/JoelOtter/termloop/shim.go:402-414 | drawing a rectangle twice paints the same as drawing it once |
| Termloop.CanvasKeepsRows | server/third_party/github.com/JoelOtter/termloop/shim.go:234-247 | drawing a canvas leaves no empty row |
| Termloop.CanvasTwice | server/third_party/github.com/JoelOtter/termloop/shim.go:402-408 | drawing a canvas entity twice paints the same as drawing it once |
| Termloop.Game.constructor | server/third_party/github.com/JoelOtter/termloop/shim.go:208-213 | a new game runs at 60 frames per second, is not quitting, and owns a new, empty screen |
| Termloop.Game.SetFps | server/third_party/github.com/JoelOtter/termloop/shim.go:221-226 | the frame rate is replaced and the quit flag is kept |
| Termloop.SplitLinesShape | server/third_party/github.com/JoelOtter/termloop/shim.go:96 | splitting on '\n' gives one more piece than there are newlines, no piece holds '\n', and joining the pieces with '\n' gives back the string |
| Termloop.NormalizeKeepsNewlines | server/third_party/github.com/JoelOtter/termloop/shim.go:96 | replacing CRLF by LF keeps the number of newlines |
| Termloop.CanvasRows | server/third_party/github.com/JoelOtter/termloop/shim.go:95-102 | a canvas has one row per newline plus one, no row holds a newline, and its rows joined are the string with CRLF normalised |
| Termloop.RemoveFirstAt | server/third_party/github.com/JoelOtter/termloop/shim.go:373-377 | removal takes out the first equal entry and keeps the others in order |
| Termloop.RemoveFirstAbsent | server/third_party/github.com/JoelOtter/termloop/shim.go:371-380 | removing an absent entry changes nothing |
| Termloop.RemoveFirstMultiset | server/third_party/github.com/JoelOtter/termloop/shim.go:371-380 | removal takes away one copy of the target when present, and nothing else |
| Termloop.Registry.constructor | server/third_party/github.com/JoelOtter/termloop/shim.go:354-357 | the registry starts empty |
| Termloop.Registry.Snapshot | server/third_party/github.com/JoelOtter/termloop/shim.go:359-363 | the snapshot is the registered entities, in order |
| Termloop.Registry.Register | server/third_party/github.com/JoelOtter/termloop/shim.go:365-369 | the entity is appended at the end |
| Termloop.Registry.Unregister | server/third_party/github.com/JoelOtter/termloop/shim.go:371-380 | the first equal entry is removed, if any |
| Termloop.Level.constructor | server/third_party/github.com/JoelOtter/termloop/shim.go:181-183 | a new level has no entities and the given background |
| Termloop.Level.AddEntity | server/third_party/github.com/JoelOtter/termloop/shim.go:185-188 | the entity is appended to the level and to the registry |
| Termloop.Level.RemoveEntity | server/third_party/github.com/JoelOtter/termloop/shim.go:190-198 | the first equal entry leaves the level, and the registry's first equal entry goes only when the level held the target |
| TermInput.DecodeStep | server/third_party/github.com/JoelOtter/termloop/shim.go:265-295 | the bytes of a key or character event, followed by anything, decode to that event followed by the decoding of the rest |
| TermInput.DecodeEncode | server/third_party/github.com/JoelOtter/termloop/shim.go:251-297 | decoding the encoding of a sequence of events gives back the sequence |
| TermInput.DecodeShape | server/third_party/github.com/JoelOtter/termloop/shim.go:259-296 | there are at most as many events as bytes, and each is a recognised key or a character event for a byte other than ESC, CR and LF |
| TermInput.TruncatedDelete | server/third_party/github.com/JoelOtter/termloop/shim.go:282-285 | ESC [ 3 at the end of the input still yields Delete, as the failed read of '~' is ignored |
| TermInput.BytesNotRunes | server/third_party/github.com/JoelOtter/termloop/shim.go:294-295 | a two-byte UTF-8 character yields two character events, one per byte |
| TermFrame.BoundsUnique | server/third_party/github.com/JoelOtter/termloop/shim.go:418-436 | the box is determined by the cells |
| TermFrame.HasMember | server/third_party/github.com/JoelOtter/termloop/shim.go:421 | a set is empty or has a member |
| TermFrame.RowBounds | server/third_party/github.com/JoelOtter/termloop/shim.go:428-435 | the column bounds widen to cover every column of the row, and each new bound is a column of the row |
| TermFrame.ComputeBounds | server/third_party/github.com/JoelOtter/termloop/shim.go:418-436 | the box is the smallest one holding the origin and every drawn cell |
| TermFrame.RowTokensAt | server/third_party/github.com/JoelOtter/termloop/shim.go:474-487 | a row has one token per column, each showing the cell there |
| TermFrame.GridTokensLength | server/third_party/github.com/JoelOtter/termloop/shim.go:473-491 | n rows give n times the width plus one tokens |
| TermFrame.GridTokensAt | server/third_party/github.com/JoelOtter/termloop/shim.go:473-491 | the token at row r and column c shows the cell there (a blank on the default background where nothing was drawn, a blank where the rune is 0); the token after the last column is a newline on the default background |
| TermFrame.CodeRoundTrip | server/third_party/github.com/JoelOtter/termloop/shim.go:450-471 | each colour has its own code from 40 to 49, never 48, which a terminal reads back as that colour |
| TermFrame.RenderAppend | server/third_party/github.com/JoelOtter/termloop/shim.go:440-491 | the text for two runs of tokens is the first run's text followed by the second's, started from the background the first left |
| TermFrame.LastAppend | server/third_party/github.com/JoelOtter/termloop/shim.go:440-445 | the background after two runs of tokens is the one the second leaves |
| TermFrame.SetBackground | server/third_party/github.com/JoelOtter/termloop/shim.go:441-472 | setBg emits nothing when the background is unchanged and the colour's SGR code otherwise, and the new background is current |
| TermFrame.GridStep | server/third_party/github.com/JoelOtter/termloop/shim.go:473-491 | appending one row's text extends the rendered grid by that row, which ends on the default background |
| TermFrame.ClosedRow | server/third_party/github.com/JoelOtter/termloop/shim.go:489-490 | a row ends with a reset to the default background when needed, then a newline |
| TermFrame.ComposeRow | server/third_party/github.com/JoelOtter/termloop/shim.go:474-487 | the text of a row's cells and the background it leaves are the rendering of the row's tokens |
| TermFrame.ComposeCell | server/third_party/github.com/JoelOtter/termloop/shim.go:475-486 | one more cell extends the row's rendering by that cell |
| TermFrame.ShownCell | server/third_party/github.com/JoelOtter/termloop/shim.go:475-484 | the cell shown is the drawn one, a blank where its rune is 0, and a blank on the default background where nothing was drawn |
| TermFrame.RenderSnoc | server/third_party/github.com/JoelOtter/termloop/shim.go:485-486 | one more token adds its background change, if any, and its character |
| TermFrame.ComposeLine | server/third_party/github.com/JoelOtter/termloop/shim.go:474-490 | the text of a row and its newline is the row's rendering, and the row ends on the default background |
| TermFrame.ComposeNext | server/third_party/github.com/JoelOtter/termloop/shim.go:473-491 | one more row extends the rendering by that row |
| TermFrame.ComposeRows | server/third_party/github.com/JoelOtter/termloop/shim.go:473-491 | the text of all rows is the rendering of the box's grid |
| TermFrame.FrameOfGrid | server/third_party/github.com/JoelOtter/termloop/shim.go:438-494 | the frame is ESC[H ESC[2J ESC[?25l, the rendered grid, then ESC[49m |
| TermFrame.ComposeBox | server/third_party/github.com/JoelOtter/termloop/shim.go:438-494 | the text built for a box is the frame of the cells in that box |
| TermFrame.Compose | server/third_party/github.com/JoelOtter/termloop/shim.go:418-494 | the box is the smallest holding the origin and every drawn cell, and the text is the frame of the cells in it |
| TermFrame.InterpretSgr | server/third_party/github.com/JoelOtter/termloop/shim.go:471 | a terminal reading an SGR background code switches to that colour |
| TermFrame.InterpretRender | server/third_party/github.com/JoelOtter/termloop/shim.go:440-491 | a terminal reading the rendered text sees exactly the tokens, each on its background, when no cell holds ESC or a newline |
| TermFrame.ShownPlain | server/third_party/github.com/JoelOtter/termloop/shim.go:475-484 | when no drawn cell holds ESC or a newline, neither does any token of the grid |
| TermFrame.FrameShowsGrid | server/third_party/github.com/JoelOtter/termloop/shim.go:395-496 | a terminal reading the frame's body sees every cell of the box on its background, one newline-ended row per line, the box's height times its width plus one tokens in all |
| SnakeLogic.OppositeUnique | server/snake/snake.go:47-49 | each direction has exactly one opposite; the relation is symmetric and relates no direction to itself |
| SnakeLogic.Interval | server/snake/snake.go:57-65 | the movement interval is at least one frame |
| SnakeLogic.DefaultIntervals | server/snake/snake.go:57-65 | at the default speed 8 the snake moves every 7 frames across and every 11 frames up or down |
| SnakeLogic.IntervalMonotone | server/snake/snake.go:57-65 | a faster snake never waits longer, and a vertical move never waits less than a horizontal one |
| SnakeLogic.AdmitSpec | server/snake/keyinput.go:14-59 | a key either leaves the queue alone or appends its direction; it appends exactly when it is an arrow that neither reverses the effective direction nor repeats the last queued turn, and fewer than four turns are queued |
| SnakeLogic.AdmitKeepsQueue | server/snake/keyinput.go:35-57 | admitting a key keeps the queue at most four long, with no turn reversing or repeating the one before it and the first not reversing the current direction |
| SnakeLogic.AdmitIdempotent | server/snake/keyinput.go:46-52 | the same key twice queues no more than once |
| SnakeLogic.TightTurn | server/snake/keyinput.go:35-57 | heading right, Up then Left queues both turns, while Left alone is refused; Down then Left queues both, then a second Left (a duplicate) and Right (a reversal) are refused |
| SnakeLogic.PopTakesTurn | server/snake/snake.go:79-88 | on a queue the keys built, the first queued turn is always taken and the rest stays well formed |
| SnakeLogic.SubStepPoints | server/snake/snake.go:117-136 | a sub-step never takes points away |
| SnakeLogic.SubSteps | server/snake/snake.go:79-145 | the body stays non-empty through the sub-steps |
| SnakeLogic.SubStepsStop | server/snake/snake.go:103-115 | after a sub-step ends the game, the later sub-steps change nothing |
| SnakeLogic.InitialInvariant | server/snake/snake.go:10-24 | NewSnake's state (body (1,6), (2,6), (3,6) heading right, default speed, counter 0, no turns queued) satisfies the invariant |
| SnakeLogic.MoveAdjacent | server/snake/snake.go:91-101 | the prospective head is next to the head and differs from it |
| SnakeLogic.FreshHead | server/snake/snake.go:109-115 | a prospective head that passes the self-collision check is not on the body |
| SnakeLogic.GrowKeeps | server/snake/snake.go:129-135 | growing by a fresh adjacent head keeps the body connected and without repeated cells |
| SnakeLogic.MoveKeeps | server/snake/snake.go:138-141 | moving (drop the tail, add a fresh adjacent head) keeps the body connected and without repeated cells |
| SnakeLogic.SubStepKeeps | server/snake/snake.go:79-145 | a sub-step keeps the snake well formed; a crash changes neither body nor points; otherwise the body grows by one exactly when points were scored; at most 5 points; a speed change is remembered |
| SnakeLogic.SubStepKeepsBody | server/snake/snake.go:91-141 | a sub-step keeps the body non-empty, connected and without repeated cells |
| SnakeLogic.SubStepEats | server/snake/snake.go:117-137 | when the free cell ahead holds the food: plain food scores 1 and grows the body by the head; favourite food scores 5, grows, and slows by 3 but not below the default speed; speed-up food makes the snake one faster with body and points unchanged; the food moves in every case |
| SnakeLogic.SubStepMoves | server/snake/snake.go:138-144 | without food, the tail cell goes and the head comes; food, points and speed are kept |
| SnakeLogic.SubStepCrash | server/snake/snake.go:103-115 | a prospective head on the border or on the body ends the game with only the turn taken: body, position, speed, counter, food, points and the speed-changed flag kept |
| SnakeLogic.FavouriteClamp | server/snake/snake.go:120-127 | favourite food slows speed 14 to 11 and speed 10 to the default 8 |
| SnakeLogic.SubStepsKeep | server/snake/snake.go:72-145 | k sub-steps keep the snake well formed, grow the body by at most k, score at most 5 per sub-step, and score exactly when the body grew |
| SnakeLogic.StepKeepsInvariant | server/snake/snake.go:53-161 | every frame keeps the snake well formed, with the counter below the current interval |
| SnakeLogic.StepGrowth | server/snake/snake.go:54-160 | below the interval a frame only counts; otherwise the body grows by at most two, and grows exactly when points were scored |
| SnakeLogic.StepPrimesCounter | server/snake/snake.go:68-160 | after a move the counter is one frame short of the new interval when the speed changed without a crash, and zero otherwise; points are never negative |
| SnakeLogic.TranslationExample | server/snake/snake.go:53-160 | the new snake six frames on, with the food elsewhere, moves one cell right to (2,6), (3,6), (4,6) and resets its counter |
| SnakeLogic.StepCrash | server/snake/snake.go:103-115 | a move whose prospective head is on the border or on the body ends the game |
| SnakeLogic.ColorChoices | server/snake/keyinput.go:72-91 | a colour other than the default is chosen exactly for the even numbers 10 to 22, each a different one, and black is never chosen |
| SnakeGame.Decimal | server/snake/game.go:121 | a number's decimal text is never empty |
| SnakeGame.DecimalDigits | server/snake/game.go:121 | a natural number's decimal text is all digits |
| SnakeGame.DecimalValue | server/snake/game.go:121 | the decimal text of n reads as n and has no leading zero |
| SnakeGame.ItoaRoundTrip | server/snake/game.go:121 | the %d text of any integer reads back as that integer |
| SnakeGame.ScoreLineShows | server/snake/game.go:121 | the score text is "Score: " followed by the score |
| SnakeGame.SpeedLineShows | server/snake/game.go:126 | the speed text is "Speed: " followed by the speed |
| SnakeGame.BodyCells | server/snake/snake.go:164-169 | after painting the body, exactly the body's cells hold the snake's cell and every other cell is unchanged |
| SnakeGame.AnyRestartExists | server/third_party/github.com/JoelOtter/termloop/shim.go:386-390 | some entity of the list restarts on the key exactly when one of them is a game-over screen receiving 'r' |
| SnakeGame.Food.constructor | server/snake/game.go:37 | new food sits at the placement's first position with its first kind |
| SnakeGame.Food.MoveFood | server/snake/snake.go:137 | the food moves to the placement's next position and kind |
| SnakeGame.Arena.constructor | server/snake/game.go:36 | the arena holds its border |
| SnakeGame.Sidepanel.constructor | server/snake/game.go:65-82 | the panel's background and three texts sit at their columns and rows, in black on white, showing the score, speed and difficulty, and it holds the six instruction lines |
| SnakeGame.Snake.constructor | server/snake/snake.go:10-24 | a new snake is in the initial state |
| SnakeGame.Snake.Contains | server/snake/snake.go:173-183 | true exactly when the head is on another segment of the body |
| SnakeGame.Snake.SnakeCollision | server/snake/snake.go:43-45 | true exactly when the head is on another segment of the body |
| SnakeGame.Snake.BorderCollision | server/snake/snake.go:33-35 | true exactly when the head is on the arena's border |
| SnakeGame.Snake.FoodCollision | server/snake/snake.go:38-40 | true exactly when the head is on the food |
| SnakeGame.Snake.Tick | server/snake/keyinput.go:14-59 | a key changes only the queue of turns, as Admit says, and keeps the snake valid |
| SnakeGame.Snake.HitsBody | server/snake/snake.go:110-115 | true exactly when the cell is on a segment other than the head |
| SnakeGame.Snake.TakeTurn | server/snake/snake.go:79-88 | the direction and queue become those of popping one queued turn, a reversal being dropped |
| SnakeGame.Snake.Eat | server/snake/snake.go:117-141 | after a safe prospective head, the snake, food, score and score text become those of the sub-step |
| SnakeGame.Snake.Advance | server/snake/snake.go:79-145 | one sub-step leaves the snake, food, score, score text and registry as the sub-step function says; a crash calls the game over as written, so the registry gains exactly the seven game-over entities, the first showing the score, and not the screen |
| SnakeGame.Snake.SubStepOnce | server/snake/snake.go:79-145 | one pass of the sub-step loop, the score text being rewritten once points are scored; a crash adds exactly the seven game-over entities to the registry |
| SnakeGame.Snake.SubStepLoop | server/snake/snake.go:72-145 | k sub-steps, stopping at a crash, leave the snake, food, score, score text and registry as the sub-steps function says; the registry is kept unless there is a crash, which adds exactly the seven game-over entities and not the screen |
| SnakeGame.Snake.Draw | server/snake/snake.go:53-170 | a frame leaves the snake and food as the frame function says; it adds the points scored and rewrites the score text when there are any; it rewrites the speed text after a speed change without a crash; a crash adds exactly the seven game-over entities to the registry, not the screen, and paints nothing; otherwise the registry is kept and the body is painted |
| SnakeGame.Snake.PaintSelf | server/snake/snake.go:164-169 | the buffer becomes the old one with the body painted |
| SnakeGame.NewParts | server/snake/game.go:34-38 | a new snake in its initial state, the arena, new food at its first placement, and a side panel showing score 0 and the default speed |
| SnakeGame.Gamescreen.constructor | server/snake/game.go:27-62 | the new game screen is in the restarted state (score 0, 60 fps, new snake and food, both texts showing); its level and the registry gain, in order, the food, the panel's background, score, speed and difficulty texts, the snake, the arena, then one text per instruction at x 72 and y 9, 11, 13 and onward |
| SnakeGame.Gamescreen.AddEntities | server/snake/game.go:40-56 | the level and the registry gain the seven parts in order, then one new text per instruction at x 72, two rows apart from y 9 |
| SnakeGame.AddInstructions | server/snake/game.go:49-56 | one new black-on-white text per line, at x 72 and y 9 + 2i, appended in order to the level and the registry |
| SnakeGame.AddEach | server/snake/game.go:104-112 | the entities are appended in order to the level and to the registry |
| SnakeGame.UpdateScore | server/snake/game.go:119-122 | the score grows by exactly the amount and its text shows the new score; snake, food and fps are kept |
| SnakeGame.UpdateFPS | server/snake/game.go:125-127 | the speed text shows the snake's speed |
| SnakeGame.SetDifficultyFPS | server/snake/game.go:154-157 | the fps becomes 60 and the snake's speed 8, nothing else of the snake changing |
| SnakeGame.RemoveSnakeAndFood | server/snake/game.go:131-133 | the snake and then the food leave the level, each leaving the registry only when the level held it |
| SnakeGame.ResetParts | server/snake/game.go:135-145 | score 0, fps 60, a new snake in its initial state and new food at its first placement, both texts showing these values |
| SnakeGame.RestartGame | server/snake/game.go:130-152 | the screen is in the restarted state with a new snake and food; the old snake and food have left the level and the registry, and the new snake and then the new food are appended to both |
| SnakeGame.Gameoverscreen.constructor | server/snake/game.go:86-101 | the game-over screen's logo, three final-stats texts, options background and two option texts hold their texts, positions and colours |
| SnakeGame.Gameoverscreen.Tick | server/snake/keyinput.go:62-70 | 'r' restarts the game; any other key changes nothing |
| SnakeGame.GameoverAsWritten | server/snake/game.go:84-116 | the registry gains the seven game-over entities, but not the screen itself: three texts, the first showing the score, the logo, the options' background and two texts, the first the restart prompt |
| SnakeGame.GameoverAddedPassive | server/snake/game.go:104-115 | a game over as written, on a registry without a game-over screen, leaves one without, so no registered entity restarts on any key |
| SnakeGame.GameoverEntitiesPassive | server/snake/game.go:92-112 | none of the seven game-over entities is a game-over screen |
| SnakeGame.AsWrittenIgnoresRestart | server/snake/game.go:103-115 | after the game over as written, no registered entity restarts on any key |
| SnakeGame.Gameover | server/snake/game.go:84-116 | the registry gains the seven game-over entities and then the game-over screen itself |
| SnakeGame.IntendedRestarts | server/snake/keyinput.go:62-70 | after the corrected game over, 'r' reaches a registered entity that restarts the game |
| SnakeGame.TickEntity | server/third_party/github.com/JoelOtter/termloop/shim.go:386-390 | a snake admits the key into its queue; a game-over screen restarts on 'r'; otherwise nothing changes |
| SnakeGame.BroadcastTick | server/third_party/github.com/JoelOtter/termloop/shim.go:384-391 | every snake in the snapshot admits the key once; without a restarting entity the registry, score, snake and food are kept; with one the game is restarted |
| SnakeGame.TickAll | server/third_party/github.com/JoelOtter/termloop/shim.go:386-390 | the loop over the snapshot reaches the broadcast's state for all of it |
| SnakeGame.BroadcastDone | server/third_party/github.com/JoelOtter/termloop/shim.go:384-391 | after the whole snapshot, each snake has admitted the key once, and the game restarted exactly when some entity restarts on the key |
| SnakeGame.TickNext | server/third_party/github.com/JoelOtter/termloop/shim.go:386-390 | one entity of the snapshot receives the key |
| SnakeGame.TickSnake | server/third_party/github.com/JoelOtter/termloop/shim.go:387-389 | a snake of the snapshot receives the key |
| SnakeGame.TickOther | server/third_party/github.com/JoelOtter/termloop/shim.go:387-389 | an entity other than a snake receives the key |
| SnakeGame.SnakesOfSnoc | server/third_party/github.com/JoelOtter/termloop/shim.go:386 | the snakes of a longer snapshot are those of the shorter one plus the new entity's |
| SnakeGame.Dispatch | server/third_party/github.com/JoelOtter/termloop/shim.go:320-325 | the quit flag is set exactly when the key is Delete, or it already was; then, as in the broadcast, every snake in the registry admits the key once, the game restarts exactly when some registered entity restarts on the key, and otherwise the registry, score, snake and food are kept |
| SnakeGame.DrawFrame | server/third_party/github.com/JoelOtter/termloop/shim.go:395-496 | the buffer is cleared and then holds exactly what the snapshot's entities painted, in registry order, onto an empty buffer. A text, rectangle or canvas entity painted itself at its place; a snake painted its own body after its step, or nothing when that step ended the game; the arena, food and game-over screen painted nothing. The score text painted what it held when the frame began or the score line of a score reached in the frame, and the speed text what it held or a speed line. An empty registry gives an empty buffer and the one-cell box. The box is the smallest one holding the origin and every drawn cell, and the text is the frame of the cells in it |
| SnakeGame.EntitiesSnakeOnce | server/snake/game.go:41-56 | the entities the game screen adds hold its snake exactly once, so its registry meets DrawFrame's one-snake-each precondition |
| SnakeGame.DrawNext | server/third_party/github.com/JoelOtter/termloop/shim.go:401-415 | one more entity of the snapshot draws: the buffer is the fold of one more painting, and every earlier painting still fits its entity, since only the panel texts, the score (which only grows) and the drawing entity's own snake can change |
| SnakeGame.DrawEntity | server/third_party/github.com/JoelOtter/termloop/shim.go:402-414 | one entity's two draws paint what one draw does: a text, rectangle or canvas entity paints itself, a snake takes its frame step and paints its body unless the step ended the game, and anything else paints nothing; the score only grows, and the score text keeps its content or shows the new score, the speed text keeps its content or shows the snake's speed |

## Left out

- `Game.Start`'s loop is not modelled: the reader goroutine, the event channel, the sleeps and the float64 time accumulator. `Dispatch` models one event of its dispatch burst and `DrawFrame` one frame. The blocking channel send, and the final cursor reset, are not modelled.
- The mutexes of `SetIO`, the registry and `Screen` are left out: the model is sequential.
- `SetIO`, `Game.Screen` and `Screen.SetLevel` are left out, the last because it does nothing.
- Termloop.Screen.RenderCell: the nil-screen guard is left out, as a method always has its receiver; the nil cell is `None`.
- Termloop.Game.SetFps: the nil-screen and nil-game guard is left out, for the same reason.
- Frame rates are the integer 60, not a float64.
- `int(60 / float64(speed))` is the integer quotient, and `math.Round(m * 1.6)` is `(16 m + 5) / 10`. Both are exact for every positive speed, since 1.6 times a whole number is never within rounding error of a half.
- `readEvents`' stop channel and its reader are not modelled. Decoding is a function of the finite byte sequence read. A failed first read ends decoding, and a failed read after ESC yields 0, as `ReadByte`'s ignored error does.
- The arena's and the food's implementations are not part of this model:
  - `ArenaEntity.Contains` is membership in a set of border cells;
  - `FoodEntity.Contains` is equality with the food's position;
  - `NewFood` and `MoveFood`'s random choice of position and kind is the `Placement` parameter;
  - the emoji constants are the three `FoodKind`s.
- The contents of the game-over logo file are a parameter of the game screen (`logoFile`). The file read is not modelled.
- `SaveHighScore` is not modelled: it is file output and `log.Fatalf`.
- SnakeGame.Gameoverscreen.Tick: the Delete branch, `tb.Close()`, is a foreign termbox call and is not modelled. The engine's quit flag for Delete is modelled in `Dispatch`.
- `StartGame` is not modelled; the game screen's constructor takes its `Game`.
- The game's registered entities are a closed datatype `Ent`. The source's interface values compared by identity become object references compared by identity.
- SnakeGame.DrawFrame: it requires each snake to occur at most once in the registry. The game screen registers its one snake once (`EntitiesSnakeOnce`), but that registry invariant is not proved across restarts and game overs. At the frame level a snake's painting is its own body or nothing. That the nothing comes exactly from a crash is stated per entity, by `DrawEntity`.
- The arena and the food draw nothing in `DrawFrame`: their `Draw` methods are not part of this model.
- Cli.Sink.Write: a failing write accepts nothing. The source adds the count of a failing escape-run write to `written`, and that partial count is not modelled.
- The `cli` loop's `time.Sleep` delays, `exec.Command("stty", "sane")`, the splash, help and clear output, the logger and the portfolio section lookup and rendering are I/O. Classification stops at the `Command` a line stands for.
- A `ReadRune` error ends the loop; the model's end of input stands for it.
- After a command, the source drops the extra '\n' bytes bufio already holds. The model instead reads them as blank lines, which only reprompt.
- The credit-card form's Bubble Tea `Init`, `Update` and `View`, the text-input widgets beyond their validators, lipgloss styling and the `syscall/js` bridge are not modelled.
- `server/main.go` (WebSocket and HTTP) and `server/portfolio.go` (files and JSON) are not part of this model.

## Findings

| source | as written | input that shows it | evidently intended | confidence | as-written member | corrected member |
|---|---|---|---|---|---|---|
| server/snake/game.go:104-115 | `Gameover` adds the game-over screen's texts, logo and rectangle to the registry but not the `Gameoverscreen` itself, and `SetLevel` (shim.go:217-219) does nothing; so `Gameoverscreen.Tick` (keyinput.go:62-70) never receives a key, 'r' never restarts, and the snake keeps running | the snake moves into the border, then the player presses 'r': no entity reacts, and the game is not restarted | the game-over screen receives keys, and 'r' restarts the game | not executed | SnakeGame.GameoverAsWritten, SnakeGame.AsWrittenIgnoresRestart, SnakeGame.GameoverAddedPassive | SnakeGame.Gameover, SnakeGame.IntendedRestarts |

`Snake.Draw` follows the code and calls `GameoverAsWritten`, so the model's snake keeps running after a crash and no key restarts it. `Gameover` is the corrected definition: with it, `BroadcastTick` restarts the game on 'r', as `IntendedRestarts` proves.
