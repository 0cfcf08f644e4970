# Game of Life step and echo loop: a verified Dafny model

This project models the two pieces of sequential logic in the Game-of-life
API written in Go:

- **`Life`** (`life.dfy`): one step of Conway's Game of Life on the fixed
  10x10 board (`gridSize = 10`) as the HTTP handler computes it:
  `countLiveNeighbors` and `nextGeneration`. The input grid is a
  `seq<seq<bool>>` of any shape, because the Go code never checks the shape:
  it compares coordinates only against `gridSize`. An index that goes out of
  range is a Go run-time panic, and the model returns it as `None` (the
  `Option` type serves both `countLiveNeighbors` and `nextGeneration`).
  `initializeGrid`, which `nextGeneration` uses to allocate its output, is
  random. The model replaces it with a parameter `init` that can be any
  10x10 grid. The lemmas sort every input into exactly three cases:
  - an input with no cells (every row empty) returns `init` unchanged
    (`NoCellVisitedReturnsInit`), so two different initial grids give two
    different results (`EmptyInputDependsOnInit`);
  - a 10x10 board followed by any number of empty rows never panics, and
    every cell of `init` is overwritten: the result is the next generation
    of the board (`BoardWithEmptyTail`, `NextGenerationOnBoard`,
    `InitIrrelevantOnBoard`);
  - every other input panics. `NoPanicMeansBoard` proves that an input with
    a cell that does not panic has the second shape. `OffBoardRowPanics`
    names the typical cause: a non-empty row at index 10 or more, or of a
    length other than 10.

  The neighbour count is checked against its own reference definition:
  the live cells at chessboard distance exactly 1 that lie inside
  `[0, 10)²`, with no wrap-around.
  The model passes grids as values, so `nextGeneration` cannot modify its
  input. In Go, likewise, it only writes to the freshly allocated output.
- **`Client`** (`client.dfy`): the per-connection loop `HandleMessages`,
  modelled as a transducer. The input is the finite sequence of lines the
  scanner yields, plus how the scan ended. The output is the sequence of
  strings written to the connection, plus the connection's close count.
  The quit test matches the two spellings `quit` and `Quit` exactly.
- **`Wrappers`** (`wrappers.dfy`): the `Option` type used for a computation
  that may panic.

`HandleMessages` reads plain lines: the AES and RSA helpers in
server/comunication.go are never called on this path. The quit test
compares a line with exactly `"quit"` and `"Quit"`. The connection is closed
at the end of `HandleMessages`, and closed again by the deferred `Close` in
server/server.go:34. The model counts closes and proves that
`HandleMessages` adds exactly one.

## Model

| member | source | states |
|---|---|---|
| `Life.CountLiveNeighbors` | handlers/game_of_life_handler.go:75-121 | The offset loops panic exactly when an in-board neighbour is missing from the grid. Otherwise they return the number of live cells at chessboard distance 1 inside the 10x10 board, a value in 0..8. |
| `Life.CheckNeighbor` | handlers/game_of_life_handler.go:113 | The short-circuit guard reads out of range exactly when the position is inside [0,10)² but not in the grid. Otherwise it reports the cell live exactly when it is in the board and alive. |
| `Life.CornerAtMostThree` | handlers/game_of_life_handler.go:113 | A corner cell has at most 3 live neighbours, because neighbours are clipped at the edges and do not wrap. |
| `Life.EdgeAtMostFive` | handlers/game_of_life_handler.go:113 | A non-corner edge cell has at most 5 live neighbours. |
| `Life.CountIgnoresNonNeighbor` | handlers/game_of_life_handler.go:80-115 | Changing the cell itself, or any cell not adjacent on the board (e.g. the opposite corner), changes neither the count nor whether counting panics. |
| `Life.NextGeneration` | handlers/game_of_life_handler.go:46-70 | The nested loops over an output grid that starts as `init` compute the functional next generation. On a 10x10 input the result is a 10x10 grid: a live cell stays live iff it has 2 or 3 live neighbours, and a dead cell comes alive iff it has exactly 3. |
| `Life.NextGenerationOnBoard` | handlers/game_of_life_handler.go:48-66 | On a 10x10 input nothing panics, every cell of `init` is overwritten, and the result is the rule applied to every cell. |
| `Life.InitIrrelevantOnBoard` | handlers/game_of_life_handler.go:48-66 | On a 10x10 input any two initial grids give the same result: the random contents never survive. |
| `Life.NoCellVisitedReturnsInit` | handlers/game_of_life_handler.go:48-53 | When every input row is empty, no cell is visited and the initial grid is returned unchanged. |
| `Life.EmptyInputDependsOnInit` | handlers/game_of_life_handler.go:48-53 | For the empty input, two different initial grids give two different results, so the result depends on more than the input. |
| `Life.BoardWithEmptyTail` | handlers/game_of_life_handler.go:48-66 | A 10x10 board followed by empty rows never panics, the empty rows are never visited, and the result is the next generation of the board with nothing of `init` left. |
| `Life.NonEmptyRowIsFull` | handlers/game_of_life_handler.go:51-66 | When nothing panics, every row is empty or a full board row (index below 10, length 10): a long row writes outside the output grid, a short row reads past its own end. |
| `Life.OffBoardRowPanics` | handlers/game_of_life_handler.go:51-66 | A non-empty row at index 10 or more, or of a length other than 10, panics. |
| `Life.NeighborRowIsFull` | handlers/game_of_life_handler.go:113 | When nothing panics, the board rows just above and below a non-empty row are full, because counting the neighbours of its first cell reads them. |
| `Life.RowsFullFrom` | handlers/game_of_life_handler.go:51-66 | When nothing panics, one non-empty row makes all 10 rows of the board full. |
| `Life.NoPanicMeansBoard` | handlers/game_of_life_handler.go:46-70 | An input with some cell that does not panic is exactly a 10x10 board followed only by empty rows, and its result is the next generation of that board. |
| `Life.AllDeadIsFixedPoint` | handlers/game_of_life_handler.go:58-63 | An all-dead 10x10 board maps to itself. |
| `Client.FirstQuit` | server/client.go:29-37 | Returns the index of the first line equal to `quit` or `Quit`, or the number of lines when there is none. No earlier line is a quit line. |
| `Client.Close` | server/client.go:20-24 | A nil connection is left as it is. A live connection is closed once more, and nothing is written to it. |
| `Client.RespondAppend` | server/client.go:29-42 | Replies are produced line by line in input order: after a prefix without a quit line, the replies to the rest follow the prefix's replies. |
| `Client.RespondShape` | server/client.go:29-42 | Each line before the first quit gets exactly its echo `Mensaje recibido: <line>\n`. The first quit line gets the farewell. The number of writes equals the number of lines consumed, up to and including the first quit. |
| `Client.RespondStopsAtQuit` | server/client.go:33-37 | Once a quit line has been read, later lines are neither read nor answered. |
| `Client.EchoIsNotFarewell` | server/client.go:35-40 | No echo equals the farewell `Conexión finalizada. Adiós!\n`. |
| `Client.NoQuitEchoesAll` | server/client.go:29-44 | Input that ends without a quit line gets one echo per line, in order, and no farewell. |
| `Client.QuitIffExactSpelling` | server/client.go:33-41 | For every line: the line gets the farewell when it is exactly `quit` or `Quit`, and its echo otherwise. |
| `Client.QuitMatchIsExact` | server/client.go:33 | The scanner tokens `QUIT`, ` quit`, `quit ` and `qUIT` are echoed like data. |
| `Client.HandleMessages` | server/client.go:27-49 | The loop writes exactly the replies described above. It consumes the lines up to and including the first quit, writes one string per consumed line, and closes the connection exactly once, whether it stopped on a quit line, at end of input or on a read error. |

## Left out

- server/comunication.go: AES-CFB encryption and decryption and RSA-OAEP session-key unwrapping. These wrap Go's crypto libraries, which cannot be modelled here. None of the three (`decryptSessionKey`, `decryptData`, `encryptData`) is called by the client loop. No round trip holds either: encryption uses a random IV, decryption uses an all-zero IV, and the IV is never sent.
- server/server.go: the TCP listen/accept loop and the goroutine per connection, which are network I/O and concurrency. Also left out are the welcome message written before `HandleMessages` and the second, deferred `Close`.
- src/main.go: process start-up, `.env` loading and port selection.
- `initializeGrid`'s randomness (`rand.Float32() < 0.5`): the model takes the generated grid as an arbitrary 10x10 parameter.
- `GameHandler`: HTTP handling and JSON encoding.
- Logging: every `log.Printf` and `log.Println` call. The read-error branch of `HandleMessages` only logs, so the `Ending` parameter does not affect the result.
- Client.HandleMessages: does not model the scanner's line splitting (stripping the newline and one carriage return before it, the 64 KiB token limit). It takes the lines as the scanner's tokens. A scanner stopped by an over-long line is the `ReadError` ending.
- Client.HandleMessages: every write is modelled as succeeding. The Go code ignores the error `Write` returns, so a failed write would not change the control flow either.
- Client.HandleMessages: does not model a nil connection, which is excluded by a precondition. In Go the scanner would read from the nil connection and panic before anything is written.
- Lines are modelled as Unicode text (sequences of characters), not as UTF-8 bytes. A line that is not valid UTF-8 is outside the model. In Go such a line never equals `quit` or `Quit`, so it is echoed byte for byte.
- Go's `int` width: row and column arithmetic is unbounded here. A wrap-around at the extreme `int` values would only move a neighbour further outside the board, so the count is unaffected.
