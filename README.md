# Tic-tac-toe game engine, modelled in Dafny

This project models the `Game` engine of a small SwiftUI tic-tac-toe app
(`ContentView.swift`). The engine owns a board of 9 tiles. Each tile holds a
`TileStatus` of `empty`, `ai` or `player`. The engine offers these operations:

- `init` builds the 9 empty tiles and `restart` clears them in place.
- `checkIndexes` tests one line of three tiles.
- `checkWin` tries the 8 winning lines in a fixed order: rows, then columns,
  then diagonals.
- `endOfGame` reports the winner and whether the game is over.
- `nextMove` places a mark on an empty tile. After an `ai` mark it runs
  `AIturn`, which places one `player` mark at a random empty tile.

The labels are the program's own. The human's button writes `ai` and the
automatic reply writes `player`. The model keeps them as `Ai` and `Player`.

Files:

- `rules.dfy`, module `Rules`: the rules as pure functions over the board's
  contents (`seq<TileStatus>` of length 9), and the lemmas about them.
- `engine.dfy`, module `Engine`: class `Game`, whose `tiles` field is an
  `array<TileStatus>` of length 9 updated in place. Each method is proved
  against the functions of `Rules`. The methods that loop in the source loop
  here too: the constructor, `Restart`, `CheckIndexes`, `EndOfGame` and
  `AiTurn`. `Game.CheckWin` runs `CheckIndexes` over the 8 lines, and
  `EndOfGame` gets the winner from it.

The random index of the reply is a parameter. `picks` is the sequence of
draws (each in 0..8) that `Int.random` would have produced. The reply loop
consumes these draws exactly as the source does:

- The first draw is tried before the end of the game is checked. So after the
  human has already won, the reply still lands if the first draw names an empty
  tile (`ReplyEffect`, `ReplyAfterWinOverturnsIt`).
- After that, a draw on an occupied tile stops the loop when the game is over,
  and otherwise a new draw is taken.

Two consequences of this loop, both captured by the model:

- On an open board the reply ends only when a draw names an empty tile; on a
  finished board it ends after the first draw. The model states the first case
  as the precondition `OracleSuffices`.
- Both marks can hold a line after the reply that follows a win. The first
  complete line in check order then decides (`EarliestLineDecides`).
  `ReplyAfterWinOverturnsIt` shows a board where the human completes the right
  column, the reply completes the left column, and `Player` is reported as the
  winner.

## Model

| member | source | states |
|---|---|---|
| `Engine.Game.constructor` | ContentView.swift:44-48 | a new game has a fresh array of exactly 9 tiles, all `Empty` |
| `Engine.Game.Restart` | ContentView.swift:51-55 | every one of the 9 tiles becomes `Empty`, in the same array, whose length is unchanged |
| `Engine.Game.CheckIndexes` | ContentView.swift:108-129 | the counting loop answers `LineResult`; on three positions it answers `Some(t)` exactly when `t` fills all three, and `None` exactly when no mark fills them |
| `Rules.LineResultOfTriple` | ContentView.swift:111-128 | on a line of three positions, three `Ai` counts give `Ai`, three `Player` counts give `Player`, anything else gives nothing; both directions |
| `Rules.FirstWin` | ContentView.swift:79-103 | the line search from line `k` on answers `Empty` exactly when none of those lines is complete, and otherwise the mark of the first complete one |
| `Rules.CheckWin` | ContentView.swift:76-104 | the winner is `Empty` exactly when neither mark fills a line; otherwise it is the mark filling some line with no complete line before it in the order rows, columns, diagonals |
| `Engine.Game.CheckWin` | ContentView.swift:76-104 | running the line test over the 8 lines in order answers the winner `Rules.CheckWin` of the board: `Empty` exactly when neither mark fills a line |
| `Rules.SoleWinner` | ContentView.swift:76-104 | a mark that fills a line while the other mark fills none is the winner, and a winner always fills a line |
| `Rules.EarliestLineDecides` | ContentView.swift:76-104 | when several lines are complete, the mark of the earliest one in check order is the winner |
| `Engine.Game.EndOfGame` | ContentView.swift:58-73 | the first result equals the winner; the second is true exactly when there is a winner or no tile is `Empty` |
| `Rules.EmptyBoardInProgress` | ContentView.swift:44-73 | a new or restarted board has no winner and the game is not over |
| `Rules.TopRowWins` | ContentView.swift:79-80 | on any board with three `Player` marks on the top row, `Player` is the winner and the game is over |
| `Rules.FullBoardWithoutLineIsDraw` | ContentView.swift:58-73 | on any full board where neither mark fills a line, there is no winner and the game is over (a draw) |
| `Rules.SampleDraw` | ContentView.swift:58-73 | on one full board with alternating marks, there is no winner and the game is over |
| `Rules.ReplyIndex` | ContentView.swift:133-139 | the tile where the reply's mark lands is the first drawn tile that is empty: it was drawn, it is empty, and every earlier draw named an occupied tile |
| `Rules.ReplyLandsWhenOpen` | ContentView.swift:135-137 | while the game is not over, the reply lands once some draw names an empty tile |
| `Rules.ReplyEffect` | ContentView.swift:133-139 | the reply turns at most one `Empty` tile into `Player` and changes nothing else; on an open board with sufficient draws it turns exactly one; on a finished board it lands only when the first draw is empty |
| `Engine.Game.AiTurn` | ContentView.swift:133-139 | the rejection loop leaves the board equal to `Reply` of the board it started from |
| `Engine.Game.NextMove` | ContentView.swift:141-151 | answers whether the tile was empty; the new board is `AfterMove` of the old one: unchanged on an occupied tile, else the mark, followed by the reply after an `Ai` mark |
| `Rules.MoveEffect` | ContentView.swift:141-151 | a move on an occupied tile changes nothing; a non-`Ai` mark on an empty tile changes that tile only; an `Ai` mark sets its tile and then turns at most one other empty tile into `Player`, exactly one when the `Ai` mark did not end the game |
| `Rules.FirstMarkLeavesGameOpen` | ContentView.swift:58-73 | one `Ai` mark on an otherwise empty board is neither a win nor a full board, so the game is not over |
| `Rules.FirstTurnTakesTwoTiles` | ContentView.swift:141-151 | the first human move on a new board always gets a reply, so exactly two tiles are taken |
| `Rules.HumanTurnKeepsBalance` | ContentView.swift:133-151 | from a board with as many `Ai` as `Player` marks, a human turn keeps the counts equal unless the `Ai` mark ended the game and the reply did not land |
| `Rules.RightColumnWinsForAi` | ContentView.swift:94-95 | on the scenario board, the right column makes `Ai` the winner |
| `Rules.LeftColumnWinsForPlayer` | ContentView.swift:88-89 | on the scenario board after the reply, the left column, checked first, makes `Player` the winner |
| `Rules.ReplyAfterWinOverturnsIt` | ContentView.swift:136 | a human move that wins for `Ai` is followed by a reply whose first draw lands, and `Player` is then reported as the winner |

## Left out

- The views `Tile_VW`, `ContentView` and `ContentView_Previews`, and the
  game-over alert: these are presentation.
- The score counter and the X/O glyphs: these are display concerns.
- `ObservableObject` and `@Published`: observation is framework plumbing. Each
  `Tile` object becomes a plain value in the array. `restart` writing through
  the shared tile objects becomes writing the array in place.
- `Int.random`: replaced by the caller-supplied draws `picks`. The model does
  not state that the draws are uniform and does not prove termination with
  probability 1.
- The unused local `score` in `checkIndexes`: it has no observable effect.
- An out-of-range tile index traps in the source. The model rules it out by
  `requires` on `NextMove` and `CheckIndexes`.
- Engine.Game.NextMove: after an `Ai` mark on an empty tile it requires
  `OracleSuffices` of the draws. The source demands nothing here, but on an
  open board its loop ends only when the random generator draws an empty tile;
  on a finished board it ends after the first draw.
- Engine.Game.AiTurn: requires `OracleSuffices` for the same reason.
