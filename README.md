# nSnake game board

This project models the playfield of the nSnake terminal game: the `Board`
class, which owns a width × height matrix of tiles. The board also keeps:

- its screen rectangle (position and size);
- the game speed;
- a border policy: crossing an edge either kills the snake or teleports it to the opposite edge.

The board is modelled as a Dafny class. `Boards.Board` holds a two-dimensional
array of tiles (`grid[x, y]` is column x, row y), the rectangle, the speed and the
border flag. Its invariant `Valid()` says that the matrix has exactly the
rectangle's width and height. The methods work on the array with loops. Their
contracts tie the array, seen as a value through `Cells()`, to the pure
layouts of module `Layout`:

- `Blank(w, h)` is what construction and `clear` produce.
- `DefaultLevel(w, h)` is the "box of borders" that `loadDefaultLevel` writes.
- `FreeCount(g)` counts the tiles a snake may occupy (every tile that is not a wall). It is what `maxLengthInsideMe` returns.

The lemmas of `Layout` state the properties of these layouts. A board has at
most w × h usable tiles. A blank board is usable in full. The default level
leaves (w − 2) × (h − 2) usable tiles. Writing one tile moves the count by at most one.
`Boards.DefaultLevelExample` works through a 10 × 8 board as a client would.
It shows a wall in the corner, an empty middle tile, a capacity of 48, and teleporting borders by default.

The model follows the declarations and doc comments of `src/Board.hpp`;
`src/Board.cpp` is not part of this model. Where the header gives no formula
(the capacity, for one), the "usable" size is taken to be the total number of
tiles minus the wall tiles.

## Model

| member | source | states |
|---|---|---|
| `Boards.Board.constructor` | src/Board.hpp:14-19 | the new board's matrix has box.width columns and box.height rows, every tile is empty, the rectangle is box, and the border flag is the argument, false (teleport) when it is omitted |
| `Boards.Board.Clear` | src/Board.hpp:23-25 | afterwards the matrix is a freshly allocated box.width × box.height grid of empty tiles, so nothing of the earlier tiles survives; the rectangle becomes box; speed and border flag are kept |
| `Boards.Board.LoadDefaultLevel` | src/Board.hpp:27-31 | the board keeps its width and height and its tiles become the default level: walls on the outer frame, empty inside |
| `Layout.DefaultLevel` | src/Board.hpp:27-31 | the default level of w × h has w columns of h tiles; a tile is a wall exactly when it is on the frame (x = 0, x = w − 1, y = 0 or y = h − 1) and empty exactly when it is not |
| `Layout.Blank` | src/Board.hpp:23-25 | a fresh grid has w columns of h tiles, all empty |
| `Boards.Board.At` | src/Board.hpp:33-34 | for a point inside the map, returns the tile at column x, row y of the board's tiles |
| `Boards.Board.SetAt` | src/Board.hpp:33-34 | writing through the returned tile changes that one cell to t and leaves every other cell and the dimensions as they were |
| `Boards.Board.Width` | src/Board.hpp:40 | the reported width is the matrix's number of columns |
| `Boards.Board.Height` | src/Board.hpp:41 | the reported height is the matrix's number of rows |
| `Boards.Board.SetBorders` | src/Board.hpp:43-47 | after setBorders(b), the getter `Boards.Board.HasBorders` (hasBorders) returns b; the class invariant is kept and the tiles, rectangle and speed are unchanged |
| `Boards.Board.MaxLengthInsideMe` | src/Board.hpp:53-56 | returns the number of non-wall tiles of the board, which lies between 0 and width × height |
| `Layout.FreeCountBound` | src/Board.hpp:53-56 | a grid of w columns of h tiles never has more than w × h usable tiles |
| `Layout.BlankFree` | src/Board.hpp:53-56 | on a freshly cleared w × h board every one of the w × h tiles is usable |
| `Layout.DefaultLevelFree` | src/Board.hpp:53-56 | on the default level the usable size is (w − 2) × (h − 2), and 0 when the board is narrower or shorter than 2 |
| `Layout.FreeCountUpdate` | src/Board.hpp:33-34 | writing tile t at (x, y) changes the usable count by Usable(t) − Usable(old tile): by one at most, and only when a wall is written or overwritten |
| `Layout.ColumnFreeTo` | src/Board.hpp:53-56 | a column prefix of k tiles has at most k usable tiles |
| `Boards.Board.IsInsideMap` | src/Board.hpp:68-71 | true exactly when 0 ≤ x < width and 0 ≤ y < height, i.e. when the board has a tile at (x, y); the tiles themselves are not consulted |
| `Boards.Board.SetSpeed` | src/Board.hpp:76-77 | after setSpeed(s), the getter `Boards.Board.GetSpeed` (getSpeed) returns s; the class invariant is kept and the tiles, rectangle and border flag are unchanged |
| `Boards.Board.SetX` | src/Board.hpp:85 | only the rectangle's x changes; width, height, the matrix and every tile stay the same |
| `Boards.Board.SetY` | src/Board.hpp:86 | only the rectangle's y changes; width, height, the matrix and every tile stay the same |

## Left out

- `loadFile` (src/Board.hpp:58-59) is not modelled. It reads a file and parses a level. The file grammar and `Level.hpp` are not part of this model.
- `render` (src/Board.hpp:36-38) is not modelled. It draws to the screen through an external display library.
- `getLevel`, `getSupportedPlayers` and `getLevelName` (src/Board.hpp:61-66, 73-74, 83) are not modelled. They delegate to the `level` field (src/Board.hpp:93-94), and `Level.hpp` is not part of this model. The field is left out for the same reason.
- `increaseSpeed`, `getTimeout` and the `timeout` field (src/Board.hpp:79-81, 99-101) are not modelled. The header gives neither the speed step nor the formula from speed to timeout.
- The destructor (src/Board.hpp:21) is not modelled: it only frees memory.
- `Tile.hpp` and `Shapes.hpp` are not part of this model. `Tile` is abstracted to a four-case datatype, of which the board only distinguishes `Wall` from the rest. `Rectangle` is a record of x, y, width and height.
- Boards.Board.constructor does not state the initial speed, because the header does not give it.
- Boards.Board.constructor and Boards.Board.Clear require a non-negative width and height. The header gives no behaviour for a negative width or height, so the model excludes them. The C++ would throw or build an empty grid, depending on code that is not part of this model. Callers are expected to guard against such degenerate geometry.
- Boards.Board.MaxLengthInsideMe counts the non-wall tiles. The header only says "the usable size inside the board", so the formula is the model's reading.
- Boards.Board.At and Boards.Board.SetAt split the mutable `Tile&` that `at` returns into a read and a single write. A reference that a caller keeps and writes through later (aliasing) is not modelled.
- Boards.Board.Clear allocates a fresh matrix, where the C++ `std::vector` may reuse its storage. Every tile is empty afterwards in both cases.
- `int` is modelled as unbounded. Coordinates, speed and the tile count are never wrapped at 32 bits.
