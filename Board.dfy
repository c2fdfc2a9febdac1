/** The game board, where all the action happens: a width × height matrix of
    tiles, the board's screen rectangle, the game speed and the border policy. */
module Boards {
  import opened Layout

  /** Sets every tile of a to Empty. */
  method FillEmpty(a: array2<Tile>)
    modifies a
    ensures forall x, y :: 0 <= x < a.Length0 && 0 <= y < a.Length1 ==> a[x, y] == Empty
  {
    var x := 0;
    while x < a.Length0
      invariant 0 <= x <= a.Length0
      invariant forall i, j :: 0 <= i < x && 0 <= j < a.Length1 ==> a[i, j] == Empty
    {
      var y := 0;
      while y < a.Length1
        invariant 0 <= y <= a.Length1
        invariant forall i, j :: 0 <= i < x && 0 <= j < a.Length1 ==> a[i, j] == Empty
        invariant forall j :: 0 <= j < y ==> a[x, j] == Empty
      {
        a[x, y] := Empty;
        y := y + 1;
      }
      x := x + 1;
    }
  }

  class Board {
    /** Matrix of all the tiles: grid[x, y] is the tile at column x, row y. */
    var grid: array2<Tile>

    /** How fast the snake goes. */
    var speed: int

    /** The board's screen position and its size in tiles. */
    var box: Rectangle

    /** True when crossing an edge kills the snake, false when it teleports
        it to the opposite edge. */
    var borders: bool

    /** The matrix always has the rectangle's width and height. */
    ghost predicate Valid()
      reads this
    {
      grid.Length0 == box.width && grid.Length1 == box.height
    }

    /** The tiles as a value. */
    ghost function Cells(): (g: Grid)
      reads this, grid
      ensures IsRect(g, grid.Length0, grid.Length1)
      ensures forall x, y :: 0 <= x < grid.Length0 && 0 <= y < grid.Length1 ==> g[x][y] == grid[x, y]
    {
      var a := grid;
      seq(a.Length0, x requires 0 <= x < a.Length0 reads a =>
        seq(a.Length1, y requires 0 <= y < a.Length1 reads a => a[x, y]))
    }

    /** A new empty board of box.width × box.height tiles; by default the
        borders teleport. */
    constructor (box: Rectangle, haveBorders: bool := false)
      requires 0 <= box.width && 0 <= box.height
      ensures Valid() && fresh(grid)
      ensures this.box == box && borders == haveBorders
      ensures Cells() == Blank(box.width, box.height)
    {
      var g := new Tile[box.width, box.height];
      FillEmpty(g);
      grid := g;
      this.box := box;
      borders := haveBorders;
      new;
      SameGrid(Cells(), Blank(box.width, box.height), box.width, box.height);
    }

    /** Discards every tile and starts over with a fresh empty matrix of
        box.width × box.height tiles placed at box. */
    method Clear(box: Rectangle)
      requires 0 <= box.width && 0 <= box.height
      modifies this
      ensures Valid() && fresh(grid)
      ensures this.box == box
      ensures Cells() == Blank(box.width, box.height)
      ensures borders == old(borders) && speed == old(speed)
    {
      var g := new Tile[box.width, box.height];
      FillEmpty(g);
      grid := g;
      this.box := box;
      SameGrid(Cells(), Blank(box.width, box.height), box.width, box.height);
    }

    /** Overwrites the tiles with the default level: a box of borders with
        the board's own width and height. */
    method LoadDefaultLevel()
      requires Valid()
      modifies grid
      ensures Valid()
      ensures Cells() == DefaultLevel(box.width, box.height)
    {
      var w, h := box.width, box.height;
      var x := 0;
      while x < w
        invariant 0 <= x <= w
        invariant forall i, j :: 0 <= i < x && 0 <= j < h ==> grid[i, j] == DefaultTile(w, h, i, j)
      {
        var y := 0;
        while y < h
          invariant 0 <= y <= h
          invariant forall i, j :: 0 <= i < x && 0 <= j < h ==> grid[i, j] == DefaultTile(w, h, i, j)
          invariant forall j :: 0 <= j < y ==> grid[x, j] == DefaultTile(w, h, x, j)
        {
          grid[x, y] := DefaultTile(w, h, x, y);
          y := y + 1;
        }
        x := x + 1;
      }
      SameGrid(Cells(), DefaultLevel(w, h), w, h);
    }

    /** The tile at column x, row y. */
    function At(x: int, y: int): (t: Tile)
      reads this, grid
      requires Valid() && IsInsideMap(x, y)
      ensures t == Cells()[x][y]
    {
      grid[x, y]
    }

    /** Writes t at column x, row y through the reference the board hands
        out; no other tile changes. */
    method SetAt(x: int, y: int, t: Tile)
      requires Valid() && IsInsideMap(x, y)
      modifies grid
      ensures Valid()
      ensures Cells() == old(Cells())[x := old(Cells())[x][y := t]]
    {
      ghost var before := Cells();
      grid[x, y] := t;
      SameGrid(Cells(), before[x := before[x][y := t]], box.width, box.height);
    }

    /** The board's width in tiles. */
    function Width(): (w: int)
      reads this
      requires Valid()
      ensures w == grid.Length0
    {
      box.width
    }

    /** The board's height in tiles. */
    function Height(): (h: int)
      reads this
      requires Valid()
      ensures h == grid.Length1
    {
      box.height
    }

    /** Chooses whether crossing an edge kills the snake (true) or teleports
        it (false). */
    method SetBorders(option: bool)
      requires Valid()
      modifies this`borders
      ensures Valid()
      ensures HasBorders() == option
      ensures grid == old(grid) && box == old(box) && speed == old(speed)
    {
      borders := option;
    }

    /** Tells if the snake dies (true) or teleports (false) when it crosses
        an edge of this board. */
    function HasBorders(): bool
      reads this
    {
      borders
    }

    /** Tells if the point (x, y) is inside the map: exactly when the board
        has a tile there. Only the rectangle is consulted, never the tiles. */
    function IsInsideMap(x: int, y: int): (r: bool)
      reads this
      requires Valid()
      ensures r <==> 0 <= x < grid.Length0 && 0 <= y < grid.Length1
    {
      0 <= x < box.width && 0 <= y < box.height
    }

    /** The largest length a snake may reach inside this board: the number of
        tiles that are not walls. */
    method MaxLengthInsideMe() returns (n: int)
      requires Valid()
      ensures n == FreeCount(Cells())
      ensures 0 <= n <= Width() * Height()
    {
      ghost var g := Cells();
      n := 0;
      var x := 0;
      while x < box.width
        invariant 0 <= x <= box.width
        invariant n == GridFreeTo(g, x)
      {
        var y := 0;
        while y < box.height
          invariant 0 <= y <= box.height
          invariant n == GridFreeTo(g, x) + ColumnFreeTo(g[x], y)
        {
          if grid[x, y] != Wall {
            n := n + 1;
          }
          y := y + 1;
        }
        x := x + 1;
      }
      FreeCountBound(g, box.width, box.height);
    }

    method SetSpeed(speed: int)
      requires Valid()
      modifies this`speed
      ensures Valid()
      ensures GetSpeed() == speed
      ensures grid == old(grid) && box == old(box) && borders == old(borders)
    {
      this.speed := speed;
    }

    function GetSpeed(): int
      reads this
    {
      speed
    }

    /** Moves the board horizontally on screen; the tiles stay as they are. */
    method SetX(x: int)
      requires Valid()
      modifies this`box
      ensures Valid()
      ensures box == old(box).(x := x)
      ensures grid == old(grid) && Cells() == old(Cells())
    {
      box := box.(x := x);
      SameGrid(Cells(), old(Cells()), box.width, box.height);
    }

    /** Moves the board vertically on screen; the tiles stay as they are. */
    method SetY(y: int)
      requires Valid()
      modifies this`box
      ensures Valid()
      ensures box == old(box).(y := y)
      ensures grid == old(grid) && Cells() == old(Cells())
    {
      box := box.(y := y);
      SameGrid(Cells(), old(Cells()), box.width, box.height);
    }
  }

  /** A 10 × 8 board with the default level: a wall in the corner, an empty
      tile in the middle, and room for a snake of 8 * 6 = 48 tiles. */
  method DefaultLevelExample()
  {
    var board := new Board(Rectangle(0, 0, 10, 8));
    assert !board.HasBorders();
    board.LoadDefaultLevel();
    assert board.At(0, 0) == Wall;
    assert board.At(5, 4) == Empty;
    var n := board.MaxLengthInsideMe();
    DefaultLevelFree(10, 8);
    assert n == 48;
    board.SetBorders(true);
    assert board.HasBorders() && board.At(9, 7) == Wall;
  }
}
