/** The tiles of a game board as a value, column by column, together with the
    two layouts the board produces by itself (a blank grid and the default
    "box of borders" level) and the count of tiles a snake may occupy. */
module Layout {

  /** The content of one cell. Only the difference between a wall and
      everything else matters to the board; the other kinds are placed by the
      gameplay logic. */
  datatype Tile = Empty | Wall | SnakeBody | Food

  /** A board's screen position (x, y) and its size in tiles. */
  datatype Rectangle = Rectangle(x: int, y: int, width: int, height: int)

  /** The tiles column by column: g[x][y] is the tile at column x, row y. */
  type Grid = seq<seq<Tile>>

  /** g has w columns of h tiles each. */
  predicate IsRect(g: Grid, w: int, h: int)
  {
    |g| == w && forall x :: 0 <= x < |g| ==> |g[x]| == h
  }

  /** The outer frame of a w × h board: first or last column, first or last row. */
  predicate OnFrame(w: int, h: int, x: int, y: int)
  {
    x == 0 || x == w - 1 || y == 0 || y == h - 1
  }

  /** A fresh board of w × h empty tiles. */
  function Blank(w: nat, h: nat): (g: Grid)
    ensures IsRect(g, w, h)
    ensures forall x, y :: 0 <= x < w && 0 <= y < h ==> g[x][y] == Empty
  {
    seq(w, _ => seq(h, _ => Empty))
  }

  /** The tile the default level puts at column x, row y. */
  function DefaultTile(w: int, h: int, x: int, y: int): Tile
  {
    if OnFrame(w, h, x, y) then Wall else Empty
  }

  /** The default level: a box of borders of w × h tiles. */
  function DefaultLevel(w: nat, h: nat): (g: Grid)
    ensures IsRect(g, w, h)
    ensures forall x, y :: 0 <= x < w && 0 <= y < h ==> (g[x][y] == Wall <==> OnFrame(w, h, x, y))
    ensures forall x, y :: 0 <= x < w && 0 <= y < h ==> (g[x][y] == Empty <==> !OnFrame(w, h, x, y))
  {
    seq(w, x => seq(h, y => DefaultTile(w, h, x, y)))
  }

  /** 1 for a tile a snake may occupy, 0 for a wall. */
  function Usable(t: Tile): nat
  {
    if t == Wall then 0 else 1
  }

  /** Usable tiles among the first k tiles of column c. */
  function ColumnFreeTo(c: seq<Tile>, k: nat): (n: nat)
    requires k <= |c|
    ensures n <= k
  {
    if k == 0 then 0 else ColumnFreeTo(c, k - 1) + Usable(c[k - 1])
  }

  /** Usable tiles in the first k columns of g. */
  function GridFreeTo(g: Grid, k: nat): nat
    requires k <= |g|
  {
    if k == 0 then 0 else GridFreeTo(g, k - 1) + ColumnFreeTo(g[k - 1], |g[k - 1]|)
  }

  /** Usable tiles in the whole of g. */
  function FreeCount(g: Grid): nat
  {
    GridFreeTo(g, |g|)
  }

  /** Cells of one side of the default level that lie inside its frame. */
  function Inner(n: int): nat
  {
    if n >= 2 then n - 2 else 0
  }

  /** A board of w × h tiles never has more than w * h usable tiles. */
  lemma {:induction false} FreeCountBound(g: Grid, w: nat, h: nat)
    requires IsRect(g, w, h)
    ensures FreeCount(g) <= w * h
  {
    GridFreeToBound(g, w, h, w);
  }

  lemma {:induction false} GridFreeToBound(g: Grid, w: nat, h: nat, k: nat)
    requires IsRect(g, w, h) && k <= w
    ensures GridFreeTo(g, k) <= k * h
  {
    if k > 0 {
      GridFreeToBound(g, w, h, k - 1);
      assert (k - 1) * h + h == k * h;
    }
  }

  /** Every tile of a column without walls is usable. */
  lemma {:induction false} OpenColumnFree(c: seq<Tile>, k: nat)
    requires k <= |c|
    requires forall y :: 0 <= y < |c| ==> c[y] != Wall
    ensures ColumnFreeTo(c, k) == k
  {
    if k > 0 {
      OpenColumnFree(c, k - 1);
    }
  }

  /** A column made of walls only has no usable tile. */
  lemma {:induction false} WallColumnFree(c: seq<Tile>, k: nat)
    requires k <= |c|
    requires forall y :: 0 <= y < |c| ==> c[y] == Wall
    ensures ColumnFreeTo(c, k) == 0
  {
    if k > 0 {
      WallColumnFree(c, k - 1);
    }
  }

  /** A blank board is usable in full: w * h tiles. */
  lemma {:induction false} BlankFree(w: nat, h: nat)
    ensures FreeCount(Blank(w, h)) == w * h
  {
    var g := Blank(w, h);
    var k := 0;
    while k < w
      invariant 0 <= k <= w
      invariant GridFreeTo(g, k) == k * h
    {
      OpenColumnFree(g[k], h);
      assert k * h + h == (k + 1) * h;
      k := k + 1;
    }
  }

  /** An interior column of the default level: a wall at each end, empty between. */
  lemma {:induction false} FrameColumnFree(c: seq<Tile>, k: nat)
    requires 1 <= k < |c|
    requires c[0] == Wall
    requires forall y :: 0 < y < |c| - 1 ==> c[y] != Wall
    ensures ColumnFreeTo(c, k) == k - 1
  {
    if k > 1 {
      FrameColumnFree(c, k - 1);
    }
  }

  /** Usable tiles of column x of the default level. */
  lemma DefaultColumnFree(w: nat, h: nat, x: nat)
    requires x < w
    ensures ColumnFreeTo(DefaultLevel(w, h)[x], h) == if x == 0 || x == w - 1 then 0 else Inner(h)
  {
    var c := DefaultLevel(w, h)[x];
    if x == 0 || x == w - 1 || h < 2 {
      WallColumnFree(c, h);
    } else {
      FrameColumnFree(c, h - 1);
    }
  }

  /** The default level of a w × h board leaves (w - 2) * (h - 2) usable tiles
      inside its frame, and none when the board is too thin to have an inside. */
  lemma {:induction false} DefaultLevelFree(w: nat, h: nat)
    ensures FreeCount(DefaultLevel(w, h)) == Inner(w) * Inner(h)
  {
    var g := DefaultLevel(w, h);
    if w < 2 {
      var k := 0;
      while k < w
        invariant 0 <= k <= w
        invariant GridFreeTo(g, k) == 0
      {
        DefaultColumnFree(w, h, k);
        k := k + 1;
      }
    } else {
      DefaultColumnFree(w, h, 0);
      var k := 1;
      while k < w - 1
        invariant 1 <= k <= w - 1
        invariant GridFreeTo(g, k) == (k - 1) * Inner(h)
      {
        DefaultColumnFree(w, h, k);
        assert (k - 1) * Inner(h) + Inner(h) == k * Inner(h);
        k := k + 1;
      }
      DefaultColumnFree(w, h, w - 1);
    }
  }

  /** Writing tile t at (x, y) of column c changes the usable count of any
      prefix that holds y by the difference between t and the tile it replaces. */
  lemma {:induction false} ColumnFreeUpdate(c: seq<Tile>, y: nat, t: Tile, k: nat)
    requires y < |c| && k <= |c|
    ensures ColumnFreeTo(c[y := t], k) + (if y < k then Usable(c[y]) else 0)
         == ColumnFreeTo(c, k) + (if y < k then Usable(t) else 0)
  {
    if k > 0 {
      ColumnFreeUpdate(c, y, t, k - 1);
    }
  }

  lemma {:induction false} GridFreeUpdate(g: Grid, x: nat, y: nat, t: Tile, k: nat)
    requires x < |g| && y < |g[x]| && k <= |g|
    ensures GridFreeTo(g[x := g[x][y := t]], k) + (if x < k then Usable(g[x][y]) else 0)
         == GridFreeTo(g, k) + (if x < k then Usable(t) else 0)
  {
    if k > 0 {
      GridFreeUpdate(g, x, y, t, k - 1);
      if k - 1 == x {
        ColumnFreeUpdate(g[x], y, t, |g[x]|);
      }
    }
  }

  /** Writing one tile moves the usable count by at most one: up when a wall
      is replaced, down when a wall is written, and not at all otherwise. */
  lemma FreeCountUpdate(g: Grid, x: nat, y: nat, t: Tile)
    requires x < |g| && y < |g[x]|
    ensures FreeCount(g[x := g[x][y := t]]) == FreeCount(g) - Usable(g[x][y]) + Usable(t)
  {
    GridFreeUpdate(g, x, y, t, |g|);
  }

  /** Two grids of the same shape that agree on every tile are equal. */
  lemma SameGrid(a: Grid, b: Grid, w: nat, h: nat)
    requires IsRect(a, w, h) && IsRect(b, w, h)
    requires forall x, y :: 0 <= x < w && 0 <= y < h ==> a[x][y] == b[x][y]
    ensures a == b
  {
    forall x | 0 <= x < w
      ensures a[x] == b[x]
    {
      assert forall y :: 0 <= y < h ==> a[x][y] == b[x][y];
    }
  }
}
