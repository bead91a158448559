/**
  The tile store of `Grid`: a `width` by `height` map kept as one flat
  row-major buffer of C++ `int`s, cell (x, y) living at `x + y*width`.

  The store is modelled as an immutable value; `SetTile` returns the
  updated grid. Memory management (`new[]`/`delete[]`) has no counterpart:
  the buffer is a sequence.
 */
module TileGrid {
  import opened CInt

  /** A terrain class, held as its enumerator's integer value. The
      enumerators themselves are declared in a header outside this model. */
  datatype Tile = Tile(code: int32)

  /** A move direction, held as its enumerator's integer value. */
  datatype Direction = Direction(code: int32)

  /** The grid's state: its two dimensions and the tile buffer. */
  datatype Grid = Grid(width: int32, height: int32, cells: seq<int32>)

  /** What `new int[width*height]` yields: a buffer, or the exception it
      throws for a negative length. */
  datatype Allocation = Allocated(grid: Grid) | BadArrayNewLength

  /** The state a successful construction establishes: the buffer holds
      exactly `width*height` cells and that product is a valid array
      length. Both dimensions may be negative when their product is not. */
  predicate Valid(g: Grid) {
    0 <= g.width * g.height <= Max && |g.cells| == g.width * g.height
  }

  /** True iff (x, y) names a cell of the grid. The source does no bounds
      checking; this is the condition its callers must meet. */
  predicate InBounds(g: Grid, x: int, y: int) {
    0 <= x < g.width && 0 <= y < g.height
  }

  /** The constructor. The buffer is not initialised, so its initial
      contents are whatever `junk` says; `width*height` must not overflow,
      which would be undefined behaviour. */
  function New(width: int32, height: int32, junk: int -> int32): (r: Allocation)
    requires Representable(width * height)
    ensures r.Allocated? <==> 0 <= width * height
    ensures r.Allocated? ==> Valid(r.grid)
    ensures r.Allocated? ==> GetWidth(r.grid) == width && GetHeight(r.grid) == height
    ensures r.Allocated? ==> |r.grid.cells| == width * height
  {
    if width * height < 0 then BadArrayNewLength
    else Allocated(Grid(width, height, seq(width * height, i => junk(i))))
  }

  /** The width: for a constructed grid, the factor that multiplied by the
      height gives the buffer length. */
  function GetWidth(g: Grid): (w: int32)
    ensures Valid(g) ==> w * g.height == |g.cells|
  {
    g.width
  }

  /** The height: for a constructed grid, the factor that multiplied by the
      width gives the buffer length. */
  function GetHeight(g: Grid): (h: int32)
    ensures Valid(g) ==> g.width * h == |g.cells|
  {
    g.height
  }

  /** Row-major position of cell (x, y) in the buffer. */
  function Index(g: Grid, x: int, y: int): (i: int)
    requires Valid(g) && InBounds(g, x, y)
    ensures 0 <= i < |g.cells|
    ensures Representable(y * g.width) && Representable(i)
  {
    RowMajorInRange(g.width, g.height, x, y);
    x + y * g.width
  }

  /** The cell a buffer position holds: the inverse of `Index`. */
  function Coord(g: Grid, i: int): (c: (int, int))
    requires Valid(g) && 0 < g.width && 0 <= i < |g.cells|
    ensures InBounds(g, c.0, c.1) && Index(g, c.0, c.1) == i
  {
    var w := g.width as int;
    var x, y := i % w, i / w;
    assert 0 <= x < w && i == x + y * w;
    assert 0 <= y by {
      if y < 0 {
        MulMonotone(y, -1, w);
      }
    }
    assert y < g.height by {
      if g.height <= y {
        MulMonotone(g.height, y, w);
      }
    }
    (x, y)
  }

  /** The tile at (x, y): the buffer cell that `Coord` places at (x, y),
      cast back to `Tile`. */
  function GetTile(g: Grid, x: int, y: int): (t: Tile)
    requires Valid(g) && InBounds(g, x, y)
    ensures exists i :: 0 <= i < |g.cells| && Coord(g, i) == (x, y) && t == Tile(g.cells[i])
  {
    CoordOfIndex(g, x, y);
    Tile(g.cells[Index(g, x, y)])
  }

  /** Writes `t` at (x, y): that cell now reads `t`, every other cell reads
      what it did, and the dimensions are kept. */
  function SetTile(g: Grid, x: int, y: int, t: Tile): (r: Grid)
    requires Valid(g) && InBounds(g, x, y)
    ensures Valid(r)
    ensures r.width == g.width && r.height == g.height
    ensures |r.cells| == |g.cells|
    ensures GetTile(r, x, y) == t
    ensures forall x', y' | InBounds(g, x', y') && (x', y') != (x, y) ::
              GetTile(r, x', y') == GetTile(g, x', y')
  {
    IndexDistinct(g, x, y);
    g.(cells := g.cells[Index(g, x, y) := t.code])
  }

  /** The connectivity query. Only its first check exists: the footprint of
      `size` must fit at the origin, as decided by `canFit`, which is
      declared outside this model. The rest is a stub answering true. */
  function IsConnected(g: Grid, canFit: (Grid, int32, int32, int32) -> bool,
                       size: int32, x1: int32, y1: int32, x2: int32, y2: int32): (r: bool)
    ensures !canFit(g, size, x1, y1) ==> !r
    ensures canFit(g, size, x1, y1) ==> r
  {
    if !canFit(g, size, x1, y1) then false
    else true
  }

  /** The shortest-path query: a stub that reports 1 and never writes the
      caller's `path` vector, returned here as the second component. */
  function FindShortestPath(g: Grid, size: int32, x1: int32, y1: int32, x2: int32, y2: int32,
                            path: seq<Direction>): (r: (int32, seq<Direction>))
    ensures r.1 == path
    ensures r.0 == 1
  {
    (1, path)
  }

  /* ---------------------------------------------------------------------
     Row-major indexing
     --------------------------------------------------------------------- */

  /** Every in-bounds cell maps into `[0, width*height)`, and neither
      `y*width` nor the sum leaves that range. */
  lemma RowMajorInRange(width: int, height: int, x: int, y: int)
    requires 0 <= x < width && 0 <= y < height
    ensures 0 <= y * width
    ensures x + y * width < width * height
  {
    MulMonotone(0, y, width);
    MulMonotone(y + 1, height, width);
  }

  /** Row-major indexing is injective on in-bounds columns. */
  lemma RowMajorInjective(width: int, x: int, y: int, x': int, y': int)
    requires 0 <= x < width && 0 <= x' < width
    requires x + y * width == x' + y' * width
    ensures x == x' && y == y'
  {
    if y < y' {
      MulMonotone(y + 1, y', width);
    } else if y' < y {
      MulMonotone(y' + 1, y, width);
    }
  }

  /** Distinct in-bounds cells occupy distinct buffer positions. */
  lemma IndexDistinct(g: Grid, x: int, y: int)
    requires Valid(g) && InBounds(g, x, y)
    ensures forall x', y' | InBounds(g, x', y') && (x', y') != (x, y) ::
              Index(g, x', y') != Index(g, x, y)
  {
    forall x', y' | InBounds(g, x', y') && (x', y') != (x, y)
      ensures Index(g, x', y') != Index(g, x, y)
    {
      if Index(g, x', y') == Index(g, x, y) {
        RowMajorInjective(g.width, x', y', x, y);
      }
    }
  }

  /** `Coord` undoes `Index`: the two are a bijection between in-bounds
      cells and buffer positions. */
  lemma CoordOfIndex(g: Grid, x: int, y: int)
    requires Valid(g) && InBounds(g, x, y)
    ensures Coord(g, Index(g, x, y)) == (x, y)
  {
    var c := Coord(g, Index(g, x, y));
    RowMajorInjective(g.width, c.0, c.1, x, y);
  }

  /* ---------------------------------------------------------------------
     Construction
     --------------------------------------------------------------------- */

  /** Construction puts no constraint on the cells: every buffer of the
      right length is a possible initial state. */
  lemma NewAnyContents(width: int32, height: int32, cells: seq<int32>)
    requires Representable(width * height)
    requires 0 <= width * height && |cells| == width * height
    ensures exists junk: int -> int32 :: New(width, height, junk) == Allocated(Grid(width, height, cells))
  {
    var junk: int -> int32 := i => if 0 <= i < |cells| then cells[i] else 0;
    assert New(width, height, junk).grid.cells == cells;
  }

  /* ---------------------------------------------------------------------
     Reads and writes
     --------------------------------------------------------------------- */

  /** The 2-D picture the buffer stands for: row y, column x holds the
      tile at (x, y). */
  function View(g: Grid): (v: seq<seq<Tile>>)
    requires Valid(g)
    ensures |v| == if g.height < 0 then 0 else g.height as int
    ensures forall y | 0 <= y < |v| :: |v[y]| == if g.width < 0 then 0 else g.width as int
  {
    if g.width < 0 || g.height < 0 then []
    else seq(g.height, y requires 0 <= y < g.height =>
           seq(g.width, x requires 0 <= x < g.width => GetTile(g, x, y)))
  }

  /** A write is a point update of the 2-D picture. */
  lemma SetTileUpdatesView(g: Grid, x: int, y: int, t: Tile)
    requires Valid(g) && InBounds(g, x, y)
    ensures View(SetTile(g, x, y, t)) == View(g)[y := View(g)[y][x := t]]
  {
    var r := SetTile(g, x, y, t);
    var v, w := View(g), View(r);
    var u := v[y := v[y][x := t]];
    assert |w| == |u|;
    forall y' | 0 <= y' < |w|
      ensures w[y'] == u[y']
    {
      assert |w[y']| == |u[y']|;
      forall x' | 0 <= x' < |w[y']|
        ensures w[y'][x'] == u[y'][x']
      {
        assert w[y'][x'] == GetTile(r, x', y');
      }
    }
  }

  /** Writing the tile a cell already holds changes nothing: the int
      store and the cast back to `Tile` round-trip. */
  lemma SetTileOwnValue(g: Grid, x: int, y: int)
    requires Valid(g) && InBounds(g, x, y)
    ensures SetTile(g, x, y, GetTile(g, x, y)) == g
  {
  }

  /** A second write to the same cell hides the first. */
  lemma SetTileOverwrite(g: Grid, x: int, y: int, a: Tile, b: Tile)
    requires Valid(g) && InBounds(g, x, y)
    ensures SetTile(SetTile(g, x, y, a), x, y, b) == SetTile(g, x, y, b)
  {
  }

  /** Writes to different cells commute. */
  lemma SetTileCommute(g: Grid, x: int, y: int, a: Tile, x': int, y': int, b: Tile)
    requires Valid(g) && InBounds(g, x, y) && InBounds(g, x', y')
    requires (x, y) != (x', y')
    ensures SetTile(SetTile(g, x, y, a), x', y', b) == SetTile(SetTile(g, x', y', b), x, y, a)
  {
  }

  /* ---------------------------------------------------------------------
     Queries
     --------------------------------------------------------------------- */

  /** The connectivity answer does not depend on the destination: only the
      origin's fit is ever checked. */
  lemma IsConnectedIgnoresDestination(g: Grid, canFit: (Grid, int32, int32, int32) -> bool,
                                      size: int32, x1: int32, y1: int32,
                                      x2: int32, y2: int32, x3: int32, y3: int32)
    ensures IsConnected(g, canFit, size, x1, y1, x2, y2) == IsConnected(g, canFit, size, x1, y1, x3, y3)
  {
  }
}
