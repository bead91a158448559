/**
  The `Grid` class itself: fixed dimensions and a heap buffer of `int`s,
  each operation proved to act on the buffer exactly as the value model in
  `TileGrid` says.
 */
module GridObject {
  import opened CInt
  import TG = TileGrid

  class Grid {
    const width: int32
    const height: int32
    const tiles: array<int32>

    /** The buffer has the length the constructor allocated. */
    predicate Valid()
      reads this
    {
      0 <= width * height <= Max && tiles.Length == width * height
    }

    /** The value this object stands for. */
    function Model(): (m: TG.Grid)
      reads this, tiles
      requires Valid()
      ensures TG.Valid(m) && m.width == width && m.height == height
    {
      TG.Grid(width, height, tiles[..])
    }

    /** Allocates a new buffer that the object owns; its contents are
        whatever `junk` says. The
        negative-length case, where the allocation throws, is the
        `BadArrayNewLength` outcome of `TG.New`. */
    constructor (width: int32, height: int32, junk: int -> int32)
      requires Representable(width * height) && 0 <= width * height
      ensures Valid()
      ensures fresh(tiles)
      ensures TG.New(width, height, junk) == TG.Allocated(Model())
    {
      this.width := width;
      this.height := height;
      tiles := new int32[width * height](i => junk(i));
    }

    function GetTile(x: int, y: int): (t: TG.Tile)
      reads this, tiles
      requires Valid() && TG.InBounds(Model(), x, y)
      ensures t == TG.GetTile(Model(), x, y)
    {
      TG.RowMajorInRange(width, height, x, y);
      TG.Tile(tiles[x + y * width])
    }

    method SetTile(x: int, y: int, t: TG.Tile)
      modifies tiles
      requires Valid() && TG.InBounds(Model(), x, y)
      ensures Valid()
      ensures Model() == TG.SetTile(old(Model()), x, y, t)
    {
      ghost var before := Model();
      var i := x + y * width;
      assert i == TG.Index(before, x, y);
      tiles[i] := t.code;
      assert tiles[..] == before.cells[i := t.code];
    }

    /** A read-only query: it reads the object and changes nothing. */
    function IsConnected(canFit: (TG.Grid, int32, int32, int32) -> bool,
                         size: int32, x1: int32, y1: int32, x2: int32, y2: int32): (r: bool)
      reads this, tiles
      requires Valid()
      ensures r == TG.IsConnected(Model(), canFit, size, x1, y1, x2, y2)
    {
      if !canFit(Model(), size, x1, y1) then false
      else true
    }

    /** The shortest-path query: a read-only stub that reports 1 and leaves
        the caller's `path` vector as it was. */
    function FindShortestPath(size: int32, x1: int32, y1: int32, x2: int32, y2: int32,
                              path: seq<TG.Direction>): (r: (int32, seq<TG.Direction>))
      reads this, tiles
      requires Valid()
      ensures r == TG.FindShortestPath(Model(), size, x1, y1, x2, y2, path)
    {
      (1, path)
    }
  }
}
